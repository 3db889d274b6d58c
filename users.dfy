/**
 * The user collection as the controllers use it: lookup by phone number, insertion,
 * and a password update. Its own schema file is not part of this model; a user's
 * `_id` is modelled as the position at which it was inserted.
 */
module Users {
  import opened Basics

  /** A stored user; `password` holds the hash, never the plaintext. */
  datatype User = User(id: nat, username: string, email: string, password: string, phoneNumber: string)

  /** `findOne({phoneNumber})`: the first user, in insertion order, with that phone number. */
  function FindByPhone(users: seq<User>, phone: string): (i: Option<nat>)
    ensures i.Some? ==> i.value < |users| && users[i.value].phoneNumber == phone
    ensures i.Some? ==> forall j :: 0 <= j < i.value ==> users[j].phoneNumber != phone
    ensures i.None? ==> forall j :: 0 <= j < |users| ==> users[j].phoneNumber != phone
    decreases |users|
  {
    if users == [] then None
    else if users[0].phoneNumber == phone then Some(0)
    else match FindByPhone(users[1..], phone)
      case None => None
      case Some(k) => Some(k + 1)
  }

  /** No two users share a phone number: what registration maintains. */
  predicate PhonesUnique(users: seq<User>) {
    forall i, j :: 0 <= i < j < |users| ==> users[i].phoneNumber != users[j].phoneNumber
  }

  /** Each user's id is its position: the `_id` the collection assigns on insertion. */
  predicate IdsArePositions(users: seq<User>) {
    forall i :: 0 <= i < |users| ==> users[i].id == i
  }

  /** With unique phone numbers, the lookup finds the one user who has the number. */
  lemma FindByPhoneUnique(users: seq<User>, k: nat)
    requires PhonesUnique(users) && k < |users|
    ensures FindByPhone(users, users[k].phoneNumber) == Some(k)
  {
  }

  /** The user collection, in insertion order. */
  class UserTable {
    var users: seq<User>

    /** Each user's id is its position. */
    ghost predicate Valid()
      reads this
    {
      IdsArePositions(users)
    }

    constructor ()
      ensures Valid() && users == []
    {
      users := [];
    }

    /** `new userModel({...}).save()`: append a user with a fresh id. */
    method Save(username: string, email: string, password: string, phone: string) returns (u: User)
      requires Valid()
      modifies this
      ensures Valid()
      ensures u == User(|old(users)|, username, email, password, phone)
      ensures users == old(users) + [u]
    {
      u := User(|users|, username, email, password, phone);
      users := users + [u];
    }

    /** `user.password = hashed; user.save()` for the user at position i. */
    method SetPassword(i: nat, hashed: string)
      requires Valid() && i < |users|
      modifies this
      ensures Valid()
      ensures users == old(users)[i := old(users)[i].(password := hashed)]
    {
      users := users[i := users[i].(password := hashed)];
    }
  }
}
