/**
 * The OTP collection: the record schema (required fields, the purpose enum, defaults),
 * the queries the controllers run against it, and the store itself.
 *
 * A record is identified for lookups by the pair (phoneNumber, purpose), which the
 * schema indexes but does not make unique; the controllers keep it unique by deleting
 * every record of a key before inserting a new one.
 */
module OtpModel {
  import opened Basics

  datatype Purpose = ForgotPassword | Verification | Registration

  /** The string the schema stores for each enum value. */
  function PurposeName(p: Purpose): string {
    match p
    case ForgotPassword => "forgot_password"
    case Verification => "verification"
    case Registration => "registration"
  }

  /** The enum validator: a string is accepted exactly when it names a purpose. */
  function ParsePurpose(s: string): (r: Option<Purpose>)
    ensures forall p :: r == Some(p) <==> PurposeName(p) == s
  {
    if s == "forgot_password" then Some(ForgotPassword)
    else if s == "verification" then Some(Verification)
    else if s == "registration" then Some(Registration)
    else None
  }

  /** A stored record; times are milliseconds since the epoch. */
  datatype OtpRecord = OtpRecord(
    phoneNumber: string,
    otp: string,
    purpose: Purpose,
    isVerified: bool,
    expiresAt: int,
    createdAt: int)

  /** What a required string field demands: present and not empty. */
  predicate Present(f: Option<string>) {
    f.Some? && f.value != ""
  }

  /** The required fields of a stored record are non-empty. */
  predicate WellFormed(r: OtpRecord) {
    r.phoneNumber != "" && r.otp != ""
  }

  /** The fields given to the model constructor; `None` is a field left undefined. */
  datatype OtpFields = OtpFields(
    phoneNumber: Option<string>,
    otp: Option<string>,
    purpose: Option<string>,
    isVerified: Option<bool>,
    expiresAt: Option<int>,
    createdAt: Option<int>)

  /** A validation failure, naming every path that failed. */
  datatype SchemaError = ValidationError(paths: set<string>)

  function FailedPaths(f: OtpFields): set<string> {
    (if Present(f.phoneNumber) then {} else {"phoneNumber"})
    + (if Present(f.otp) then {} else {"otp"})
    + (if f.purpose.Some? && ParsePurpose(f.purpose.value).None? then {"purpose"} else {})
    + (if f.expiresAt.Some? then {} else {"expiresAt"})
  }

  /**
   * Building a document and validating it on save: the defaults are applied
   * (purpose, isVerified, createdAt) and the required and enum checks are run.
   */
  function Instantiate(f: OtpFields, now: int): (r: Result<OtpRecord, SchemaError>)
    ensures r.Err? <==> !Present(f.phoneNumber) || !Present(f.otp) || f.expiresAt.None?
                        || (f.purpose.Some? && ParsePurpose(f.purpose.value).None?)
    ensures r.Err? ==> (("phoneNumber" in r.error.paths <==> !Present(f.phoneNumber))
                        && ("otp" in r.error.paths <==> !Present(f.otp))
                        && ("expiresAt" in r.error.paths <==> f.expiresAt.None?))
    ensures r.Ok? ==> WellFormed(r.value)
    ensures r.Ok? ==> r.value.phoneNumber == f.phoneNumber.value && r.value.otp == f.otp.value
                      && r.value.expiresAt == f.expiresAt.value
    ensures r.Ok? ==> (f.purpose.None? ==> r.value.purpose == ForgotPassword)
                      && (f.purpose.Some? ==> PurposeName(r.value.purpose) == f.purpose.value)
    ensures r.Ok? ==> (f.isVerified.None? ==> !r.value.isVerified)
                      && (f.isVerified.Some? ==> r.value.isVerified == f.isVerified.value)
    ensures r.Ok? ==> (f.createdAt.None? ==> r.value.createdAt == now)
                      && (f.createdAt.Some? ==> r.value.createdAt == f.createdAt.value)
  {
    var failed := FailedPaths(f);
    if failed != {} then
      Err(ValidationError(failed))
    else
      var purpose := if f.purpose.Some? then ParsePurpose(f.purpose.value).value else ForgotPassword;
      var verified := if f.isVerified.Some? then f.isVerified.value else false;
      var created := if f.createdAt.Some? then f.createdAt.value else now;
      Ok(OtpRecord(f.phoneNumber.value, f.otp.value, purpose, verified, f.expiresAt.value, created))
  }

  // ---------------------------------------------------------------------------
  // Queries

  /** A `findOne` filter: phone number, purpose and, optionally, the verified flag. */
  datatype Query = Query(phoneNumber: string, purpose: Purpose, isVerified: Option<bool>)

  predicate Matches(r: OtpRecord, q: Query) {
    r.phoneNumber == q.phoneNumber && r.purpose == q.purpose
    && (q.isVerified.Some? ==> r.isVerified == q.isVerified.value)
  }

  /** `findOne`: the position of the first record, in insertion order, that matches. */
  function FindOne(rs: seq<OtpRecord>, q: Query): (i: Option<nat>)
    ensures i.Some? ==> i.value < |rs| && Matches(rs[i.value], q)
    ensures i.Some? ==> forall j :: 0 <= j < i.value ==> !Matches(rs[j], q)
    ensures i.None? ==> forall j :: 0 <= j < |rs| ==> !Matches(rs[j], q)
    decreases |rs|
  {
    if rs == [] then None
    else if Matches(rs[0], q) then Some(0)
    else match FindOne(rs[1..], q)
      case None => None
      case Some(k) => Some(k + 1)
  }

  predicate HasKey(r: OtpRecord, phone: string, purpose: Purpose) {
    r.phoneNumber == phone && r.purpose == purpose
  }

  /** The records of one key, in store order. */
  function OfKey(rs: seq<OtpRecord>, phone: string, purpose: Purpose): (ks: seq<OtpRecord>)
    ensures forall r :: r in ks <==> r in rs && HasKey(r, phone, purpose)
    ensures |ks| <= |rs|
    decreases |rs|
  {
    if rs == [] then []
    else (if HasKey(rs[0], phone, purpose) then [rs[0]] else []) + OfKey(rs[1..], phone, purpose)
  }

  /** `deleteMany({phoneNumber, purpose})`: every record of the key goes, the rest keep their order. */
  function RemoveKey(rs: seq<OtpRecord>, phone: string, purpose: Purpose): (rest: seq<OtpRecord>)
    ensures forall r :: r in rest <==> r in rs && !HasKey(r, phone, purpose)
    ensures |rest| <= |rs|
    decreases |rs|
  {
    if rs == [] then []
    else (if HasKey(rs[0], phone, purpose) then [] else [rs[0]]) + RemoveKey(rs[1..], phone, purpose)
  }

  /** `deleteOne({_id})` of the record at position i: the others keep their order. */
  function RemoveAt(rs: seq<OtpRecord>, i: nat): (rest: seq<OtpRecord>)
    requires i < |rs|
    ensures |rest| == |rs| - 1
    ensures forall j :: 0 <= j < |rest| ==> rest[j] == if j < i then rs[j] else rs[j + 1]
  {
    rs[..i] + rs[i + 1..]
  }

  /** What the TTL index leaves after a sweep that ran at time `cutoff`. */
  function Unexpired(rs: seq<OtpRecord>, cutoff: int): (kept: seq<OtpRecord>)
    ensures forall r :: r in kept <==> r in rs && !(cutoff > r.expiresAt)
    ensures |kept| <= |rs|
    decreases |rs|
  {
    if rs == [] then []
    else (if cutoff > rs[0].expiresAt then [] else [rs[0]]) + Unexpired(rs[1..], cutoff)
  }

  /** At most one record per (phoneNumber, purpose): the invariant the controllers maintain. */
  ghost predicate KeysUnique(rs: seq<OtpRecord>) {
    forall p, u :: |OfKey(rs, p, u)| <= 1
  }

  /** Records of every key other than (phone, purpose) are the same in both stores. */
  ghost predicate OtherKeysUnchanged(before: seq<OtpRecord>, after: seq<OtpRecord>, phone: string, purpose: Purpose) {
    forall p, u :: (p != phone || u != purpose) ==> OfKey(after, p, u) == OfKey(before, p, u)
  }

  /** The lifecycle state of a key. */
  datatype Phase = Absent | Pending | Verified

  function PhaseOf(rs: seq<OtpRecord>, phone: string, purpose: Purpose): Phase {
    var ks := OfKey(rs, phone, purpose);
    if ks == [] then Absent else if ks[0].isVerified then Verified else Pending
  }

  // ---------------------------------------------------------------------------
  // Lemmas about the queries

  lemma {:induction false} OfKeyAppend(a: seq<OtpRecord>, b: seq<OtpRecord>, p: string, u: Purpose)
    ensures OfKey(a + b, p, u) == OfKey(a, p, u) + OfKey(b, p, u)
    decreases |a|
  {
    if a == [] {
      assert a + b == b;
    } else {
      assert (a + b)[1..] == a[1..] + b;
      OfKeyAppend(a[1..], b, p, u);
    }
  }

  /** A key no record has holds nothing. */
  lemma {:induction false} OfKeyEmpty(rs: seq<OtpRecord>, p: string, u: Purpose)
    requires forall j :: 0 <= j < |rs| ==> !HasKey(rs[j], p, u)
    ensures OfKey(rs, p, u) == []
    decreases |rs|
  {
    if rs != [] {
      OfKeyEmpty(rs[1..], p, u);
    }
  }

  lemma OfKeySingleton(x: OtpRecord, p: string, u: Purpose)
    ensures OfKey([x], p, u) == if HasKey(x, p, u) then [x] else []
  {
    assert [x][1..] == [];
  }

  /** Splitting a store around position i splits each key's records the same way. */
  lemma OfKeyAround(rs: seq<OtpRecord>, i: nat, x: OtpRecord, p: string, u: Purpose)
    requires i < |rs|
    ensures OfKey(rs, p, u) == OfKey(rs[..i], p, u) + OfKey([rs[i]], p, u) + OfKey(rs[i + 1..], p, u)
    ensures OfKey(rs[..i] + [x] + rs[i + 1..], p, u) == OfKey(rs[..i], p, u) + OfKey([x], p, u) + OfKey(rs[i + 1..], p, u)
    ensures OfKey(RemoveAt(rs, i), p, u) == OfKey(rs[..i], p, u) + OfKey(rs[i + 1..], p, u)
  {
    assert rs == rs[..i] + [rs[i]] + rs[i + 1..];
    OfKeyAppend(rs[..i] + [rs[i]], rs[i + 1..], p, u);
    OfKeyAppend(rs[..i], [rs[i]], p, u);
    OfKeyAppend(rs[..i] + [x], rs[i + 1..], p, u);
    OfKeyAppend(rs[..i], [x], p, u);
    OfKeyAppend(rs[..i], rs[i + 1..], p, u);
  }

  /** Deleting a key empties that key and leaves every other key's records as they were. */
  lemma {:induction false} OfKeyRemoveKey(rs: seq<OtpRecord>, phone: string, purpose: Purpose, p: string, u: Purpose)
    ensures OfKey(RemoveKey(rs, phone, purpose), p, u)
            == if p == phone && u == purpose then [] else OfKey(rs, p, u)
    decreases |rs|
  {
    if rs != [] {
      var head := if HasKey(rs[0], phone, purpose) then [] else [rs[0]];
      OfKeyAppend(head, RemoveKey(rs[1..], phone, purpose), p, u);
      OfKeyRemoveKey(rs[1..], phone, purpose, p, u);
      if head != [] {
        OfKeySingleton(rs[0], p, u);
      }
    }
  }

  /** The sweep acts on each key separately. */
  lemma {:induction false} OfKeyUnexpired(rs: seq<OtpRecord>, cutoff: int, p: string, u: Purpose)
    ensures OfKey(Unexpired(rs, cutoff), p, u) == Unexpired(OfKey(rs, p, u), cutoff)
    decreases |rs|
  {
    if rs != [] {
      var head := if cutoff > rs[0].expiresAt then [] else [rs[0]];
      OfKeyAppend(head, Unexpired(rs[1..], cutoff), p, u);
      OfKeyUnexpired(rs[1..], cutoff, p, u);
      if head != [] {
        OfKeySingleton(rs[0], p, u);
      }
      var hk := if HasKey(rs[0], p, u) then [rs[0]] else [];
      var tail := OfKey(rs[1..], p, u);
      assert OfKey(rs, p, u) == hk + tail;
      if hk == [] {
        assert hk + tail == tail;
      } else {
        assert (hk + tail)[1..] == tail;
      }
    }
  }

  /**
   * Delete-then-insert: after removing a key and appending a new record of that key,
   * the key holds exactly that record, every other key is untouched, and uniqueness is kept.
   */
  lemma IssueEffect(rs: seq<OtpRecord>, rec: OtpRecord)
    ensures OfKey(RemoveKey(rs, rec.phoneNumber, rec.purpose) + [rec], rec.phoneNumber, rec.purpose) == [rec]
    ensures OtherKeysUnchanged(rs, RemoveKey(rs, rec.phoneNumber, rec.purpose) + [rec], rec.phoneNumber, rec.purpose)
    ensures KeysUnique(rs) ==> KeysUnique(RemoveKey(rs, rec.phoneNumber, rec.purpose) + [rec])
  {
    var after := RemoveKey(rs, rec.phoneNumber, rec.purpose) + [rec];
    forall p, u
      ensures OfKey(after, p, u)
              == if p == rec.phoneNumber && u == rec.purpose then [rec] else OfKey(rs, p, u)
    {
      OfKeyAppend(RemoveKey(rs, rec.phoneNumber, rec.purpose), [rec], p, u);
      OfKeyRemoveKey(rs, rec.phoneNumber, rec.purpose, p, u);
      OfKeySingleton(rec, p, u);
    }
  }

  /** Consuming a key (deleteMany) empties it and touches nothing else. */
  lemma ConsumeEffect(rs: seq<OtpRecord>, phone: string, purpose: Purpose)
    ensures OfKey(RemoveKey(rs, phone, purpose), phone, purpose) == []
    ensures OtherKeysUnchanged(rs, RemoveKey(rs, phone, purpose), phone, purpose)
    ensures KeysUnique(rs) ==> KeysUnique(RemoveKey(rs, phone, purpose))
  {
    forall p, u
      ensures OfKey(RemoveKey(rs, phone, purpose), p, u)
              == if p == phone && u == purpose then [] else OfKey(rs, p, u)
    {
      OfKeyRemoveKey(rs, phone, purpose, p, u);
    }
  }

  /** In a store with unique keys, a record is the only one of its key. */
  lemma OnlyRecordOfKey(rs: seq<OtpRecord>, i: nat)
    requires KeysUnique(rs) && i < |rs|
    ensures OfKey(rs, rs[i].phoneNumber, rs[i].purpose) == [rs[i]]
  {
    var p, u := rs[i].phoneNumber, rs[i].purpose;
    var before, after := OfKey(rs[..i], p, u), OfKey(rs[i + 1..], p, u);
    assert OfKey(rs, p, u) == before + [rs[i]] + after by {
      OfKeyAround(rs, i, rs[i], p, u);
      OfKeySingleton(rs[i], p, u);
    }
    assert |before + [rs[i]] + after| <= 1;
  }

  /** Deleting the record at position i, seen from one key. */
  lemma RemoveAtKey(rs: seq<OtpRecord>, i: nat, p: string, u: Purpose)
    requires i < |rs|
    ensures !HasKey(rs[i], p, u) ==> OfKey(RemoveAt(rs, i), p, u) == OfKey(rs, p, u)
    ensures OfKey(rs, p, u) == [rs[i]] ==> OfKey(RemoveAt(rs, i), p, u) == []
    ensures |OfKey(RemoveAt(rs, i), p, u)| <= |OfKey(rs, p, u)|
  {
    var before, mid, after := OfKey(rs[..i], p, u), OfKey([rs[i]], p, u), OfKey(rs[i + 1..], p, u);
    assert OfKey(rs, p, u) == before + mid + after && OfKey(RemoveAt(rs, i), p, u) == before + after by {
      OfKeyAround(rs, i, rs[i], p, u);
    }
    assert mid == if HasKey(rs[i], p, u) then [rs[i]] else [] by {
      OfKeySingleton(rs[i], p, u);
    }
    if !HasKey(rs[i], p, u) {
      assert before + mid + after == before + after;
    }
    if OfKey(rs, p, u) == [rs[i]] {
      assert |before + mid + after| == 1;
    }
  }

  /** Deleting one record (deleteOne) touches no other key; with unique keys its own key becomes empty. */
  lemma RemoveAtEffect(rs: seq<OtpRecord>, i: nat)
    requires i < |rs|
    ensures OtherKeysUnchanged(rs, RemoveAt(rs, i), rs[i].phoneNumber, rs[i].purpose)
    ensures KeysUnique(rs) ==> OfKey(RemoveAt(rs, i), rs[i].phoneNumber, rs[i].purpose) == []
    ensures KeysUnique(rs) ==> KeysUnique(RemoveAt(rs, i))
  {
    forall p, u ensures !HasKey(rs[i], p, u) ==> OfKey(RemoveAt(rs, i), p, u) == OfKey(rs, p, u)
      ensures |OfKey(RemoveAt(rs, i), p, u)| <= |OfKey(rs, p, u)|
    {
      RemoveAtKey(rs, i, p, u);
    }
    if KeysUnique(rs) {
      OnlyRecordOfKey(rs, i);
      RemoveAtKey(rs, i, rs[i].phoneNumber, rs[i].purpose);
    }
  }

  /** Replacing the record at position i by one of the same key, seen from one key. */
  lemma ReplaceAtKey(rs: seq<OtpRecord>, i: nat, x: OtpRecord, p: string, u: Purpose)
    requires i < |rs| && HasKey(x, rs[i].phoneNumber, rs[i].purpose)
    ensures !HasKey(x, p, u) ==> OfKey(rs[i := x], p, u) == OfKey(rs, p, u)
    ensures OfKey(rs, p, u) == [rs[i]] ==> OfKey(rs[i := x], p, u) == [x]
    ensures |OfKey(rs[i := x], p, u)| == |OfKey(rs, p, u)|
  {
    var before, mid, after := OfKey(rs[..i], p, u), OfKey([rs[i]], p, u), OfKey(rs[i + 1..], p, u);
    var mid' := OfKey([x], p, u);
    assert OfKey(rs, p, u) == before + mid + after && OfKey(rs[i := x], p, u) == before + mid' + after by {
      assert rs[i := x] == rs[..i] + [x] + rs[i + 1..];
      OfKeyAround(rs, i, x, p, u);
    }
    assert mid == (if HasKey(rs[i], p, u) then [rs[i]] else []) && mid' == (if HasKey(x, p, u) then [x] else []) by {
      OfKeySingleton(rs[i], p, u);
      OfKeySingleton(x, p, u);
    }
    if OfKey(rs, p, u) == [rs[i]] {
      assert |before + mid + after| == 1;
    }
  }

  /** Replacing a record by one of the same key touches no other key; with unique keys that key holds the new record. */
  lemma ReplaceEffect(rs: seq<OtpRecord>, i: nat, x: OtpRecord)
    requires i < |rs| && HasKey(x, rs[i].phoneNumber, rs[i].purpose)
    ensures OtherKeysUnchanged(rs, rs[i := x], x.phoneNumber, x.purpose)
    ensures KeysUnique(rs) ==> OfKey(rs[i := x], x.phoneNumber, x.purpose) == [x]
    ensures KeysUnique(rs) ==> KeysUnique(rs[i := x])
  {
    forall p, u ensures !HasKey(x, p, u) ==> OfKey(rs[i := x], p, u) == OfKey(rs, p, u)
      ensures |OfKey(rs[i := x], p, u)| == |OfKey(rs, p, u)|
    {
      ReplaceAtKey(rs, i, x, p, u);
    }
    if KeysUnique(rs) {
      OnlyRecordOfKey(rs, i);
      ReplaceAtKey(rs, i, x, x.phoneNumber, x.purpose);
    }
  }

  /** A sweep keeps uniqueness, and never removes a record still valid at time `now` when it ran no later than `now`. */
  lemma SweepEffect(rs: seq<OtpRecord>, cutoff: int, now: int)
    requires cutoff <= now
    ensures KeysUnique(rs) ==> KeysUnique(Unexpired(rs, cutoff))
    ensures forall r :: r in rs && now <= r.expiresAt ==> r in Unexpired(rs, cutoff)
  {
    forall p, u ensures |OfKey(Unexpired(rs, cutoff), p, u)| <= |OfKey(rs, p, u)| {
      OfKeyUnexpired(rs, cutoff, p, u);
    }
  }

  /**
   * With unique keys, the three lookups the controllers make agree with the key's phase:
   * an unverified record exists exactly when the key is Pending, a verified one exactly
   * when it is Verified, and any record exactly when it is not Absent.
   */
  lemma PhaseByQuery(rs: seq<OtpRecord>, phone: string, purpose: Purpose)
    requires KeysUnique(rs)
    ensures FindOne(rs, Query(phone, purpose, Some(false))).Some? <==> PhaseOf(rs, phone, purpose) == Pending
    ensures FindOne(rs, Query(phone, purpose, Some(true))).Some? <==> PhaseOf(rs, phone, purpose) == Verified
    ensures FindOne(rs, Query(phone, purpose, None)).Some? <==> PhaseOf(rs, phone, purpose) != Absent
  {
    var any := FindOne(rs, Query(phone, purpose, None));
    if any.Some? {
      OnlyRecordOfKey(rs, any.value);
      var only := rs[any.value];
      forall b: bool, j: nat | j < |rs| && Matches(rs[j], Query(phone, purpose, Some(b)))
        ensures rs[j] == only
      {
        assert rs[j] in OfKey(rs, phone, purpose);
      }
    } else {
      OfKeyEmpty(rs, phone, purpose);
    }
  }

  /** When a key holds exactly one record, a lookup on that key finds it exactly when it matches. */
  lemma FindSole(rs: seq<OtpRecord>, q: Query, rec: OtpRecord)
    requires OfKey(rs, q.phoneNumber, q.purpose) == [rec]
    ensures Matches(rec, q) ==> FindOne(rs, q).Some? && rs[FindOne(rs, q).value] == rec
    ensures !Matches(rec, q) ==> FindOne(rs, q).None?
  {
    var i := FindOne(rs, q);
    assert rec in OfKey(rs, q.phoneNumber, q.purpose);
    var j :| 0 <= j < |rs| && rs[j] == rec;
    if i.Some? {
      assert rs[i.value] in OfKey(rs, q.phoneNumber, q.purpose);
    }
  }

  // ---------------------------------------------------------------------------
  // The store

  /** The OTP collection, in insertion order. */
  class OtpStore {
    var records: seq<OtpRecord>

    /** Every stored record passed validation. */
    ghost predicate Valid()
      reads this
    {
      forall r :: r in records ==> WellFormed(r)
    }

    constructor ()
      ensures Valid() && records == []
    {
      records := [];
    }

    /** `new otpModel(fields).save()`: validate, apply the defaults, append. */
    method Save(fields: OtpFields, now: int) returns (r: Result<OtpRecord, SchemaError>)
      requires Valid()
      modifies this
      ensures Valid()
      ensures r == Instantiate(fields, now)
      ensures records == if r.Ok? then old(records) + [r.value] else old(records)
    {
      r := Instantiate(fields, now);
      if r.Ok? {
        records := records + [r.value];
      }
    }

    /** `deleteMany({phoneNumber, purpose})`. */
    method DeleteMany(phone: string, purpose: Purpose)
      requires Valid()
      modifies this
      ensures Valid()
      ensures records == RemoveKey(old(records), phone, purpose)
    {
      records := RemoveKey(records, phone, purpose);
    }

    /** `deleteOne({_id})` of the record found at position i. */
    method DeleteOne(i: nat)
      requires Valid() && i < |records|
      modifies this
      ensures Valid()
      ensures records == RemoveAt(old(records), i)
    {
      records := RemoveAt(records, i);
    }

    /** `record.isVerified = true; record.save()` for the record at position i. */
    method MarkVerified(i: nat)
      requires Valid() && i < |records|
      modifies this
      ensures Valid()
      ensures records == old(records)[i := old(records)[i].(isVerified := true)]
    {
      assert records[i] in records;
      var verified := records[i].(isVerified := true);
      assert records[i := verified] == records[..i] + [verified] + records[i + 1..];
      records := records[i := verified];
    }

    /**
     * One pass of the TTL monitor, which may run at any time: it removes the records
     * already expired at the moment `cutoff` it ran.
     */
    method TtlSweep(cutoff: int)
      requires Valid()
      modifies this
      ensures Valid()
      ensures records == Unexpired(old(records), cutoff)
      ensures KeysUnique(old(records)) ==> KeysUnique(records)
    {
      SweepEffect(records, cutoff, cutoff);
      records := Unexpired(records, cutoff);
    }
  }
}
