/** `registerUser`: validate the fields, refuse a phone number already in use, store the hashed password. */
module Register {
  import opened Basics
  import opened Users

  datatype Outcome = FieldsRequired | PhoneInUse | Registered
  {
    function Status(): int {
      match this
      case FieldsRequired => 400
      case PhoneInUse => 409
      case Registered => 201
    }

    function Message(): string {
      match this
      case FieldsRequired => "Username, password, and phone number are required"
      case PhoneInUse => "Phone number already in use"
      case Registered => "User registered successfully"
    }
  }

  /**
   * Register a user. `hash` stands for bcrypt's salted hash; `email` is optional and
   * stored as given. Only the phone number is checked for duplicates.
   */
  method RegisterUser(table: UserTable, username: string, email: string, password: string, phone: string,
                      hash: string -> string)
    returns (o: Outcome)
    requires table.Valid()
    modifies table
    ensures table.Valid()
    ensures var us := old(table.users);
            var filled := username != "" && password != "" && phone != "";
            && (o == FieldsRequired <==> !filled)
            && (o == PhoneInUse <==> filled && FindByPhone(us, phone).Some?)
            && (o == Registered <==> filled && FindByPhone(us, phone).None?)
            && (o != Registered ==> table.users == us)
            && (o == Registered ==> table.users == us + [User(|us|, username, email, hash(password), phone)])
    ensures o == Registered ==> FindByPhone(table.users, phone) == Some(|old(table.users)|)
    ensures PhonesUnique(old(table.users)) ==> PhonesUnique(table.users)
  {
    if username == "" || password == "" || phone == "" {
      return FieldsRequired;
    }
    var existing := FindByPhone(table.users, phone);
    if existing.Some? {
      return PhoneInUse;
    }
    var hashed := hash(password);
    var u := table.Save(username, email, hashed, phone);
    assert table.users[|table.users| - 1] == u;
    o := Registered;
  }

  /** Two accounts may share a username as long as their phone numbers differ. */
  method SameUsernameTwice(table: UserTable, username: string, password: string, phone1: string, phone2: string,
                           hash: string -> string)
    returns (first: Outcome, second: Outcome)
    requires table.Valid() && PhonesUnique(table.users)
    requires username != "" && password != "" && phone1 != "" && phone2 != "" && phone1 != phone2
    requires FindByPhone(table.users, phone1).None? && FindByPhone(table.users, phone2).None?
    modifies table
    ensures first == Registered && second == Registered
    ensures PhonesUnique(table.users)
    ensures |table.users| == |old(table.users)| + 2
    ensures table.users[|table.users| - 2].username == table.users[|table.users| - 1].username == username
  {
    first := RegisterUser(table, username, "", password, phone1, hash);
    second := RegisterUser(table, username, "", password, phone2, hash);
  }
}
