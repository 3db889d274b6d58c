/**
 * The forgot-password OTP lifecycle: request, verify, reset and resend, as handlers
 * over the OTP store and the user table. Each handler receives the request's fields
 * (the empty string standing for a missing one), the current time `now` in
 * milliseconds and, where a code is generated, the random draw behind it.
 */
module ForgotPassword {
  import opened Basics
  import opened Decimal
  import opened OtpModel
  import opened Users

  /** Codes are `100000 + floor(random * 900000)`. */
  const OtpLowest: nat := 100000
  const OtpRange: nat := 900000
  /** A code is valid for ten minutes. */
  const OtpValidityMs: int := 10 * 60 * 1000
  /** A resend is refused within one minute of the current code's creation. */
  const ResendCooldownMs: int := 60 * 1000
  const MinPasswordLength: nat := 6

  /** The response of a handler: its HTTP status and message. */
  datatype Outcome =
    | PhoneRequired | NoSuchAccount | OtpSent
    | PhoneAndOtpRequired | OtpNotFound | OtpExpired | InvalidOtp | OtpVerified
    | ResetFieldsRequired | PasswordsDoNotMatch | PasswordTooShort | VerifyOtpFirst | UserNotFound | PasswordReset
    | TooManyRequests(waitSeconds: nat) | OtpResent
  {
    /** The HTTP status; the body's `success` field is true exactly when it is 200. */
    function Status(): int {
      match this
      case OtpSent | OtpVerified | PasswordReset | OtpResent => 200
      case NoSuchAccount | UserNotFound => 404
      case TooManyRequests(_) => 429
      case _ => 400
    }

    function Message(): string {
      match this
      case PhoneRequired => "Phone number is required"
      case NoSuchAccount => "User with this phone number does not exist"
      case OtpSent => "OTP sent successfully to your phone number"
      case PhoneAndOtpRequired => "Phone number and OTP are required"
      case OtpNotFound => "OTP not found or already used. Please request a new OTP"
      case OtpExpired => "OTP has expired. Please request a new OTP"
      case InvalidOtp => "Invalid OTP"
      case OtpVerified => "OTP verified successfully. You can now reset your password"
      case ResetFieldsRequired => "Phone number, new password, and confirm password are required"
      case PasswordsDoNotMatch => "Passwords do not match"
      case PasswordTooShort => "Password must be at least 6 characters long"
      case VerifyOtpFirst => "Please verify OTP first before resetting password"
      case UserNotFound => "User not found"
      case PasswordReset => "Password reset successfully. You can now login with your new password"
      case TooManyRequests(w) => "Please wait " + FromNat(w) + " seconds before requesting a new OTP"
      case OtpResent => "OTP resent successfully"
    }
  }

  /**
   * `generateOTP`, with `floor(Math.random() * 900000)` given as `draw`: the decimal
   * string of a number in [100000, 999999], hence exactly six digits without a leading zero.
   */
  function GenerateOtp(draw: nat): (code: string)
    requires draw < OtpRange
    ensures |code| == 6 && Canonical(code) && code[0] != '0'
    ensures ToNat(code) == OtpLowest + draw && OtpLowest <= ToNat(code) <= 999999
  {
    LengthOfFromNat(OtpLowest + draw, 6);
    ToNatFromNat(OtpLowest + draw);
    FromNat(OtpLowest + draw)
  }

  /** Distinct draws give distinct codes. */
  lemma GenerateOtpInjective(d1: nat, d2: nat)
    requires d1 < OtpRange && d2 < OtpRange
    ensures GenerateOtp(d1) == GenerateOtp(d2) <==> d1 == d2
  {
  }

  /**
   * The wait the resend handler reports, `Math.ceil((60000 - elapsed) / 1000)` seconds:
   * the least whole number of seconds covering the rest of the cooldown.
   */
  function WaitSeconds(elapsed: int): (w: nat)
    requires elapsed < ResendCooldownMs
    ensures 1000 * (w - 1) < ResendCooldownMs - elapsed <= 1000 * w
    ensures 1 <= w
    ensures 0 <= elapsed ==> w <= 60
  {
    (ResendCooldownMs - elapsed + 999) / 1000
  }

  /** The record a request or resend at time `now` stores. */
  function FreshOtp(phone: string, draw: nat, now: int): OtpRecord
    requires draw < OtpRange
  {
    OtpRecord(phone, GenerateOtp(draw), ForgotPassword, false, now + OtpValidityMs, now)
  }

  /**
   * The effect of issuing a code: the key's earlier records are gone, the key holds
   * exactly the fresh pending record, and no other key is touched.
   */
  ghost predicate Issued(before: seq<OtpRecord>, after: seq<OtpRecord>, phone: string, draw: nat, now: int)
    requires draw < OtpRange
  {
    && after == RemoveKey(before, phone, ForgotPassword) + [FreshOtp(phone, draw, now)]
    && OfKey(after, phone, ForgotPassword) == [FreshOtp(phone, draw, now)]
    && PhaseOf(after, phone, ForgotPassword) == Pending
    && OtherKeysUnchanged(before, after, phone, ForgotPassword)
    && (KeysUnique(before) ==> KeysUnique(after))
  }

  /** Delete every forgot-password record of the phone, then save a fresh one. */
  method IssueOtp(otps: OtpStore, phone: string, now: int, draw: nat)
    requires otps.Valid() && phone != "" && draw < OtpRange
    modifies otps
    ensures otps.Valid()
    ensures Issued(old(otps.records), otps.records, phone, draw, now)
  {
    ghost var before := otps.records;
    otps.DeleteMany(phone, ForgotPassword);
    var code := GenerateOtp(draw);
    var expiresAt := now + OtpValidityMs;
    var saved := otps.Save(OtpFields(Some(phone), Some(code), Some("forgot_password"), None, Some(expiresAt), None), now);
    assert saved == Ok(FreshOtp(phone, draw, now));
    IssueEffect(before, FreshOtp(phone, draw, now));
  }

  /** `requestOTP`. */
  method RequestOtp(otps: OtpStore, users: UserTable, phone: string, now: int, draw: nat) returns (o: Outcome)
    requires otps.Valid() && draw < OtpRange
    modifies otps
    ensures otps.Valid()
    ensures phone == "" ==> o == PhoneRequired
    ensures phone != "" && FindByPhone(users.users, phone).None? ==> o == NoSuchAccount
    ensures phone != "" && FindByPhone(users.users, phone).Some? ==> o == OtpSent
    ensures o != OtpSent ==> otps.records == old(otps.records)
    ensures o == OtpSent ==> Issued(old(otps.records), otps.records, phone, draw, now)
  {
    if phone == "" {
      return PhoneRequired;
    }
    var account := FindByPhone(users.users, phone);
    if account.None? {
      return NoSuchAccount;
    }
    IssueOtp(otps, phone, now, draw);
    o := OtpSent;
  }

  /** `verifyOTP`. */
  method VerifyOtp(otps: OtpStore, phone: string, code: string, now: int) returns (o: Outcome)
    requires otps.Valid()
    modifies otps
    ensures otps.Valid()
    ensures var rs := old(otps.records);
            var hit := FindOne(rs, Query(phone, ForgotPassword, Some(false)));
            var given := phone != "" && code != "";
            && (!given ==> o == PhoneAndOtpRequired && otps.records == rs)
            && (given && hit.None? ==> o == OtpNotFound && otps.records == rs)
            && (given && hit.Some? && now > rs[hit.value].expiresAt ==>
                  o == OtpExpired && otps.records == RemoveAt(rs, hit.value))
            && (given && hit.Some? && now <= rs[hit.value].expiresAt && rs[hit.value].otp != code ==>
                  o == InvalidOtp && otps.records == rs)
            && (given && hit.Some? && now <= rs[hit.value].expiresAt && rs[hit.value].otp == code ==>
                  o == OtpVerified && otps.records == rs[hit.value := rs[hit.value].(isVerified := true)])
    ensures OtherKeysUnchanged(old(otps.records), otps.records, phone, ForgotPassword)
    ensures KeysUnique(old(otps.records)) ==> KeysUnique(otps.records)
    ensures KeysUnique(old(otps.records)) ==>
              (o == OtpVerified <==>
                 exists r :: r in OfKey(old(otps.records), phone, ForgotPassword)
                             && !r.isVerified && r.otp == code && now <= r.expiresAt)
    ensures KeysUnique(old(otps.records)) && o == OtpVerified ==> PhaseOf(otps.records, phone, ForgotPassword) == Verified
    ensures KeysUnique(old(otps.records)) && o == OtpExpired ==> PhaseOf(otps.records, phone, ForgotPassword) == Absent
  {
    if phone == "" || code == "" {
      return PhoneAndOtpRequired;
    }
    ghost var rs := otps.records;
    var hit := FindOne(otps.records, Query(phone, ForgotPassword, Some(false)));
    if hit.None? {
      return OtpNotFound;
    }
    var i := hit.value;
    var rec := otps.records[i];
    if KeysUnique(rs) {
      OnlyRecordOfKey(rs, i);
    }
    if now > rec.expiresAt {
      otps.DeleteOne(i);
      RemoveAtEffect(rs, i);
      return OtpExpired;
    }
    if rec.otp != code {
      return InvalidOtp;
    }
    otps.MarkVerified(i);
    ReplaceEffect(rs, i, rec.(isVerified := true));
    o := OtpVerified;
  }

  /** `resetPassword`; `hash` stands for bcrypt's salted hash. The code's expiry is not re-checked. */
  method ResetPassword(otps: OtpStore, users: UserTable, phone: string, newPassword: string, confirmPassword: string,
                       hash: string -> string)
    returns (o: Outcome)
    requires otps.Valid() && users.Valid()
    modifies otps, users
    ensures otps.Valid() && users.Valid()
    ensures var rs, us := old(otps.records), old(users.users);
            var filled := phone != "" && newPassword != "" && confirmPassword != "";
            var acceptable := filled && newPassword == confirmPassword && |newPassword| >= MinPasswordLength;
            var verified := FindOne(rs, Query(phone, ForgotPassword, Some(true)));
            var account := FindByPhone(us, phone);
            && (o == ResetFieldsRequired <==> !filled)
            && (o == PasswordsDoNotMatch <==> filled && newPassword != confirmPassword)
            && (o == PasswordTooShort <==> filled && newPassword == confirmPassword && |newPassword| < MinPasswordLength)
            && (o == VerifyOtpFirst <==> acceptable && verified.None?)
            && (o == UserNotFound <==> acceptable && verified.Some? && account.None?)
            && (o == PasswordReset <==> acceptable && verified.Some? && account.Some?)
            && (o != PasswordReset ==> otps.records == rs && users.users == us)
            && (o == PasswordReset ==>
                  users.users == us[account.value := us[account.value].(password := hash(newPassword))]
                  && otps.records == RemoveKey(rs, phone, ForgotPassword))
    ensures o == PasswordReset ==> PhaseOf(otps.records, phone, ForgotPassword) == Absent
    ensures OtherKeysUnchanged(old(otps.records), otps.records, phone, ForgotPassword)
    ensures KeysUnique(old(otps.records)) ==> KeysUnique(otps.records)
    ensures PhonesUnique(old(users.users)) ==> PhonesUnique(users.users)
  {
    if phone == "" || newPassword == "" || confirmPassword == "" {
      return ResetFieldsRequired;
    }
    if newPassword != confirmPassword {
      return PasswordsDoNotMatch;
    }
    if |newPassword| < MinPasswordLength {
      return PasswordTooShort;
    }
    var verified := FindOne(otps.records, Query(phone, ForgotPassword, Some(true)));
    if verified.None? {
      return VerifyOtpFirst;
    }
    var account := FindByPhone(users.users, phone);
    if account.None? {
      return UserNotFound;
    }
    var hashed := hash(newPassword);
    users.SetPassword(account.value, hashed);
    ghost var rs := otps.records;
    otps.DeleteMany(phone, ForgotPassword);
    ConsumeEffect(rs, phone, ForgotPassword);
    o := PasswordReset;
  }

  /** `resendOTP`: refused within the cooldown of the current record, verified or not; otherwise a fresh request. */
  method ResendOtp(otps: OtpStore, users: UserTable, phone: string, now: int, draw: nat) returns (o: Outcome)
    requires otps.Valid() && draw < OtpRange
    modifies otps
    ensures otps.Valid()
    ensures var rs := old(otps.records);
            var account := FindByPhone(users.users, phone);
            var existing := FindOne(rs, Query(phone, ForgotPassword, None));
            var cooling := existing.Some? && now - rs[existing.value].createdAt < ResendCooldownMs;
            && (phone == "" ==> o == PhoneRequired)
            && (phone != "" && account.None? ==> o == NoSuchAccount)
            && (phone != "" && account.Some? && cooling ==>
                  o == TooManyRequests(WaitSeconds(now - rs[existing.value].createdAt)))
            && (phone != "" && account.Some? && !cooling ==> o == OtpResent)
            && (o != OtpResent ==> otps.records == rs)
            && (o == OtpResent ==> Issued(rs, otps.records, phone, draw, now))
  {
    if phone == "" {
      return PhoneRequired;
    }
    var account := FindByPhone(users.users, phone);
    if account.None? {
      return NoSuchAccount;
    }
    var existing := FindOne(otps.records, Query(phone, ForgotPassword, None));
    if existing.Some? {
      var elapsed := now - otps.records[existing.value].createdAt;
      if elapsed < ResendCooldownMs {
        return TooManyRequests(WaitSeconds(elapsed));
      }
    }
    IssueOtp(otps, phone, now, draw);
    o := OtpResent;
  }

  // ---------------------------------------------------------------------------
  // Sequences of requests, proved from the handlers' contracts alone

  /** A second request supersedes the first: only the newer code is stored and the older one is refused. */
  method SupersededCodeRejected(otps: OtpStore, users: UserTable, phone: string, t1: int, t2: int, d1: nat, d2: nat)
    returns (first: Outcome, second: Outcome, stale: Outcome)
    requires otps.Valid() && KeysUnique(otps.records)
    requires phone != "" && FindByPhone(users.users, phone).Some?
    requires d1 < OtpRange && d2 < OtpRange && d1 != d2
    modifies otps
    ensures first == OtpSent && second == OtpSent && stale == InvalidOtp
    ensures OfKey(otps.records, phone, ForgotPassword) == [FreshOtp(phone, d2, t2)]
  {
    first := RequestOtp(otps, users, phone, t1, d1);
    second := RequestOtp(otps, users, phone, t2, d2);
    GenerateOtpInjective(d1, d2);
    FindSole(otps.records, Query(phone, ForgotPassword, Some(false)), FreshOtp(phone, d2, t2));
    stale := VerifyOtp(otps, phone, GenerateOtp(d1), t2);
  }

  /**
   * Request, verify within the validity window, reset: the password changes, the key
   * becomes Absent, and the same code is then "not found or already used".
   */
  method ResetAfterVerification(otps: OtpStore, users: UserTable, phone: string, t: int, tv: int, d: nat,
                                password: string, hash: string -> string)
    returns (sent: Outcome, verified: Outcome, reset: Outcome, again: Outcome)
    requires otps.Valid() && users.Valid() && KeysUnique(otps.records)
    requires phone != "" && FindByPhone(users.users, phone).Some?
    requires d < OtpRange && tv <= t + OtpValidityMs && |password| >= MinPasswordLength
    modifies otps, users
    ensures sent == OtpSent && verified == OtpVerified && reset == PasswordReset && again == OtpNotFound
    ensures PhaseOf(otps.records, phone, ForgotPassword) == Absent
  {
    sent := RequestOtp(otps, users, phone, t, d);
    FindSole(otps.records, Query(phone, ForgotPassword, Some(false)), FreshOtp(phone, d, t));
    verified := VerifyOtp(otps, phone, GenerateOtp(d), tv);
    PhaseByQuery(otps.records, phone, ForgotPassword);
    reset := ResetPassword(otps, users, phone, password, password, hash);
    PhaseByQuery(otps.records, phone, ForgotPassword);
    again := VerifyOtp(otps, phone, GenerateOtp(d), tv);
  }

  /**
   * A code used after its expiry is refused, whether or not a TTL sweep ran in between
   * (`sweep` is the time it ran, if it did): a sweep that came after the expiry has already
   * removed the record, so the code is not found; otherwise the handler itself finds the
   * record expired and deletes it. Either way a retry finds nothing.
   */
  method ExpiredCodeRemoved(otps: OtpStore, users: UserTable, phone: string, t: int, tv: int, d: nat, sweep: Option<int>)
    returns (sent: Outcome, late: Outcome, again: Outcome)
    requires otps.Valid() && KeysUnique(otps.records)
    requires phone != "" && FindByPhone(users.users, phone).Some?
    requires d < OtpRange && tv > t + OtpValidityMs
    modifies otps
    ensures sent == OtpSent && again == OtpNotFound
    ensures late == if sweep.Some? && sweep.value > t + OtpValidityMs then OtpNotFound else OtpExpired
    ensures PhaseOf(otps.records, phone, ForgotPassword) == Absent
  {
    sent := RequestOtp(otps, users, phone, t, d);
    var issued := FreshOtp(phone, d, t);
    if sweep.Some? {
      ghost var before := otps.records;
      otps.TtlSweep(sweep.value);
      OfKeyUnexpired(before, sweep.value, phone, ForgotPassword);
      assert [issued][1..] == [];
    }
    if sweep.Some? && sweep.value > t + OtpValidityMs {
      PhaseByQuery(otps.records, phone, ForgotPassword);
    } else {
      FindSole(otps.records, Query(phone, ForgotPassword, Some(false)), issued);
    }
    late := VerifyOtp(otps, phone, GenerateOtp(d), tv);
    PhaseByQuery(otps.records, phone, ForgotPassword);
    again := VerifyOtp(otps, phone, GenerateOtp(d), tv);
  }

  /** A resend inside the cooldown is refused with the remaining whole seconds; after it, a new code is issued. */
  method ResendCooldown(otps: OtpStore, users: UserTable, phone: string, t: int, tr: int, d: nat, d2: nat)
    returns (sent: Outcome, resent: Outcome)
    requires otps.Valid() && KeysUnique(otps.records)
    requires phone != "" && FindByPhone(users.users, phone).Some?
    requires d < OtpRange && d2 < OtpRange && t <= tr
    modifies otps
    ensures sent == OtpSent
    ensures tr - t < ResendCooldownMs ==>
              && resent == TooManyRequests(WaitSeconds(tr - t))
              && 1 <= resent.waitSeconds <= 60
              && OfKey(otps.records, phone, ForgotPassword) == [FreshOtp(phone, d, t)]
    ensures tr - t >= ResendCooldownMs ==>
              && resent == OtpResent
              && OfKey(otps.records, phone, ForgotPassword) == [FreshOtp(phone, d2, tr)]
  {
    sent := RequestOtp(otps, users, phone, t, d);
    FindSole(otps.records, Query(phone, ForgotPassword, None), FreshOtp(phone, d, t));
    resent := ResendOtp(otps, users, phone, tr, d2);
  }
}
