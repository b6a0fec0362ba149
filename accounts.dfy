/** The account rules of the application: the checks of the registration window, the
    `users` table with its UNIQUE phone column, and the sign-in check. */
module Accounts {
  import opened Common
  import opened PyText
  import Hex
  import Passwords
  import Utf8

  /** The five entries of the registration window as typed. */
  datatype Form = Form(name: string, phone: string, email: string, password: string, confirm: string)

  /** One row of the `users` table. */
  datatype UserRecord = UserRecord(name: string, phone: string, email: string, hashedPassword: string, salt: string)

  /** The dialog a registration ends with. */
  datatype RegisterOutcome = Created | EmptyField | BadPhone | Mismatch | Duplicate

  /** The dialog a sign-in ends with; `MalformedSalt` is the `ValueError` that
      `bytes.fromhex` raises on a stored salt that is not hex. */
  datatype LoginOutcome = Welcome(name: string) | MissingFields | Invalid | MalformedSalt

  /** A phone number the registration window accepts: ten digits. */
  predicate IsPhoneNumber(p: string): (b: bool)
    ensures b ==> Strip(p) == p
  {
    |p| == 10 && IsDigits(p)
  }

  /** Some entry is missing: name, phone or email is blank (whitespace only), or a
      password entry is empty (the passwords are not stripped). Equivalently, as `register`
      tests it: one of the stripped name, phone and email or one of the passwords is empty. */
  predicate HasEmptyField(f: Form): (b: bool)
    ensures b <==> Strip(f.name) == [] || Strip(f.phone) == [] || Strip(f.email) == [] || f.password == [] || f.confirm == []
  {
    AllSpace(f.name) || AllSpace(f.phone) || AllSpace(f.email) || f.password == [] || f.confirm == []
  }

  /** The form passes all three checks. */
  predicate Acceptable(f: Form)
  {
    !HasEmptyField(f) && IsPhoneNumber(Strip(f.phone)) && f.password == f.confirm
  }

  /** The checks of `register`, in their order: the first that fails is reported. */
  function FirstFailure(f: Form): (r: Option<RegisterOutcome>)
    ensures r == Some(EmptyField) <==> HasEmptyField(f)
    ensures r == Some(BadPhone) <==> !HasEmptyField(f) && !IsPhoneNumber(Strip(f.phone))
    ensures r == Some(Mismatch) <==> !HasEmptyField(f) && IsPhoneNumber(Strip(f.phone)) && f.password != f.confirm
    ensures r == None <==> Acceptable(f)
  {
    var name, phone, email := Strip(f.name), Strip(f.phone), Strip(f.email);
    if name == [] || phone == [] || email == [] || f.password == [] || f.confirm == [] then Some(EmptyField)
    else if !IsDigits(phone) || |phone| != 10 then Some(BadPhone)
    else if f.password != f.confirm then Some(Mismatch)
    else None
  }

  /** The row a successful registration inserts: the stripped name, phone and email, and
      the digest and salt `hash_password` made from the password. */
  function NewRecord(kdf: Passwords.Pbkdf2, f: Form, salt: Bytes): (r: UserRecord)
    ensures r.phone == Strip(f.phone)
    ensures Passwords.VerifyPassword(kdf, r.hashedPassword, r.salt, f.password) == Some(true)
    ensures Acceptable(f) ==> WellFormed(r.phone, r)
  {
    Passwords.HashThenVerify(kdf, f.password, salt);
    var h := Passwords.HashPassword(kdf, f.password, salt);
    UserRecord(Strip(f.name), Strip(f.phone), Strip(f.email), h.digest, h.salt)
  }

  /** A row as registration leaves it, stored under its own phone number. */
  predicate WellFormed(phone: string, rec: UserRecord)
  {
    && rec.phone == phone
    && IsPhoneNumber(phone)
    && rec.name != [] && IsStripped(rec.name)
    && rec.email != [] && IsStripped(rec.email)
    && Hex.Decode(rec.salt).Some?
  }

  /** The table keyed by phone, each row well formed. No two rows hold the same phone:
      the UNIQUE constraint of the `phone` column. */
  ghost predicate Consistent(users: map<string, UserRecord>): (b: bool)
    ensures b ==> forall p, q :: p in users && q in users && users[p].phone == users[q].phone ==> p == q
  {
    forall phone :: phone in users ==> WellFormed(phone, users[phone])
  }

  /** The outcome of one registration and the table after it. */
  datatype Step = Step(outcome: RegisterOutcome, users: map<string, UserRecord>)

  /** `register` on a table: a failed check or a phone already in the table leaves the
      table as it was; otherwise exactly one row, under the stripped phone, is added. */
  function Registration(users: map<string, UserRecord>, kdf: Passwords.Pbkdf2, f: Form, salt: Bytes): (step: Step)
    ensures HasEmptyField(f) ==> step == Step(EmptyField, users)
    ensures !HasEmptyField(f) && !IsPhoneNumber(Strip(f.phone)) ==> step == Step(BadPhone, users)
    ensures !HasEmptyField(f) && IsPhoneNumber(Strip(f.phone)) && f.password != f.confirm ==> step == Step(Mismatch, users)
    ensures Acceptable(f) && Strip(f.phone) in users ==> step == Step(Duplicate, users)
    ensures step.outcome == Created <==> Acceptable(f) && Strip(f.phone) !in users
    ensures step.outcome == Created ==>
      && step.users.Keys == users.Keys + {Strip(f.phone)}
      && |step.users| == |users| + 1
      && step.users[Strip(f.phone)] == NewRecord(kdf, f, salt)
      && forall phone :: phone in users ==> step.users[phone] == users[phone]
    ensures step.outcome != Created ==> step.users == users
  {
    var phone := Strip(f.phone);
    if HasEmptyField(f) then Step(EmptyField, users)
    else if !IsPhoneNumber(phone) then Step(BadPhone, users)
    else if f.password != f.confirm then Step(Mismatch, users)
    else if phone in users then Step(Duplicate, users)
    else
      var after := users[phone := NewRecord(kdf, f, salt)];
      assert after.Keys == users.Keys + {phone};
      Step(Created, after)
  }

  /** Registration keeps the table consistent: phone numbers stay unique keys and every
      row stays as registration writes it. */
  lemma RegistrationKeepsConsistent(users: map<string, UserRecord>, kdf: Passwords.Pbkdf2, f: Form, salt: Bytes)
    requires Consistent(users)
    ensures Consistent(Registration(users, kdf, f, salt).users)
  {
  }

  /** `login` on a table: a blank phone or an empty password fails at once; otherwise the
      sign-in succeeds exactly when a row has the stripped phone and the password verifies
      against its digest and salt. */
  function LoginResult(users: map<string, UserRecord>, kdf: Passwords.Pbkdf2, phone: string, password: string): (r: LoginOutcome)
    ensures r == MissingFields <==> AllSpace(phone) || password == []
    ensures r.Welcome? <==>
      && !AllSpace(phone) && password != []
      && Strip(phone) in users
      && Passwords.VerifyPassword(kdf, users[Strip(phone)].hashedPassword, users[Strip(phone)].salt, password) == Some(true)
    ensures r.Welcome? ==> r.name == users[Strip(phone)].name
    ensures r == MalformedSalt ==> Strip(phone) in users && Hex.Decode(users[Strip(phone)].salt).None?
    ensures Consistent(users) ==> r != MalformedSalt
  {
    var key := Strip(phone);
    if key == [] || password == [] then MissingFields
    else if key !in users then Invalid
    else
      var user := users[key];
      match Passwords.VerifyPassword(kdf, user.hashedPassword, user.salt, password)
      case None => MalformedSalt
      case Some(ok) => if ok then Welcome(user.name) else Invalid
  }

  /** A user who has just registered can sign in with the same phone (as typed, or with
      other surrounding whitespace) and password, and is greeted by the stripped name. */
  lemma RegisterThenLogin(users: map<string, UserRecord>, kdf: Passwords.Pbkdf2, f: Form, salt: Bytes, phone: string)
    requires Acceptable(f) && Strip(f.phone) !in users
    requires Strip(phone) == Strip(f.phone)
    ensures LoginResult(Registration(users, kdf, f, salt).users, kdf, phone, f.password) == Welcome(Strip(f.name))
  {
    Passwords.HashThenVerify(kdf, f.password, salt);
  }

  /** A user who has just registered cannot sign in with any other password whose key does
      not collide with the registered password's key for the stored salt. */
  lemma RegisterThenLoginOther(users: map<string, UserRecord>, kdf: Passwords.Pbkdf2, f: Form, salt: Bytes, phone: string, other: string)
    requires Acceptable(f) && Strip(f.phone) !in users
    requires Strip(phone) == Strip(f.phone)
    requires Utf8.Encode(other) != Utf8.Encode(f.password) ==>
      Passwords.DerivedKey(kdf, other, salt) != Passwords.DerivedKey(kdf, f.password, salt)
    requires other != f.password
    ensures LoginResult(Registration(users, kdf, f, salt).users, kdf, phone, other) ==
      if other == [] then MissingFields else Invalid
  {
    Passwords.OtherPasswordRejected(kdf, f.password, other, salt);
  }

  /** Registering a phone a second time is refused as already registered, and the row
      the first registration wrote is kept. */
  lemma SecondRegistrationRefused(users: map<string, UserRecord>, kdf: Passwords.Pbkdf2, f: Form, salt: Bytes, g: Form, salt': Bytes)
    requires Acceptable(f) && Strip(f.phone) !in users
    requires Acceptable(g) && Strip(g.phone) == Strip(f.phone)
    ensures var after := Registration(users, kdf, f, salt).users;
      && Registration(after, kdf, g, salt') == Step(Duplicate, after)
      && after[Strip(f.phone)] == NewRecord(kdf, f, salt)
  {
  }

  /** A registration changes no other user's sign-in, and a refused one changes none. */
  lemma RegistrationKeepsOtherLogins(users: map<string, UserRecord>, kdf: Passwords.Pbkdf2, f: Form, salt: Bytes, phone: string, password: string)
    requires Strip(phone) != Strip(f.phone) || Registration(users, kdf, f, salt).outcome != Created
    ensures LoginResult(Registration(users, kdf, f, salt).users, kdf, phone, password) == LoginResult(users, kdf, phone, password)
  {
  }

  /** The `users` table. It starts empty, as `setup_database` creates it. */
  class UserStore {
    var users: map<string, UserRecord>
    /** The PBKDF2 implementation the store hashes with. */
    const kdf: Passwords.Pbkdf2

    /** The store invariant: the table is consistent, so no two rows share a phone. */
    ghost predicate Valid(): (b: bool)
      reads this
      ensures b ==> forall p, q :: p in users && q in users && users[p].phone == users[q].phone ==> p == q
    {
      Consistent(users)
    }

    constructor (kdf: Passwords.Pbkdf2)
      ensures Valid() && users == map[] && this.kdf == kdf
    {
      users := map[];
      this.kdf := kdf;
    }

    /** `RegisterWindow.register`; `salt` stands for the `os.urandom(16)` of `hash_password`. */
    method Register(form: Form, salt: Bytes) returns (outcome: RegisterOutcome)
      requires Valid()
      modifies this
      ensures Valid()
      ensures Step(outcome, users) == Registration(old(users), kdf, form, salt)
    {
      var failure := FirstFailure(form);
      if failure.Some? {
        return failure.value;
      }
      var hashed := Passwords.HashPassword(kdf, form.password, salt);
      var phone := Strip(form.phone);
      if phone in users {
        // the INSERT violates UNIQUE(phone) and is rolled back
        return Duplicate;
      }
      RegistrationKeepsConsistent(users, kdf, form, salt);
      users := users[phone := UserRecord(Strip(form.name), phone, Strip(form.email), hashed.digest, hashed.salt)];
      outcome := Created;
    }

    /** `LoginSystem.login`. It has no `modifies` clause: signing in never changes the table. */
    method Login(phone: string, password: string) returns (outcome: LoginOutcome)
      ensures outcome == LoginResult(users, kdf, phone, password)
      ensures Valid() ==> outcome != MalformedSalt
    {
      var key := Strip(phone);
      if key == [] || password == [] {
        return MissingFields;
      }
      if key !in users {
        return Invalid;
      }
      var user := users[key];
      var verified := Passwords.VerifyPassword(kdf, user.hashedPassword, user.salt, password);
      if verified == Some(true) {
        outcome := Welcome(user.name);
      } else if verified == Some(false) {
        outcome := Invalid;
      } else {
        outcome := MalformedSalt;
      }
    }
  }
}
