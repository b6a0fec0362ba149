# SHEield account rules in Dafny

SHEield is a desktop personal-safety application written in Python with tkinter and
SQLite. Users register and sign in. This project models the account rules its GUI
callbacks apply, and proves properties about them.

- **Registration** (`RegisterWindow.register`). It reads five entries: name, phone, email,
  password and confirmation. Name, phone and email are stripped; the passwords are not.
  Three checks run in order, and the first that fails is reported: every entry is present,
  the phone is ten digits, the password equals its confirmation. Then the password is
  hashed and one row is inserted into the `users` table.
- **The `users` table** (`setup_database`). Its `phone` column is UNIQUE, so inserting a
  phone that is already there fails. The app reports that as "Phone already registered".
- **Password hashing** (`hash_password`, `verify_password`). The digest is
  PBKDF2-HMAC-SHA256 with 100000 iterations over the UTF-8 bytes of the password and a
  16-byte random salt. Digest and salt are stored as lower-case hex text. Verification
  decodes the stored salt with `bytes.fromhex`, derives the key again and compares the
  hex texts.
- **Sign-in** (`LoginSystem.login`). A blank phone or an empty password fails at once.
  Otherwise the row with the stripped phone is looked up, and sign-in succeeds exactly
  when the row exists and the password verifies.

Files, one module each:

- `common.dfy` (`Common`): bytes and `Option`.
- `text.dfy` (`PyText`): `str.strip()` and the digit test.
- `hex.dfy` (`Hex`): `bytes.hex()` and `bytes.fromhex()`.
- `utf8.dfy` (`Utf8`): `str.encode()`.
- `passwords.dfy` (`Passwords`): hashing and verification.
- `accounts.dfy` (`Accounts`): the registration checks and the `users` table as the class
  `UserStore`. Its `map<string, UserRecord>` field is keyed by phone, which is how the
  UNIQUE constraint is modelled. The model also has pure functions, `Registration` and
  `LoginResult`, that specify the two methods, and lemmas that relate several calls.

PBKDF2 is a value of the function type `Pbkdf2`, taking hash name, password bytes, salt
and iteration count. The store receives it when it is constructed. Hashing and
verification both apply it with the constants `"sha256"` and `100000`. The random salt
of `hash_password` (`os.urandom(16)`) is a parameter of `Register`. Each GUI dialog is an
outcome value: `RegisterOutcome` is `Created | EmptyField | BadPhone | Mismatch | Duplicate`,
and `LoginOutcome` is `Welcome(name) | MissingFields | Invalid | MalformedSalt`.
`MalformedSalt` stands for the `ValueError` that `bytes.fromhex` raises when a stored salt
is not hex. The store invariant `Valid()` proves this outcome never happens.

## Model

| member | source | states |
|---|---|---|
| `PyText.Strip` | she.py:117-119 | `strip()` leaves no whitespace at either end. The result is empty exactly when the text is all whitespace. Text with no whitespace at its ends comes back unchanged. Whitespace is the full set Python's `str.isspace()` accepts. |
| `PyText.StripCutsOnlySpace` | she.py:117-119 | `strip()` removes only whitespace, and only at the ends: the input is leading whitespace, then the result, then trailing whitespace. |
| `Hex.Encode` | she.py:39 | `bytes.hex()` writes exactly two characters per byte, and each is a lower-case hex digit. |
| `Hex.Decode` | she.py:42 | `bytes.fromhex()` accepts any even-length text of lower-case hex digits. That covers everything `bytes.hex()` writes. |
| `Hex.DecodeEncode` | she.py:39-42 | Decoding the hex text of any byte string gives back that byte string. So the stored salt text turns back into the salt. |
| `Hex.EncodeInjective` | she.py:49 | Two byte strings with the same hex text are equal. So comparing hex texts compares the keys. |
| `Utf8.EncodeChar` | she.py:35 | One character encodes to 1-4 bytes. The lead byte tells how many, and every later byte is a continuation byte. |
| `Utf8.Encode` | she.py:35 | `str.encode()` of a text of n characters yields between n and 4n bytes; the value itself is fixed by `Utf8.DecodeEncode`. |
| `Utf8.DecodeEncodeChar` | she.py:35 | Strict UTF-8 decoding of one character's encoding gives back the character. |
| `Utf8.DecodeEncode` | she.py:35 | Strict decoding of `str.encode()`'s output gives back the text. |
| `Utf8.EncodeInjective` | she.py:35 | Different passwords have different UTF-8 bytes. |
| `PyText.IsDigits` | she.py:127 | `phone.isdigit()` over ASCII digits: a non-empty digit string, which is never blank and has no whitespace at its ends. |
| `Passwords.DerivedKey` | she.py:33-38 | The key both hashing and verification derive: PBKDF2 with hash name `"sha256"`, the UTF-8 bytes of the password, the salt and 100000 iterations. |
| `Passwords.HashPassword` | she.py:30-39 | The returned salt text decodes to the salt. The returned digest text decodes to PBKDF2("sha256", UTF-8 of the password, salt, 100000). |
| `Passwords.VerifyPassword` | she.py:41-49 | Verification raises (`None`) exactly when the stored salt is not hex. It accepts only when the stored digest decodes to the key derived again from the password and the decoded salt. |
| `Passwords.HashThenVerify` | she.py:30-49 | For every password and salt, the pair `hash_password` returns verifies that password. |
| `Passwords.OtherPasswordRejected` | she.py:30-49 | A different password is rejected against the pair `hash_password` made, provided the two passwords' derived keys do not collide for that salt. |
| `Accounts.FirstFailure` | she.py:123-133 | The ordered checks. `EmptyField` exactly when name, phone or email is whitespace only or a password entry is empty. `BadPhone` exactly when no entry is missing and the stripped phone is not ten digits. `Mismatch` exactly when the first two checks pass and the passwords differ. No failure exactly when all three pass. |
| `Accounts.HasEmptyField` | she.py:117-123 | A missing entry: name, phone or email is whitespace only, or a password entry is empty. It holds exactly when the stripped name, phone or email, or an unstripped password, is empty, as `all([...])` tests. |
| `Accounts.IsPhoneNumber` | she.py:127 | Ten digits; such a phone is its own stripped form. |
| `Accounts.NewRecord` | she.py:135-141 | The inserted row holds the stripped phone, its password verifies against its digest and salt, and for an acceptable form it satisfies the table invariant. |
| `Accounts.Consistent` | she.py:20 | A consistent table never holds two rows with the same phone (UNIQUE), and every row is as registration writes it. |
| `Accounts.Registration` | she.py:116-145 | Each failed check gives its own outcome and leaves the table unchanged. An acceptable form whose stripped phone is present gives `Duplicate` and leaves the table unchanged. `Created` happens exactly when the form is acceptable and the phone is new. Then exactly one row is added, keyed by the stripped phone and holding the new record. The table grows by one, and every existing row keeps its value. |
| `Accounts.RegistrationKeepsConsistent` | she.py:117-141 | Registration preserves the table invariant. Each row sits under its own phone, which is ten digits. Name and email are non-empty and stripped, and the salt is valid hex. |
| `Accounts.SecondRegistrationRefused` | she.py:137-145 | After a registration succeeds, another acceptable registration with the same stripped phone gives `Duplicate`. The first row is left exactly as written. |
| `Accounts.LoginResult` | she.py:221-238 | `MissingFields` exactly when the phone is whitespace only or the password is empty, whatever the table holds. `Welcome` exactly when a row has the stripped phone and the password verifies against its digest and salt, and it greets that row's name. `MalformedSalt` only when that row's salt is not hex, and never on a consistent table. |
| `Accounts.RegisterThenLogin` | she.py:221-238 | After a successful registration, signing in with the same password succeeds and greets the stripped name. The phone may be typed with any surrounding whitespace. |
| `Accounts.RegisterThenLoginOther` | she.py:229-238 | After a successful registration, signing in with a different password is refused whenever its derived key does not collide with the registered password's key for the stored salt. The outcome is `Invalid`, or `MissingFields` for an empty password. |
| `Accounts.RegistrationKeepsOtherLogins` | she.py:137-141 | A registration leaves unchanged the sign-in result for every other phone. A refused registration changes no sign-in at all. |
| `Accounts.UserStore.Valid` | she.py:20 | The store invariant is `Consistent` on the table, so no two rows share a phone. |
| `Accounts.UserStore.constructor` | she.py:13-27 | A freshly created `users` table is empty and satisfies the invariant. |
| `Accounts.UserStore.Register` | she.py:116-145 | The outcome and the new table are what `Registration` gives for the old table. The invariant is preserved. |
| `Accounts.UserStore.Login` | she.py:221-238 | The outcome is what `LoginResult` gives for the current table. It is never `MalformedSalt` on a valid store. With no `modifies` clause, the method cannot change the table. |

## Left out

- The tkinter windows, widgets, the entry-building loop and the `messagebox` dialogs. Each dialog is an outcome value instead.
- SQLite connection handling: connecting, committing, closing, the database file path and the `print` of it. Only the table's contents and its UNIQUE(phone) constraint are modelled.
- The `id INTEGER PRIMARY KEY AUTOINCREMENT` column. No rule reads it.
- `CREATE TABLE IF NOT EXISTS` on a database file that already has rows. The store always starts empty.
- PBKDF2-HMAC-SHA256 internals. PBKDF2 is an opaque function parameter, so its 32-byte output length is not modelled either.
- `os.urandom(16)`, which is nondeterministic. The salt is a parameter of `Register`, and its length is not constrained.
- The bare `except:` around the INSERT turns every insert failure into "Phone already registered". Only the duplicate-phone failure is modelled, because it is the only failure the table contents can cause.
- `PyText.IsDigits`: Python's `str.isdigit()` also accepts non-ASCII digits, such as Arabic-Indic digits or superscripts. The model accepts only ASCII `0`-`9`.
- `Passwords.OtherPasswordRejected`: the rejection is proved only under the assumption that the two passwords involved do not have colliding PBKDF2 keys for the salt. A real 32-byte PBKDF2 has collisions, and nothing in the model rules out that these two passwords form one.
- `Accounts.RegisterThenLoginOther`: depends on the same assumption, for the registered password, the password typed at sign-in and the stored salt.
- `password.encode()` raises `UnicodeEncodeError` for a Python string holding a lone surrogate. A Dafny `char` cannot hold one, so this error path of `hash_password` and `verify_password` is not modelled.
- An exception escaping `login` (the `MalformedSalt` outcome) is a value. Tkinter's report of an uncaught callback exception is not modelled.
- A `created_at` column: the table created at she.py:16-25 has none, so the record has none.
- Emergency contacts, SOS logging, location lookup, outbound notifications and a queued single-writer database worker have no code in she.py. None of them is part of this model.
