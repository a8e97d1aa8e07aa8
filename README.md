# Password manager: vault façade, user store and signup rule

This project models, in Dafny, the three pieces of sequential logic at the core
of a small password-manager web application:

- **The vault façade `PasswordManager`** (`main.py`). At start-up it chooses the
  Fernet key: it reuses a non-empty `key.key` file, and otherwise generates and
  writes a key. Any error while loading also makes it generate and write a key.
  It encrypts passwords before handing them to the password repository. It
  lists an owner's entries and decrypts each one on its own. A `str`
  ciphertext is Base16 text (section 8 of RFC 4648), possibly behind
  PostgreSQL's `\x` prefix. One entry that fails becomes a marker string and
  never aborts the listing. Module `Vault`, with `Hex` for `binascii` and
  `Fernet` for the cipher and text codec.
- **The user store `Database`** (`databse.py`). It is a connection state, three
  handles set or cleared together, over the `users` collection. Every
  operation is gated on that state. `create_user` rejects a registered email.
  The two updates change one field of the first matching record. Password
  lookup and login succeed only for records whose status is exactly
  `"verified"`. Module `UserStore`: a class with a `seq<User>` field and
  methods that `modify` it.
- **The signup decision** (`web.py`). `is_strong_password` is a regular
  expression. It is modelled twice: once as Python's `re` reads it, and once
  as a check over characters, with a proof that the two agree. `post_signup`
  checks strength first, then the confirmation, and only then calls
  `Sign_up`. Module `Signup`.

Foreign code is abstract. The Fernet token scheme and the UTF-8 codec are
records of functions (`Fernet.Scheme`, `Fernet.TextCodec`). What the vault
assumes of them is stated as the predicates `Fernet.RoundTrip`,
`Fernet.RejectsForeignKeys` and `Fernet.Lossless`. These predicates are preconditions of the lemmas that need
them; they are never axioms. The password repository (`save_password`,
`list_passwords`, `update_password`, `delete_password`) and `Sign_up` are
defined in no file of the source. Each is a function-valued parameter whose
results are inputs. So the model claims no ownership check for them. Other
inputs are parameters too: randomness (the token nonce, the keys that
`generate_key` returns), file and backend failures, and exception messages.

The model follows the code in three places where a reader might expect otherwise:

- The code writes one marker, `"[Decryption Failed - Key Mismatch/Corruption]"`,
  for both a wrong key and corrupted data. It writes `"[Processing Error]"` for
  any other exception. It does not write separate markers for the two decryption cases.
- The vault passes the owner's id to the repository and checks nothing itself.
- User passwords are stored and compared as given, not hashed.

## Model

| member | source | states |
|---|---|---|
| `Hex.Unhexlify` | main.py:68 | decoding yields one octet per two characters; odd-length text is rejected |
| `Hex.UnhexlifySucceedsIff` | main.py:68 | `unhexlify` succeeds exactly on even-length text made only of hexadecimal digits; any other `str` takes the `ValueError` path |
| `Hex.UnhexlifyHexlify` | main.py:66-68 | the Base16 text of a token decodes back to that token |
| `Hex.UnhexlifyAt` | main.py:68 | octet `i` of a successful decode is 16 times the value of character `2i` plus the value of character `2i+1` |
| `Vault.NewPasswordManager` | main.py:14-35 | a present non-empty key file is reused unchanged. A missing or empty file, or a read error, makes it generate a key and write it. A failed write in the `try` makes it generate and write a second key. A failed write in the handler escapes as an error. An invalid stored key escapes from `Fernet(key)`. On success the file holds exactly the key in use |
| `Vault.DecryptPassword` | main.py:40-45 | a plaintext is returned only for a token the scheme accepts under the manager's key; every failure is the one `ValueError` (None) |
| `Vault.EncryptPassword` | main.py:37-45 | decrypting what `encrypt_password` made returns the original password |
| `Vault.ForeignTokenRejected` | main.py:40-45 | a token made under a valid key whose signing half differs from the manager's fails to decrypt; it never yields a wrong plaintext |
| `Vault.DecryptEntry` | main.py:62-92 | a listed entry keeps the stored `id`, `website` and `username`. A missing ciphertext gives `"[Processing Error]"`. A token that decrypts shows its plaintext. Undecodable text, a value that is neither text nor bytes, and a token the decryptor rejects all give `"[Decryption Failed - Key Mismatch/Corruption]"` |
| `Vault.DecryptAll` | main.py:61-94 | the listing has exactly one entry per stored entry |
| `Vault.StripHexPrefix` | main.py:68 | text starting with `\x` loses exactly those two characters; any other text is kept unchanged |
| `Vault.GetPasswords` | main.py:56-94 | a failed repository listing is returned as `(False, data)` with its data unchanged. An exception from `list_passwords` escapes with its message. Otherwise the loop's output is the entrywise decryption of the repository's entries, in order |
| `Vault.DecryptAllAt` | main.py:61-94 | the i-th listed entry is the decryption of the i-th stored entry |
| `Vault.EntriesDecryptIndependently` | main.py:62-92 | per-entry failure isolation: the i-th result depends on the i-th stored entry alone |
| `Vault.OneCorruptEntry` | main.py:61-94 | with one corrupt entry among tokens the manager made, every entry is kept. Every other password is read back, and only the corrupt one is marked |
| `Vault.HexFormsAgree` | main.py:66-70 | a `bytes` token and its Base16 text, with or without the `\x` prefix, give the same password |
| `Vault.MalformedTextMarked` | main.py:66-84 | text whose part after the prefix is not Base16 gets the decryption-failure marker. This covers odd length and any character that is not a hexadecimal digit, which is the `binascii.Error` path |
| `Vault.OrphanedEntryMarked` | main.py:77-84 | an entry encrypted under a key whose signing half is not the current key's, as after a key regeneration, gets the decryption-failure marker |
| `Vault.AddPassword` | main.py:47-54 | never raises. The repository receives the user id, website, username and the encrypted password, and its reply is returned as it is. An exception from it gives `(False, "Error encrypting or saving password: <message>")`. A missing password gives that prefix with the `NoneType` message and calls nothing. Success implies a password was given |
| `Vault.UpdatePassword` | main.py:99-107 | the same for an update, with the entry's id passed first; a `None` password fails with the error prefix and calls nothing |
| `Vault.SavedPasswordIsListed` | main.py:47-94 | what `add_password` hands to the repository lists back as the original website, username and password, whether it returns as `bytes` or as `\x`-prefixed Base16 |
| `Vault.UpdatedPasswordIsListed` | main.py:56-105 | what `update_password` hands to the repository, stored under the entry's id, lists back as that id, the new website and username and the new password, as `bytes` or as `\x`-prefixed Base16 |
| `UserStore.FirstMatch` | databse.py:107 | `find_one` finds the first record in collection order that matches the filter, or reports that none matches |
| `UserStore.StatusOf` | databse.py:144-151 | `check_verification_status` gives the stored status of the first record with that email, or `False` iff the email is unknown |
| `UserStore.VerifiedPassword` | databse.py:206-215 | `get_user` gives the password of the first record in collection order with that email and status exactly `"verified"`; `False` iff there is none |
| `UserStore.CanLogIn` | databse.py:270-273 | the login filter matches iff some record has that email, that password and status `"verified"` |
| `UserStore.UpdateFirst` | databse.py:174-177 | `update_one` changes the first record with that email and nothing else; no match changes nothing |
| `UserStore.SetStatusTouchesOneField` | databse.py:174-183 | a status update changes only the status, and only in the first matching record |
| `UserStore.SetPasswordTouchesOneField` | databse.py:238-247 | a password update changes only the password, and only in the first matching record |
| `UserStore.UpdatesKeepEmailsUnique` | databse.py:159-253 | neither update breaks email uniqueness |
| `UserStore.StatusAfterUpdate` | databse.py:159-183 | after a status update the email reads back the new status; every other email reads back its old status |
| `UserStore.VerifyThenGetUser` | databse.py:174-212 | marking a registered email `"verified"` makes `get_user` return that record's password |
| `UserStore.UnverifiedIsRejected` | databse.py:206-279 | without a verified record for an email, both `get_user` and `get_user_login` fail for it |
| `UserStore.CreateThenLogIn` | databse.py:113-122 | a user created verified under a fresh email can log in with the given password |
| `UserStore.PasswordChangeTakesEffect` | databse.py:237-247 | with unique emails, a verified user logs in with the new password after an update and no longer with a different old one |
| `UserStore.Database.constructor` | databse.py:14-22 | starts with all handles cleared, then connects; connected iff configured and reachable |
| `UserStore.Database.Connect` | databse.py:24-64 | the three handles end all set on success and all cleared on any failure |
| `UserStore.Database.CloseConnection` | databse.py:66-75 | with a client open, all three handles are cleared; without one, nothing changes; afterwards nothing is connected |
| `UserStore.Database.CheckConnection` | databse.py:66-85 | connected means client, database and collection handles are all set; since `connect` and `close_connection` set or clear the three together, this is the same as having a client |
| `UserStore.Database.CreateUser` | databse.py:87-128 | when not connected, on a backend error, or when the email is already registered, it fails with the source's reply and inserts nothing. Otherwise it appends exactly one record with the four given fields. Emails that were unique stay unique |
| `UserStore.Database.CheckVerificationStatus` | databse.py:130-157 | `False` when not connected or on error, otherwise the status lookup |
| `UserStore.Database.UpdateVerificationStatus` | databse.py:159-189 | returns `True` iff a record matched; the collection is unchanged when not connected or on error |
| `UserStore.Database.GetUser` | databse.py:191-221 | `False` when not connected or on error, otherwise the verified-password lookup |
| `UserStore.Database.UpdateUserPassword` | databse.py:223-253 | returns `True` iff a record matched; the collection is unchanged when not connected or on error |
| `UserStore.Database.GetUserLogin` | databse.py:255-285 | `[True, email]` iff a verified record has this email and password, otherwise `[False, message]` with the source's messages |
| `Signup.PolicyIsRegex` | web.py:18 | the regular expression, read with Python's lookahead, `.` and `$` semantics, accepts exactly the texts whose part before a final line break meets the character policy |
| `Signup.IsStrongPassword` | web.py:18-22 | `is_strong_password` is true iff `password_regex.match` succeeds |
| `Signup.StrongMeansPolicy` | web.py:18-22 | without a final line break: length at least 8, only `A-Z a-z 0-9 @$!%*?&`, and one of each of the four classes |
| `Signup.ForbiddenCharacterRejects` | web.py:18 | any character outside the allowed alphabet rejects the password, other than one final line break |
| `Signup.FinalNewlineAccepted` | web.py:18-22 | a strong password followed by one `\n` is accepted; followed by two it is not |
| `Signup.PostSignup` | web.py:42-54 | a weak password gets the strength message whatever the confirmation. A strong one with a differing confirmation gets the mismatch message. In both cases `Sign_up` is not called. Otherwise `Sign_up` is called once, with the form's fields. A truthy result redirects to `/login` with 303; a falsy one gives "Signup failed."; an exception from it leaves the handler with its message |
| `Signup.RedirectNeedsStrongConfirmedPassword` | web.py:45-52 | a redirect happens only for a confirmed password that meets the policy |

## Left out

- The Fernet token format (AES-CBC, HMAC, timestamps, TTL) and the UTF-8 codec are foreign libraries. They are abstract functions. Round trip (`RoundTrip`) and key-mismatch rejection (`RejectsForeignKeys`) are assumptions passed to the lemmas, not proved facts; only the two lemmas about foreign keys take the second.
- Fernet key validity (url-safe Base64 of 32 octets) is the abstract `validKey`. Generated keys are assumed valid and non-empty.
- The password repository methods and `Sign_up` are not in the source. Their results are inputs, and no ownership or durability property is claimed for them.
- Vault.NewPasswordManager: a failed write of `key.key` is taken to leave the file as it was; truncation by `open(..., "wb")` before a failed write is not modelled. Operating-system file semantics are reduced to "present" and "contents".
- Vault.GetPasswords: every listed entry is taken to carry `id`, `website` and `username`. In the source a missing one raises `KeyError` inside the handler and aborts the whole listing; that path is not modelled.
- `delete_password` (main.py:96-97) only passes both ids to the repository, whose result is an input; the façade has no behaviour of its own there, so it has no member.
- Rejection of a foreign token is assumed only for keys whose signing halves (the first 16 decoded octets, abstract `signingKey`) differ, and it ignores the negligible chance of an HMAC forgery. Keys that share the signing half but differ in the AES half are not covered: the library then rejects a token only when the padding is invalid, which happens for about 255 tokens in 256. Two `generate_key` draws share a signing half only with probability 2^-128.
- `str.encode()` is total in the model. Python raises `UnicodeEncodeError` for a lone surrogate, which a Dafny `char` cannot hold, so that path is not modelled.
- Signup.IsStrongPassword: `\d` is restricted to the ASCII digits; Python's `re` also accepts other Unicode decimal digits there.
- pymongo, `dotenv`, the environment lookups and the `ping` are reduced to two inputs of `Connect`: whether `MONGO_URI` is set and whether the server answers. A backend exception is an input message, taken to occur before any change to the collection.
- The handle check `not self.db` at databse.py:82 is modelled as intended: "the database handle is set". A real pymongo `Database` object raises when tested for truth.
- The `print` logging is a side effect only, and it is not modelled. This includes the plaintext and ciphertext printed at main.py:49 and 51.
- sendmail.py (SMTP delivery, HTML template, `generate_reset_code`), the FastAPI routes, templates, session middleware and static mounts are I/O and presentation glue.
- The module-level instances and the test call at main.py:7 and 109-111 and web.py:14 are not modelled.
- Concurrency is not modelled: the source handles one request at a time.
