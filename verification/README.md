# User registry: a Dafny model

This project models an in-memory user registry written in Swift. `User` is a value record holding a user name, an e-mail address and a password digest. `User.init` stores the lower-case hex rendering of SHA-256 over the password's UTF-8 octets, never the password. `verifyPassword` compares digests. `UserManager` owns a private dictionary from user name to `User`. Registration inserts a record only under a free name. Login succeeds only for a known name whose digest matches. Removal deletes by name, and two queries read the count and the table. `AdminUser` adds `listAllUsers`, the current names in no particular order.

Layout, one module per file:

- `bytes.dfy` (`Bytes`): the octet type and `Option`.
- `hex.dfy` (`Hex`): `String(format: "%02x")` per byte, joined. A decoder is its partner, and round trips are proved in both directions.
- `utf8.dfy` (`Utf8`): `String.utf8` as section 3 of RFC 3629 defines it. A validating decoder is its partner, and round trips are proved in both directions.
- `credentials.dfy` (`Credentials`): the SHA-256 parameter, `HashPassword`, the `User` datatype with `VerifyPassword`, and `NewUser` (the `init`).
- `registry.dfy` (`Registry`): class `UserManager` over a `map<string, User>`, and class `AdminUser`.
- `scenario.dfy` (`Scenarios`): the demonstration sequence at the end of `main.swift`, and two multi-call promises.

SHA-256 (FIPS 180-4) is not computed. Every operation that hashes takes it as a value of type `Sha256 = seq<Byte> -> Digest`: a deterministic total function onto 32-octet sequences. `UserManager` keeps it in a `const` field. No function onto 32-octet digests can be collision-free, because there are infinitely many inputs. So nothing here assumes that it is. Instead, the lemmas about wrong passwords state the exact condition: a different password is accepted exactly when SHA-256 gives its UTF-8 octets the same digest as the registered password's octets. Distinct passwords always have distinct octets (`Utf8.EncodeInjective`), so such an acceptance is precisely a SHA-256 collision.

Swift's `AdminUser` subclasses `UserManager`. Dafny classes cannot inherit without traits, so `AdminUser` holds a `UserManager` in a `const manager` field, and its callers reach the inherited operations through it.

`UserManager.Valid()` is the object invariant: every record is filed under its own user name and holds 64 lower-case hex digits. The constructor establishes it and every operation keeps it. Because the Swift dictionary is private, no other code can break it, so the `requires Valid()` on the operations asks nothing of real callers.

## Model

| member | source | states |
|---|---|---|
| `Hex.ByteToHex` | UserSystem/main.swift:17 | `%02x` of a byte is two lower-case hex digits, high nibble first, whose base-16 value is the byte |
| `Hex.Encode` | UserSystem/main.swift:17 | the joined rendering has exactly two characters per byte, all lower-case hex |
| `Hex.DecodeEncode` | UserSystem/main.swift:17 | decoding the rendering gives back the digest bytes |
| `Hex.EncodeDecode` | UserSystem/main.swift:17 | every decodable string is the rendering of what it decodes to |
| `Hex.DecodeDefined` | UserSystem/main.swift:17 | a string is a rendering exactly when its length is even and it holds only lower-case hex digits |
| `Hex.DecodeIff` | UserSystem/main.swift:17 | a string decodes to a byte sequence exactly when that sequence renders as the string |
| `Hex.EncodeInjective` | UserSystem/main.swift:17 | distinct digests never render to the same text |
| `Utf8.EncodeChar` | UserSystem/main.swift:16 | one character becomes 1 to 4 octets (the number fixed by its scalar value), a lead octet announcing that length, then continuation octets, carrying the scalar value |
| `Utf8.Encode` | UserSystem/main.swift:16 | a string of n characters becomes between n and 4n octets |
| `Utf8.DecodeEncode` | UserSystem/main.swift:16 | decoding the UTF-8 octets of a string gives back the string |
| `Utf8.EncodeCharOfScalar` | UserSystem/main.swift:16 | a well-formed sequence (no overlong form, no surrogate, at most U+10FFFF) is the encoding of the character it carries |
| `Utf8.DecodeHead` | UserSystem/main.swift:16 | a decodable octet sequence starts with the encoding of its first character, followed by a decodable rest |
| `Utf8.EncodeDecode` | UserSystem/main.swift:16 | every decodable octet sequence is the encoding of what it decodes to |
| `Utf8.EncodeInjective` | UserSystem/main.swift:16 | distinct passwords never give the same octets to the digest |
| `Credentials.HashPassword` | UserSystem/main.swift:15-18 | the hash is 64 lower-case hex digits, two per digest octet, and decodes to the SHA-256 digest of the password's UTF-8 octets |
| `Credentials.HashPasswordsEqual` | UserSystem/main.swift:15-18 | two passwords hash alike exactly when SHA-256 gives their UTF-8 octets the same digest; distinct passwords have distinct octets |
| `Credentials.User.VerifyPassword` | UserSystem/main.swift:20-22 | the attempt verifies exactly when the stored text is the hex rendering of SHA-256 over the attempt's UTF-8 octets |
| `Credentials.NewUser` | UserSystem/main.swift:9-13 | the record keeps name and e-mail and stores a 64-digit hex digest that verifies the given password; it equals the raw input only if that input already is 64 lower-case hex digits |
| `Credentials.VerifyPasswordOfNewUser` | UserSystem/main.swift:9-22 | the password given at construction verifies; any input verifies exactly when SHA-256 gives its UTF-8 octets the same digest as the password's |
| `Registry.UserManager.constructor` | UserSystem/main.swift:26 | a new manager has an empty table |
| `Registry.UserManager.RegisterUser` | UserSystem/main.swift:28-37 | true exactly when the name was free; then the table gains exactly that name, holding `NewUser` of the arguments, and the count rises by 1; otherwise the table (stored digest included) and the count are unchanged; the invariant is kept |
| `Registry.UserManager.Login` | UserSystem/main.swift:39-46 | false for an unknown name, false for a known name with a different digest, true when the stored digest matches; it only reads the table |
| `Registry.UserManager.RemoveUser` | UserSystem/main.swift:48-55 | true exactly when the name was present; afterwards the table is the old one without that name, the count has dropped by 1 if it was present, and the invariant is kept |
| `Registry.UserManager.GetAllUsers` | UserSystem/main.swift:61-63 | the snapshot files every record under its own name, and every stored password text is 64 lower-case hex digits |
| `Registry.AdminUser.constructor` | UserSystem/main.swift:66-69 | an admin starts with a fresh, empty, valid manager |
| `Registry.AdminUser.ListAllUsers` | UserSystem/main.swift:71-73 | every registered name exactly once and nothing else; the length equals the user count |
| `Scenarios.Demonstration` | UserSystem/main.swift:80-100 | in the demonstration both registrations succeed, the count is then 2, `anano` logs in, removing `gio` succeeds, and at the end the count is 1 and the names are exactly `["anano"]` |
| `Scenarios.RegisterThenLogin` | UserSystem/main.swift:28-46 | after a successful registration, logging in with the same password succeeds, and any attempt succeeds exactly when SHA-256 gives its UTF-8 octets the password's digest |
| `Scenarios.RemoveTwice` | UserSystem/main.swift:48-55 | the first removal reports whether the name was there, and a second removal of the same name reports false |

## Left out

- Console output: every `print` of a status message (lines 30, 35, 41, 44, 50, 53) and the lifecycle messages of `AdminUser`'s `init` and `deinit` (lines 67-69, 75-77). They do not affect any result.
- The rounds of SHA-256 (CryptoKit's `SHA256.hash`): a caller-supplied parameter, as described above.
- `String(format:)` as a library call: only its effect on one byte (`Hex.ByteToHex`) is modelled.
- Subclassing: `AdminUser` holds its `UserManager` instead of inheriting from it (see above).
- `UserManager.UserCount`: it has no contract of its own. What the source promises about the count is stated by `RegisterUser`, `RemoveUser` and `ListAllUsers`.
- `Scenarios.Demonstration`: the script's two passwords are parameters, so the outcome is proved for every pair of passwords, the script's included.
- `Registry.AdminUser.ListAllUsers`: the library conversion `Array(getAllUsers().keys)` is written as a loop that moves one key at a time from the key set into the result.
- The order of `listAllUsers`: Swift leaves the order of dictionary keys unspecified, and the model chooses an arbitrary order.
- `Registry.UserManager.RegisterUser`: user names are compared as sequences of Unicode scalar values, not by canonical equivalence as Swift's `String` equality and hashing compare dictionary keys. So `"caf\u{E9}"` and `"cafe\u{301}"` are two free names here, while Swift treats the second as already taken.
- `Registry.UserManager.Login`: for the same reason, a canonically equivalent but differently encoded spelling of a registered name does not find the user here, while in Swift it does.
- `Registry.UserManager.RemoveUser`: for the same reason, removal under a canonically equivalent spelling reports not found here, while Swift removes the entry.
- The e-mail address is stored and never read or validated, as in the source.
- Timing: the digest comparison in `verifyPassword` is not constant-time, and timing is not modelled.
