# Spacedrive database helpers, modelled in Dafny

This project models the pure part of spacedrive's `core/src/util/db.rs`:

- `chain_optional_iter` takes some required values and some optional values. It returns every required value, then every present (`Some`) optional value, both in their original order. The `None`s are dropped.
- `uuid_to_bytes` copies a UUID's 16 octets into a byte vector.
- `write_storedkey_to_db` decides whether a `StoredKey` is written at all. It skips a memory-only key. Otherwise it issues exactly one `key().create(...)` with the key's fields in a fixed order.

Files:

- `wrappers.dfy` (module `Wrappers`): Rust's `Option` and `Result`.
- `uuid.dfy` (module `Uuid`): the `uuid` crate's `Uuid` as far as db.rs uses it. It follows RFC 9562 section 4: 16 octets read big-endian as one 128-bit value, and the 8-4-4-4-12 lower-case hexadecimal text form that `to_string` produces.
- `db.dfy` (module `Db`): the three helpers and their lemmas.

`chain_optional_iter` is the iterator pipeline `required.map(Some).chain(optional).flatten()`. The model keeps that shape: `Db.ChainOptionalIter` is `Flatten(Lift(required) + optional)`. Its lemmas relate it to two other descriptions:

- required values followed by `Flatten(optional)`;
- `IsPresentValues`, a description by positions. The `Some` at index `i` becomes element number "how many `Some`s come before `i`".

`write_storedkey_to_db` is modelled as a function from a key to a `WriteOutcome`: the list of create requests issued, then the `Result` returned. Two things the source calls stay abstract and become function parameters:

- `serde_json::to_string`, as `toJson`;
- the database's answer to `.exec().await`, as `exec`.

Each `?` in the source is an early return, and the model keeps it. The four JSON serialisations run in argument order: version, key type, algorithm, hashing algorithm. The first one that fails is the error, and nothing is issued. A rejected create is issued and then returned as an error. The last argument of `create`, `vec![]`, is the list of optional column setters that the generated Prisma client accepts. It is modelled as an empty `seq<SetParam>`.

## Model

| member | source | states |
|---|---|---|
| `Db.ChainOptionalIter` | core/src/util/db.rs:94-104 | the output has length `|required|` plus the number of `Some`s; it starts with `required` unchanged, and the rest is exactly `Flatten(optional)` |
| `Db.FlattenLift` | core/src/util/db.rs:98-100 | after `.map(Some)`, flattening gives back the required values unchanged and in order |
| `Db.FlattenAppend` | core/src/util/db.rs:101-102 | flattening a chain is flattening each part and concatenating: `chain` keeps the required part first |
| `Db.FlattenLength` | core/src/util/db.rs:92-93 | flattening yields one element per `Some` and none per `None` |
| `Db.CountSomeAppend` | core/src/util/db.rs:101-102 | the number of `Some`s in a chain is the sum over its parts |
| `Db.FlattenAt` | core/src/util/db.rs:100-103 | the `Some` at index `i` of `optional` sits at output index "number of `Some`s before `i`", so every payload appears and nothing is reordered |
| `Db.SomePositionsIncrease` | core/src/util/db.rs:100-103 | a later `Some` lands at a strictly later output index: the original order is kept |
| `Db.FlattenOrigin` | core/src/util/db.rs:102-103 | every output element is the payload of some `Some`, at the index `FlattenAt` gives it: nothing is invented |
| `Db.FlattenMembership` | core/src/util/db.rs:92-93 | a value is in the flattening if and only if `Some` of it is in the input |
| `Db.ChainMembership` | core/src/util/db.rs:94-104 | a value is in the output if and only if it is a required value or a present optional value |
| `Db.ChainOptionalAt` | core/src/util/db.rs:98-103 | the `Some` at index `i` of `optional` is at output index `|required|` plus the number of `Some`s before `i` |
| `Db.ChainAllNone` | core/src/util/db.rs:92-93 | when every optional entry is `None`, including when there are none, the output is exactly `required` |
| `Db.NoSomeCountsZero` | core/src/util/db.rs:92-93 | a sequence holding only `None`s contains no `Some` |
| `Db.FlattenIsPresentValues` | core/src/util/db.rs:100-103 | a sequence is the flattening if and only if it is the present values in order, as `IsPresentValues` states by positions; so that description determines the output uniquely |
| `Db.NoRequiredIsFlattening` | core/src/util/db.rs:98-103 | with no required values, the output is exactly the present optional values in their order |
| `Db.UuidToBytes` | core/src/util/db.rs:106-108 | the result has 16 octets, each equal to the UUID's octet at the same index; they are the big-endian encoding of the UUID's 128-bit value, and reading them big-endian gives that value back |
| `Db.UuidToBytesInjective` | core/src/util/db.rs:106-108 | different UUIDs give different byte vectors |
| `Db.UuidToBytesOfValue` | core/src/util/db.rs:106-108 | every 128-bit value is reached: the bytes of the UUID with value `v` read back as `v` |
| `Uuid.BigEndianValue` | core/src/util/db.rs:107 | the value of `n` octets is below 256 to the power `n` |
| `Uuid.BytesOfValue` | core/src/util/db.rs:107 | writing out the value of an octet string gives back the same octets |
| `Uuid.ValueOfBytes` | core/src/util/db.rs:107 | writing a number that fits in `n` octets and reading it back gives the number |
| `Uuid.FromValue` | core/src/util/db.rs:107 | the UUID built from a 128-bit value has that value |
| `Uuid.FromValueOfValue` | core/src/util/db.rs:107 | every UUID is the one its 128-bit value names, so octets and value are in bijection |
| `Uuid.Hex` | core/src/util/db.rs:72 | two lower-case hexadecimal digits per octet |
| `Uuid.HexAppend` | core/src/util/db.rs:72 | the hex text of a concatenation is the concatenation of the hex texts |
| `Uuid.ParseHex` | core/src/util/db.rs:72 | db.rs never parses; this decoder is the inverse of the hex text `to_string` writes, used to prove that text injective: a successful decode yields one octet per two characters |
| `Uuid.ParseHexOfHex` | core/src/util/db.rs:72 | decoding the hex text of octets gives back the octets |
| `Uuid.DigitValue` | core/src/util/db.rs:72 | part of that inverse of `to_string`, not called by db.rs: every lower-case hex digit has a value, and every value is below 16 |
| `Uuid.DigitRoundTrip` | core/src/util/db.rs:72 | part of that inverse of `to_string`: the value of the digit written for `d` is `d` |
| `Uuid.Hyphenated` | core/src/util/db.rs:72 | the UUID string has 36 characters: hyphens at 8, 13, 18 and 23, and lower-case hex digits everywhere else |
| `Uuid.ParseHyphenated` | core/src/util/db.rs:72 | the inverse of `to_string`, not called by db.rs and used to prove the UUID string injective: only a 36-character string with the four hyphens in place is accepted |
| `Uuid.HyphenatedRoundTrip` | core/src/util/db.rs:72 | parsing a UUID's string gives back the UUID |
| `Uuid.HyphenatedInjective` | core/src/util/db.rs:72 | different UUIDs have different strings |
| `Db.KeyCreateFor` | core/src/util/db.rs:70-84 | the four `serde_json::to_string(..)?` calls of lines 73-76 run left to right; the create request exists exactly when all four JSON fields serialise; it carries the UUID string first, each key field in its own position, and no optional setters; otherwise the error is that of the first failing field in argument order |
| `Db.WriteStoredKeyToDb` | core/src/util/db.rs:63-90 | a memory-only key issues nothing and returns `Ok(())`; otherwise exactly one create is issued when the fields serialise, with the key's UUID string first and an empty setter list last; the result is the first serialisation error, the database's error, or `Ok(())` |
| `Db.IssuedUuidIdentifiesKey` | core/src/util/db.rs:69-72 | two issued creates with the same UUID column come from keys with the same UUID |
| `Db.SuccessMeansStoredOrSkipped` | core/src/util/db.rs:69-89 | `Ok(())` means either that the key was memory-only, or that exactly one create was issued and the database accepted it |

## Left out

- `load_and_migrate` (lines 22-61) is not modelled. It opens a database client over a URL and reads the `SD_ACCEPT_DATA_LOSS` and `SD_FORCE_RESET_DB` environment variables. It pushes the schema or deploys migrations depending on the build configuration, and prints to stderr. All of that is I/O.
- `MigrationError` (lines 8-19) only wraps errors of external crates, so it is not modelled.
- `serde_json::to_string` is a parameter (`toJson`). What text it produces for the `sd_crypto` enums is not modelled. Those enums are not part of this model, so the four enum fields are opaque `CryptoAttr` values named by their variant.
- The database insert and its `await` are a parameter (`exec`). The model records that a create was issued and what the database answered. It does not record what the database then stores. Asynchrony is not modelled.
- `StoredKey` comes from `sd_crypto`, which is not part of this model. Only the fields the write reads are kept, and no lengths of its byte arrays are assumed.
- `Uuid` comes from the `uuid` crate, which is not part of this model. It is modelled as its 16 octets, following RFC 9562 section 4. `to_string` is modelled as the hyphenated lower-case form. `Uuid.ParseHyphenated` also accepts upper-case digits, so it is a left inverse of `Uuid.Hyphenated` only, not a bijection.
- Rust's lazy iterators and the `IntoIterator` arguments are modelled as finite sequences.
