/**
 * The pure helpers of spacedrive's `core/src/util/db.rs`:
 * `chain_optional_iter`, `uuid_to_bytes`, and the decision of
 * `write_storedkey_to_db` about which key rows it asks the database to create.
 */
module Db {
  import opened Wrappers
  import Uuid

  // ---------------------------------------------------------------------
  // chain_optional_iter
  // ---------------------------------------------------------------------

  /** `.map(Some)`: every value, wrapped. */
  function Lift<T>(s: seq<T>): (r: seq<Option<T>>)
  {
    if s == [] then [] else [Some(s[0])] + Lift(s[1..])
  }

  /** `.flatten()` of a sequence of options: the `Some` payloads, front to back. */
  function Flatten<T>(o: seq<Option<T>>): (r: seq<T>)
  {
    if o == [] then []
    else
      match o[0]
      case Some(x) => [x] + Flatten(o[1..])
      case None => Flatten(o[1..])
  }

  /** How many entries of `o` are `Some`. */
  function CountSome<T>(o: seq<Option<T>>): (n: nat)
    ensures n <= |o|
  {
    if o == [] then 0 else (if o[0].Some? then 1 else 0) + CountSome(o[1..])
  }

  /** `chain_optional_iter(required, optional)`: `required.map(Some).chain(optional).flatten()`. */
  function ChainOptionalIter<T>(required: seq<T>, optional: seq<Option<T>>): (r: seq<T>)
    ensures |r| == |required| + CountSome(optional)
    ensures r[..|required|] == required
    ensures r[|required|..] == Flatten(optional)
  {
    FlattenAppend(Lift(required), optional);
    FlattenLift(required);
    FlattenLength(optional);
    Flatten(Lift(required) + optional)
  }

  lemma {:induction false} FlattenAppend<T>(a: seq<Option<T>>, b: seq<Option<T>>)
    ensures Flatten(a + b) == Flatten(a) + Flatten(b)
  {
    if a == [] {
      assert a + b == b;
    } else {
      assert (a + b)[0] == a[0];
      assert (a + b)[1..] == a[1..] + b;
      FlattenAppend(a[1..], b);
    }
  }

  /** Flattening wrapped values gives back the values. */
  lemma {:induction false} FlattenLift<T>(s: seq<T>)
    ensures Flatten(Lift(s)) == s
  {
    if s != [] {
      FlattenLift(s[1..]);
      assert Lift(s)[1..] == Lift(s[1..]);
    }
  }

  /** One output element per `Some`, none per `None`. */
  lemma {:induction false} FlattenLength<T>(o: seq<Option<T>>)
    ensures |Flatten(o)| == CountSome(o)
  {
    if o != [] {
      FlattenLength(o[1..]);
    }
  }

  lemma {:induction false} CountSomeAppend<T>(a: seq<Option<T>>, b: seq<Option<T>>)
    ensures CountSome(a + b) == CountSome(a) + CountSome(b)
  {
    if a == [] {
      assert a + b == b;
    } else {
      assert (a + b)[0] == a[0];
      assert (a + b)[1..] == a[1..] + b;
      CountSomeAppend(a[1..], b);
    }
  }

  /**
   * The `Some` at position `i` of `o` lands at output position "number of
   * `Some`s before `i`": each payload appears, in the order of `o`.
   */
  lemma {:induction false} FlattenAt<T>(o: seq<Option<T>>, i: nat)
    requires i < |o| && o[i].Some?
    ensures CountSome(o[..i]) < |Flatten(o)|
    ensures Flatten(o)[CountSome(o[..i])] == o[i].value
  {
    FlattenLength(o);
    if i == 0 {
      assert o[..0] == [];
    } else {
      assert o[..i][1..] == o[1..][..i - 1];
      FlattenAt(o[1..], i - 1);
      FlattenLength(o[1..]);
    }
  }

  /** Later `Some`s land strictly later in the output. */
  lemma {:induction false} SomePositionsIncrease<T>(o: seq<Option<T>>, i: nat, j: nat)
    requires i < j <= |o| && o[i].Some?
    ensures CountSome(o[..i]) < CountSome(o[..j])
  {
    assert o[..j] == o[..i] + o[i..j];
    assert o[i..j] == [o[i]] + o[i + 1..j];
    CountSomeAppend(o[..i], o[i..j]);
    CountSomeAppend([o[i]], o[i + 1..j]);
  }

  /** Every output element comes from some `Some` of `o`, at the position FlattenAt gives. */
  lemma {:induction false} FlattenOrigin<T>(o: seq<Option<T>>, k: nat)
    requires k < |Flatten(o)|
    ensures exists i :: 0 <= i < |o| && o[i].Some? && CountSome(o[..i]) == k && o[i].value == Flatten(o)[k]
  {
    assert o[..0] == [];
    match o[0]
    case Some(x) =>
      if k > 0 {
        FlattenOrigin(o[1..], k - 1);
        var i :| 0 <= i < |o[1..]| && o[1..][i].Some? && CountSome(o[1..][..i]) == k - 1
          && o[1..][i].value == Flatten(o[1..])[k - 1];
        assert o[..i + 1][1..] == o[1..][..i];
        assert o[i + 1] == o[1..][i];
      }
    case None =>
      FlattenOrigin(o[1..], k);
      var i :| 0 <= i < |o[1..]| && o[1..][i].Some? && CountSome(o[1..][..i]) == k
        && o[1..][i].value == Flatten(o[1..])[k];
      assert o[..i + 1][1..] == o[1..][..i];
      assert o[i + 1] == o[1..][i];
  }

  /** A value is in the flattening exactly when `Some` of it is in `o`. */
  lemma FlattenMembership<T>(o: seq<Option<T>>, x: T)
    ensures x in Flatten(o) <==> Some(x) in o
  {
    if x in Flatten(o) {
      var k :| 0 <= k < |Flatten(o)| && Flatten(o)[k] == x;
      FlattenOrigin(o, k);
    }
    if Some(x) in o {
      var i :| 0 <= i < |o| && o[i] == Some(x);
      FlattenAt(o, i);
    }
  }

  /** The output's elements are exactly the required values and the present optional values. */
  lemma ChainMembership<T>(required: seq<T>, optional: seq<Option<T>>, x: T)
    ensures x in ChainOptionalIter(required, optional) <==> x in required || Some(x) in optional
  {
    var r := ChainOptionalIter(required, optional);
    assert r == r[..|required|] + r[|required|..];
    FlattenMembership(optional, x);
  }

  /** The `Some` at position `i` of `optional` is at position `|required| + CountSome(optional[..i])` of the output. */
  lemma ChainOptionalAt<T>(required: seq<T>, optional: seq<Option<T>>, i: nat)
    requires i < |optional| && optional[i].Some?
    ensures |required| + CountSome(optional[..i]) < |ChainOptionalIter(required, optional)|
    ensures ChainOptionalIter(required, optional)[|required| + CountSome(optional[..i])] == optional[i].value
  {
    var r := ChainOptionalIter(required, optional);
    FlattenAt(optional, i);
    assert r[|required|..][CountSome(optional[..i])] == optional[i].value;
  }

  /** With no `Some` in `optional` (in particular, with `optional` empty) the output is `required`. */
  lemma {:induction false} ChainAllNone<T>(required: seq<T>, optional: seq<Option<T>>)
    requires forall i :: 0 <= i < |optional| ==> optional[i].None?
    ensures ChainOptionalIter(required, optional) == required
  {
    NoSomeCountsZero(optional);
  }

  lemma {:induction false} NoSomeCountsZero<T>(o: seq<Option<T>>)
    requires forall i :: 0 <= i < |o| ==> o[i].None?
    ensures CountSome(o) == 0
  {
    if o != [] {
      assert forall i :: 0 <= i < |o[1..]| ==> o[1..][i] == o[i + 1];
      NoSomeCountsZero(o[1..]);
    }
  }

  /**
   * An order-keeping filter, stated by positions: `r` has one element per
   * `Some` of `o`, and the `Some` at position `i` is element number "how many
   * `Some`s come before `i`".
   */
  ghost predicate IsPresentValues<T>(r: seq<T>, o: seq<Option<T>>) {
    && |r| == CountSome(o)
    && forall i :: 0 <= i < |o| && o[i].Some? ==> CountSome(o[..i]) < |r| && r[CountSome(o[..i])] == o[i].value
  }

  /** The flattening is the one and only sequence of the present values in order. */
  lemma FlattenIsPresentValues<T>(r: seq<T>, o: seq<Option<T>>)
    ensures IsPresentValues(r, o) <==> r == Flatten(o)
  {
    FlattenLength(o);
    forall i | 0 <= i < |o| && o[i].Some?
      ensures CountSome(o[..i]) < |Flatten(o)| && Flatten(o)[CountSome(o[..i])] == o[i].value
    {
      FlattenAt(o, i);
    }
    if IsPresentValues(r, o) {
      forall k | 0 <= k < |r|
        ensures r[k] == Flatten(o)[k]
      {
        FlattenOrigin(o, k);
      }
    }
  }

  /** With `required` empty the output is the present optional values, in order. */
  lemma NoRequiredIsFlattening<T>(optional: seq<Option<T>>)
    ensures IsPresentValues(ChainOptionalIter([], optional), optional)
  {
    FlattenIsPresentValues(ChainOptionalIter([], optional), optional);
  }

  // ---------------------------------------------------------------------
  // uuid_to_bytes
  // ---------------------------------------------------------------------

  /**
   * `uuid_to_bytes`: the UUID's 16 octets, copied. They are the big-endian
   * encoding of its 128-bit value, and they determine the UUID.
   */
  function UuidToBytes(u: Uuid.Uuid): (r: seq<Uuid.u8>)
    ensures |r| == 16 && forall i :: 0 <= i < 16 ==> r[i] == u.bytes[i]
    ensures r == Uuid.BigEndianBytes(Uuid.Value(u), 16)
    ensures Uuid.BigEndianValue(r) == Uuid.Value(u)
  {
    Uuid.BytesOfValue(u.bytes);
    u.bytes[..]
  }

  /** Different UUIDs give different byte vectors. */
  lemma UuidToBytesInjective(u: Uuid.Uuid, w: Uuid.Uuid)
    requires UuidToBytes(u) == UuidToBytes(w)
    ensures u == w
  {
    Uuid.FromValueOfValue(u);
    Uuid.FromValueOfValue(w);
  }

  /** Every 128-bit value is reached: the bytes of the UUID with value `v` read back as `v`. */
  lemma UuidToBytesOfValue(v: nat)
    requires v < Uuid.Pow256(16)
    ensures Uuid.BigEndianValue(UuidToBytes(Uuid.FromValue(v))) == v
  {
  }

  // ---------------------------------------------------------------------
  // write_storedkey_to_db
  // ---------------------------------------------------------------------

  /** A field of `StoredKey` whose type comes from `sd_crypto` and is stored as JSON text; known here by its variant name. */
  datatype CryptoAttr = CryptoAttr(variant: string)

  /** `sd_crypto`'s `StoredKey`, as far as the write uses it. */
  datatype StoredKey = StoredKey(
    uuid: Uuid.Uuid,
    version: CryptoAttr,
    keyType: CryptoAttr,
    algorithm: CryptoAttr,
    hashingAlgorithm: CryptoAttr,
    contentSalt: seq<Uuid.u8>,
    masterKey: seq<Uuid.u8>,
    masterKeyNonce: seq<Uuid.u8>,
    keyNonce: seq<Uuid.u8>,
    key: seq<Uuid.u8>,
    salt: seq<Uuid.u8>,
    memoryOnly: bool)

  /** An optional-column setter of the generated `key().create(...)`; the write passes none. */
  datatype SetParam = SetParam(column: string)

  /** The arguments of one `db.key().create(...)` call, in the order the call takes them. */
  datatype KeyCreate = KeyCreate(
    uuid: string,
    version: string,
    keyType: string,
    algorithm: string,
    hashingAlgorithm: string,
    contentSalt: seq<Uuid.u8>,
    masterKey: seq<Uuid.u8>,
    masterKeyNonce: seq<Uuid.u8>,
    keyNonce: seq<Uuid.u8>,
    key: seq<Uuid.u8>,
    salt: seq<Uuid.u8>,
    params: seq<SetParam>)

  /** The opaque errors of `serde_json` and of the database client. */
  datatype SerdeError = SerdeError(message: string)
  datatype QueryError = QueryError(message: string)

  /** `LibraryManagerError`, as far as the write can produce it. */
  datatype LibraryManagerError = Serialisation(serde: SerdeError) | Query(query: QueryError)

  /** What one call of `write_storedkey_to_db` does: the creates it issues, then what it returns. */
  datatype WriteOutcome = WriteOutcome(issued: seq<KeyCreate>, result: Result<(), LibraryManagerError>)

  /** `serde_json::to_string` of one attribute, with the error converted by `?`. */
  function ToJson(toJson: CryptoAttr -> Result<string, SerdeError>, a: CryptoAttr): (r: Result<string, LibraryManagerError>)
  {
    match toJson(a)
    case Success(s) => Success(s)
    case Failure(e) => Failure(Serialisation(e))
  }

  /**
   * The create request for `key`, with its four JSON fields serialised in
   * argument order; the first serialisation that fails is the error.
   */
  function KeyCreateFor(key: StoredKey, toJson: CryptoAttr -> Result<string, SerdeError>): (r: Result<KeyCreate, LibraryManagerError>)
    ensures r.Success? <==> SerialisesAll(key, toJson)
    ensures r.Success? ==> r.value.uuid == Uuid.Hyphenated(key.uuid) && r.value.params == []
    ensures r.Success? ==> RequestCarries(r.value, key, toJson)
    ensures r.Failure? ==> r.error == FirstSerialisationError(key, toJson)
  {
    var version :- ToJson(toJson, key.version);
    var keyType :- ToJson(toJson, key.keyType);
    var algorithm :- ToJson(toJson, key.algorithm);
    var hashingAlgorithm :- ToJson(toJson, key.hashingAlgorithm);
    Success(KeyCreate(
      Uuid.Hyphenated(key.uuid), version, keyType, algorithm, hashingAlgorithm,
      key.contentSalt, key.masterKey, key.masterKeyNonce, key.keyNonce, key.key, key.salt,
      []))
  }

  /** All four JSON fields of `key` serialise. */
  predicate SerialisesAll(key: StoredKey, toJson: CryptoAttr -> Result<string, SerdeError>) {
    toJson(key.version).Success? && toJson(key.keyType).Success? &&
    toJson(key.algorithm).Success? && toJson(key.hashingAlgorithm).Success?
  }

  /** The error of the first of the four JSON fields, in argument order, that fails to serialise. */
  function FirstSerialisationError(key: StoredKey, toJson: CryptoAttr -> Result<string, SerdeError>): (e: LibraryManagerError)
    requires !SerialisesAll(key, toJson)
  {
    if toJson(key.version).Failure? then Serialisation(toJson(key.version).error)
    else if toJson(key.keyType).Failure? then Serialisation(toJson(key.keyType).error)
    else if toJson(key.algorithm).Failure? then Serialisation(toJson(key.algorithm).error)
    else Serialisation(toJson(key.hashingAlgorithm).error)
  }

  /** `req` carries each of `key`'s fields in its own argument position. */
  predicate RequestCarries(req: KeyCreate, key: StoredKey, toJson: CryptoAttr -> Result<string, SerdeError>)
    requires SerialisesAll(key, toJson)
  {
    && req.version == toJson(key.version).value
    && req.keyType == toJson(key.keyType).value
    && req.algorithm == toJson(key.algorithm).value
    && req.hashingAlgorithm == toJson(key.hashingAlgorithm).value
    && req.contentSalt == key.contentSalt
    && req.masterKey == key.masterKey
    && req.masterKeyNonce == key.masterKeyNonce
    && req.keyNonce == key.keyNonce
    && req.key == key.key
    && req.salt == key.salt
  }

  /**
   * `write_storedkey_to_db(db, key)`. `toJson` stands for `serde_json::to_string`
   * and `exec` for what the database answers to a create.
   */
  function WriteStoredKeyToDb(
    key: StoredKey,
    toJson: CryptoAttr -> Result<string, SerdeError>,
    exec: KeyCreate -> Result<(), QueryError>): (w: WriteOutcome)
    // a memory-only key is never written, and the call succeeds
    ensures key.memoryOnly ==> w.issued == [] && w.result == Success(())
    // at most one create, and only for a key that is not memory-only
    ensures |w.issued| <= 1
    ensures |w.issued| == 1 <==> !key.memoryOnly && SerialisesAll(key, toJson)
    // the create carries the key's UUID string first and no optional setters last
    ensures |w.issued| == 1 ==>
      && w.issued[0].uuid == Uuid.Hyphenated(key.uuid)
      && w.issued[0].params == []
      && RequestCarries(w.issued[0], key, toJson)
    // the call fails exactly when a serialisation fails or the database rejects the create
    ensures !key.memoryOnly && !SerialisesAll(key, toJson) ==> w.result == Failure(FirstSerialisationError(key, toJson))
    ensures |w.issued| == 1 ==>
      w.result == (if exec(w.issued[0]).Success? then Success(()) else Failure(Query(exec(w.issued[0]).error)))
  {
    if !key.memoryOnly then
      match KeyCreateFor(key, toJson)
      case Failure(e) => WriteOutcome([], Failure(e))
      case Success(req) =>
        match exec(req)
        case Success(_) => WriteOutcome([req], Success(()))
        case Failure(e) => WriteOutcome([req], Failure(Query(e)))
    else
      WriteOutcome([], Success(()))
  }

  /** The UUID column of an issued create determines the key's UUID. */
  lemma IssuedUuidIdentifiesKey(
    k1: StoredKey, k2: StoredKey,
    toJson: CryptoAttr -> Result<string, SerdeError>,
    exec: KeyCreate -> Result<(), QueryError>)
    requires |WriteStoredKeyToDb(k1, toJson, exec).issued| == 1
    requires |WriteStoredKeyToDb(k2, toJson, exec).issued| == 1
    requires WriteStoredKeyToDb(k1, toJson, exec).issued[0].uuid == WriteStoredKeyToDb(k2, toJson, exec).issued[0].uuid
    ensures k1.uuid == k2.uuid
  {
    Uuid.HyphenatedInjective(k1.uuid, k2.uuid);
  }

  /** A successful call wrote the key unless it was memory-only. */
  lemma SuccessMeansStoredOrSkipped(
    key: StoredKey,
    toJson: CryptoAttr -> Result<string, SerdeError>,
    exec: KeyCreate -> Result<(), QueryError>)
    requires WriteStoredKeyToDb(key, toJson, exec).result.Success?
    ensures key.memoryOnly || (|WriteStoredKeyToDb(key, toJson, exec).issued| == 1 &&
      exec(WriteStoredKeyToDb(key, toJson, exec).issued[0]).Success?)
  {
  }
}
