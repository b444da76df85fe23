/** The `POST /api/encrypt` handler: it checks the caller's public key, derives
    a fingerprint hash from the generation timestamp, writes a
    `{publicKey, hash}` record to the key store, encrypts a message carrying
    the hash and timestamp under the caller's key, and answers with the
    ciphertext as a file download or with a JSON error.

    The clock, the SHA-512 digest, the store's answer and RSA encryption are
    collaborators the handler cannot see into: they are parameters here. */
module EncryptRoute {
  import opened Wrappers
  import opened Strings
  import opened Message

  newtype byte = x: int | 0 <= x < 256

  /** Encapsulation boundaries of a PEM block labelled "PUBLIC KEY" (RFC 7468, section 13). */
  const BeginMarker: string := "-----BEGIN PUBLIC KEY-----"
  const EndMarker: string := "-----END PUBLIC KEY-----"

  const MissingKeyError: string := "Clé publique requise"
  const FormatError: string :=
    "Le format de la clé publique est invalide. Veuillez fournir une clé publique RSA au format PEM."
  const EncryptionError: string :=
    "Une erreur s'est produite lors du chiffrement du message. Veuillez vérifier le format de votre clé publique."
  const MaintainerError: string :=
    "Une erreur est survenue lors du chiffrement. Veuillez contacter le mainteneur du site pour plus d'informations"

  /** The padding the handler passes to the encryption: Node's RSA_PKCS1_PADDING,
      that is PKCS #1 v1.5 (RFC 8017, section 7.2), not OAEP. */
  const Pkcs1Padding: int := 1

  /** Bytes PKCS #1 v1.5 padding takes out of a k-byte modulus (RFC 8017, section 7.2.1). */
  const Pkcs1Overhead: nat := 11

  /** Headers of a successful response, in the order the handler sets them. */
  const DownloadHeaders: seq<(string, string)> := [
    ("Content-Disposition", "attachment; filename=\"message.enc\""),
    ("Content-Type", "application/octet-stream")
  ]

  /** The `publicKey` property of the parsed JSON body. Numbers, booleans and
      objects other than arrays are `NonString`, told apart only by JavaScript truthiness. */
  datatype KeyField = Undefined | Null | Text(text: string) | NonString(truthy: bool)

  /** The request as the handler sees it: a body whose destructuring throws
      (it is not JSON, or it is JSON `null`), or the `publicKey` property of
      one that destructures (`Undefined` when it has no such property). */
  datatype Request = Unparsable | Body(publicKey: KeyField)

  /** `!publicKey` in JavaScript. */
  predicate Falsy(f: KeyField) {
    match f
    case Undefined => true
    case Null => true
    case Text(s) => s == ""
    case NonString(truthy) => !truthy
  }

  /** Both PEM boundaries occur somewhere in `s`, in any order and any place. */
  predicate HasPemMarkers(s: string) {
    Includes(s, BeginMarker) && Includes(s, EndMarker)
  }

  /** How the key check ends: the key to use, or why there is none. `NotAString`
      is a truthy value without `.includes`, on which the check throws. */
  datatype KeyCheck = Accepted(key: string) | MissingKey | MalformedKey | NotAString

  /** The presence check, then the PEM marker check. */
  function CheckKey(f: KeyField): (c: KeyCheck)
    ensures c == MissingKey <==> Falsy(f)
    ensures c == NotAString <==> f == NonString(true)
    ensures c == MalformedKey <==>
      f.Text? && f.text != "" &&
      !((exists i :: OccursAt(f.text, BeginMarker, i)) && (exists j :: OccursAt(f.text, EndMarker, j)))
    ensures c.Accepted? <==>
      f.Text? && f.text != "" &&
      (exists i :: OccursAt(f.text, BeginMarker, i)) && (exists j :: OccursAt(f.text, EndMarker, j))
    ensures c.Accepted? ==> c.key == f.text
  {
    if Falsy(f) then MissingKey
    else if !f.Text? then NotAString
    else if HasPemMarkers(f.text) then Accepted(f.text)
    else MalformedKey
  }

  /** The record written to the key store. */
  datatype KeyRecord = KeyRecord(publicKey: string, hash: string)

  /** The arguments of one call to `publicEncrypt`. */
  datatype EncryptRequest = EncryptRequest(key: string, padding: int, plaintext: string)

  /** What the handler answers: a JSON `{ error }` body with a status, or the
      ciphertext as an attachment with the default status. */
  datatype Response =
    | JsonError(status: nat, error: string)
    | Attachment(body: seq<byte>, headers: seq<(string, string)>)
  {
    function Status(): nat {
      if JsonError? then status else 200
    }
  }

  /** The handler's calls to its collaborators, in order: reading the clock
      and digesting the timestamp, asking the store to create a record (and
      whether it did), and encrypting. */
  datatype Effect =
    | Digest(timestamp: string, hash: string)
    | StoreCreate(record: KeyRecord, accepted: bool)
    | Encrypt(request: EncryptRequest)

  datatype Outcome = Outcome(response: Response, effects: seq<Effect>)

  /** The records a trace leaves in the store, oldest first. */
  function Written(effects: seq<Effect>): seq<KeyRecord> {
    if effects == [] then []
    else
      var last := effects[|effects| - 1];
      Written(effects[..|effects| - 1]) + if last.StoreCreate? && last.accepted then [last.record] else []
  }

  /** The encryptions a trace attempts, in order. */
  function Encryptions(effects: seq<Effect>): seq<EncryptRequest> {
    if effects == [] then []
    else
      var last := effects[|effects| - 1];
      Encryptions(effects[..|effects| - 1]) + if last.Encrypt? then [last.request] else []
  }

  /** Appending one effect extends the records written and the encryptions
      attempted by what that effect does. */
  lemma TraceAppend(effects: seq<Effect>, e: Effect)
    ensures Written(effects + [e]) == Written(effects) + if e.StoreCreate? && e.accepted then [e.record] else []
    ensures Encryptions(effects + [e]) == Encryptions(effects) + if e.Encrypt? then [e.request] else []
  {
    assert (effects + [e])[..|effects|] == effects;
  }

  /** Every encryption comes after a store write the store accepted, and every
      store write after the digest of the hash it carries. */
  predicate WriteBeforeEncrypt(effects: seq<Effect>) {
    && (forall j :: 0 <= j < |effects| && effects[j].Encrypt? ==>
          exists i :: 0 <= i < j && effects[i].StoreCreate? && effects[i].accepted)
    && (forall j :: 0 <= j < |effects| && effects[j].StoreCreate? ==>
          exists i :: 0 <= i < j && effects[i].Digest? && effects[i].hash == effects[j].record.hash)
  }

  /** The request reaches the fingerprint step. */
  predicate KeyAccepted(request: Request) {
    request.Body? && CheckKey(request.publicKey).Accepted?
  }

  /** The message encrypted for `key` when the clock reads `timestamp`. */
  function MessageRequest(key: string, timestamp: string, digest: string -> string): EncryptRequest {
    EncryptRequest(key, Pkcs1Padding, Compose(digest(timestamp), timestamp))
  }

  /** What the handler does with a key that passed both checks: the
      fingerprint, the store write, the message and its encryption. The record
      is written once, with the key as given and the digest of the timestamp;
      the message is encrypted only once the store has accepted the record;
      the ciphertext is answered exactly when the store and the encryption
      both succeed, and either failure gives the same answer. */
  function EncryptForKey(key: string, timestamp: string, digest: string -> string,
                         storeAccepts: bool, cipher: EncryptRequest -> Option<seq<byte>>): (o: Outcome)
    ensures Written(o.effects) == if storeAccepts then [KeyRecord(key, digest(timestamp))] else []
    ensures Encryptions(o.effects) == if storeAccepts then [MessageRequest(key, timestamp, digest)] else []
    ensures WriteBeforeEncrypt(o.effects)
    ensures o.response.Attachment? <==> storeAccepts && cipher(MessageRequest(key, timestamp, digest)).Some?
    ensures o.response.Attachment? ==>
      o.response.body == cipher(MessageRequest(key, timestamp, digest)).value &&
      o.response.headers == DownloadHeaders && o.response.Status() == 200
    ensures !o.response.Attachment? ==> o.response == JsonError(400, EncryptionError)
  {
    var hash := digest(timestamp);
    var record := KeyRecord(key, hash);
    var written := [Digest(timestamp, hash)] + [StoreCreate(record, storeAccepts)];
    TraceAppend([], Digest(timestamp, hash));
    TraceAppend([Digest(timestamp, hash)], StoreCreate(record, storeAccepts));
    if !storeAccepts then
      Outcome(JsonError(400, EncryptionError), written)
    else
      var message := MessageRequest(key, timestamp, digest);
      var effects := written + [Encrypt(message)];
      TraceAppend(written, Encrypt(message));
      match cipher(message)
      case None => Outcome(JsonError(400, EncryptionError), effects)
      case Some(ciphertext) => Outcome(Attachment(ciphertext, DownloadHeaders), effects)
  }

  /** The whole handler as a function of the request and of what its
      collaborators answer: `timestamp` is the clock's ISO-8601 reading,
      `digest` the hex SHA-512 of a string, `storeAccepts` whether the store
      creates the record, `cipher` the outcome of `publicEncrypt`. A request
      the checks reject is answered without digesting, writing or encrypting. */
  function Handle(request: Request, timestamp: string, digest: string -> string,
                  storeAccepts: bool, cipher: EncryptRequest -> Option<seq<byte>>): (o: Outcome)
    ensures request.Body? && Falsy(request.publicKey) ==>
      o == Outcome(JsonError(400, MissingKeyError), [])
    ensures request.Body? && CheckKey(request.publicKey) == MalformedKey ==>
      o == Outcome(JsonError(400, FormatError), [])
    ensures request.Unparsable? || request.publicKey == NonString(true) ==>
      o == Outcome(JsonError(500, MaintainerError), [])
    ensures KeyAccepted(request) ==>
      o == EncryptForKey(request.publicKey.text, timestamp, digest, storeAccepts, cipher)
    ensures WriteBeforeEncrypt(o.effects)
    ensures o.response.Attachment? ==> KeyAccepted(request)
  {
    match request
    case Unparsable => Outcome(JsonError(500, MaintainerError), [])
    case Body(field) =>
      match CheckKey(field)
      case MissingKey => Outcome(JsonError(400, MissingKeyError), [])
      case MalformedKey => Outcome(JsonError(400, FormatError), [])
      case NotAString => Outcome(JsonError(500, MaintainerError), [])
      case Accepted(key) => EncryptForKey(key, timestamp, digest, storeAccepts, cipher)
  }

  /** The order and the place of the two boundaries, and what lies between or
      around them, are not checked: even a footer that comes first is accepted. */
  lemma MarkersAnywhereAccepted(before: string, between: string, after: string)
    ensures var key := before + EndMarker + between + BeginMarker + after;
      CheckKey(Text(key)) == Accepted(key)
  {
    var key := before + EndMarker + between + BeginMarker + after;
    var b := |before| + |EndMarker| + |between|;
    assert key == before + EndMarker + (between + BeginMarker + after);
    assert OccursAt(key, EndMarker, |before|);
    assert key == (before + EndMarker + between) + BeginMarker + after;
    assert OccursAt(key, BeginMarker, b);
  }

  /** For an accepted key, the hash written to the store is the hash the
      encrypted message carries, next to the timestamp it was derived from;
      when the digest has no line feed (a hex digest has none) both read back
      out of the message unchanged. */
  lemma EncryptForKeyHashConsistency(key: string, timestamp: string, digest: string -> string,
                                     storeAccepts: bool, cipher: EncryptRequest -> Option<seq<byte>>)
    ensures var o := EncryptForKey(key, timestamp, digest, storeAccepts, cipher);
      forall r, q :: r in Written(o.effects) && q in Encryptions(o.effects) ==>
        && Includes(q.plaintext, HashLabel + r.hash)
        && Includes(q.plaintext, TimeLabel + timestamp)
        && ('\n' !in r.hash ==> Parse(q.plaintext) == Some(Fingerprint(r.hash, timestamp)))
  {
    var hash := digest(timestamp);
    if '\n' !in hash {
      ParseCompose(hash, timestamp);
    }
  }

  /** For every request the handler answers, the hash written to the store is
      the hash the encrypted message carries, next to the timestamp it was
      derived from, and both read back out of the message unchanged when the
      digest has no line feed. */
  lemma HashConsistency(request: Request, timestamp: string, digest: string -> string,
                        storeAccepts: bool, cipher: EncryptRequest -> Option<seq<byte>>)
    ensures var o := Handle(request, timestamp, digest, storeAccepts, cipher);
      forall r, q :: r in Written(o.effects) && q in Encryptions(o.effects) ==>
        && Includes(q.plaintext, HashLabel + r.hash)
        && Includes(q.plaintext, TimeLabel + timestamp)
        && ('\n' !in r.hash ==> Parse(q.plaintext) == Some(Fingerprint(r.hash, timestamp)))
  {
    if KeyAccepted(request) {
      EncryptForKeyHashConsistency(request.publicKey.text, timestamp, digest, storeAccepts, cipher);
    }
  }

  /** RFC 8017, section 7.2.1: PKCS #1 v1.5 encryption under `key`, whose
      modulus has `k` bytes, fails ("message too long") for a message of more
      than k - 11 bytes. Other keys are left unconstrained. */
  ghost predicate RejectsOverlong(cipher: EncryptRequest -> Option<seq<byte>>, key: string, k: nat) {
    forall r: EncryptRequest ::
      r.key == key && r.padding == Pkcs1Padding && Utf8Length(r.plaintext) + Pkcs1Overhead > k ==> cipher(r) == None
  }

  /** The message is at least 407 characters before the hash and the timestamp,
      so a key whose modulus is under 418 + |hash| + |timestamp| bytes never gets
      a ciphertext: not a 2048-bit or 3072-bit key for any digest, nor a 4096-bit
      key with a 128-digit hex digest and a 24-character ISO-8601 timestamp. */
  lemma ShortModulusNeverSucceeds(key: string, timestamp: string, digest: string -> string,
                                  storeAccepts: bool, cipher: EncryptRequest -> Option<seq<byte>>, k: nat)
    requires RejectsOverlong(cipher, key, k)
    requires k < 418 + |digest(timestamp)| + |timestamp|
    ensures Handle(Body(Text(key)), timestamp, digest, storeAccepts, cipher).response.JsonError?
  {
    if KeyAccepted(Body(Text(key))) && storeAccepts {
      var message := MessageRequest(key, timestamp, digest);
      assert |Preamble| == 390;
      assert |message.plaintext| == 407 + |digest(timestamp)| + |timestamp|;
      assert cipher(message) == None;
    }
  }

  /** The key store: an append-only table of records. Whether a `create`
      succeeds is decided outside the handler and given as `accepts`. */
  class KeyStore {
    var records: seq<KeyRecord>

    constructor ()
      ensures records == []
    {
      records := [];
    }

    /** `prisma.publicKey.create`: appends the record when the store accepts it,
        leaves the store as it was when it fails. */
    method Create(record: KeyRecord, accepts: bool) returns (ok: bool)
      modifies this
      ensures ok == accepts
      ensures records == if ok then old(records) + [record] else old(records)
    {
      ok := accepts;
      if ok {
        records := records + [record];
      }
    }
  }

  /** The handler, step by step with its early returns. It answers as `Handle`
      says, calls its collaborators in the order of `Handle`'s trace, and the
      only change to the store is the record that trace writes. */
  method Post(request: Request, store: KeyStore, timestamp: string, digest: string -> string,
              storeAccepts: bool, cipher: EncryptRequest -> Option<seq<byte>>)
    returns (response: Response, ghost effects: seq<Effect>)
    modifies store
    ensures response == Handle(request, timestamp, digest, storeAccepts, cipher).response
    ensures effects == Handle(request, timestamp, digest, storeAccepts, cipher).effects
    ensures store.records == old(store.records) + Written(effects)
  {
    effects := [];
    if request.Unparsable? {
      return JsonError(500, MaintainerError), effects;
    }
    var publicKey := request.publicKey;
    if Falsy(publicKey) {
      return JsonError(400, MissingKeyError), effects;
    }
    if !publicKey.Text? {
      // `.includes` is not a function of a number, a boolean or an object
      return JsonError(500, MaintainerError), effects;
    }
    var key := publicKey.text;
    if !Includes(key, BeginMarker) || !Includes(key, EndMarker) {
      return JsonError(400, FormatError), effects;
    }

    var hash := digest(timestamp);
    effects := effects + [Digest(timestamp, hash)];

    var record := KeyRecord(key, hash);
    var ok := store.Create(record, storeAccepts);
    TraceAppend(effects, StoreCreate(record, ok));
    effects := effects + [StoreCreate(record, ok)];
    if !ok {
      return JsonError(400, EncryptionError), effects;
    }

    var secretMessage := Compose(hash, timestamp);
    var encryptRequest := EncryptRequest(key, Pkcs1Padding, secretMessage);
    var encrypted := cipher(encryptRequest);
    TraceAppend(effects, Encrypt(encryptRequest));
    effects := effects + [Encrypt(encryptRequest)];
    if encrypted.None? {
      return JsonError(400, EncryptionError), effects;
    }
    response := Attachment(encrypted.value, DownloadHeaders);
  }
}
