# Encrypt route of the RSA cryptography lab

This project models the one server operation of the lab's web application:
`POST /api/encrypt`. A caller sends a PEM public key. The handler does these
steps in order:

1. It checks that the key is present and contains the `-----BEGIN PUBLIC KEY-----`
   and `-----END PUBLIC KEY-----` boundaries (RFC 7468, section 13).
2. It reads the clock and takes the SHA-512 hex digest of the timestamp as a
   fingerprint hash.
3. It asks the key store to create a `{publicKey, hash}` record.
4. It builds a fixed French cover message that ends with a `Hash: …` line and a
   `Généré à: …` line.
5. It encrypts that message under the caller's key.
6. It answers with the ciphertext as a `message.enc` download, or with a JSON
   `{ error }` body and status 400 or 500.

The model has four modules:

- `Strings`: the JavaScript string operations the handler relies on.
  `Includes` is `String.prototype.includes`, proved equivalent to "occurs at
  some index". It also has the prefix stripping and line splitting that reading
  the message back needs, and the length of the UTF-8 encoding that
  `Buffer.from(…, "utf8")` produces.
- `Message`: the message template (`Compose`, over the general `Layout`) and its
  inverse (`Parse`), with the round trip between them. The template is
  generic over its cover text; `Compose` supplies the handler's cover text.
- `EncryptRoute`: the handler in three parts.
  - `CheckKey` is the presence and marker check.
  - `EncryptForKey` covers what happens to an accepted key.
  - `Handle` is the whole handler as a function.

  `Handle` returns the response and the trace of the handler's calls to its
  collaborators (digest, store create, encrypt), in order. The `KeyStore` class
  is the append-only store. `Post` is the handler as an imperative method with
  its early returns. `Post` is proved to answer as `Handle` does and to change
  the store only by the record that `Handle`'s trace writes.
- `Wrappers`: an `Option` type.

The collaborators are parameters:

- The clock reading is a `timestamp` string.
- SHA-512 is an uninterpreted `digest: string -> string`.
- The store's answer to `create` is a `storeAccepts` flag.
- `publicEncrypt` is an uninterpreted `cipher: EncryptRequest -> Option<seq<byte>>`.
  Each call carries the key, the padding value and the plaintext.

The handler passes `padding: 1`. In Node that is `RSA_PKCS1_PADDING`, that is
PKCS #1 v1.5 encryption (RFC 8017, section 7.2). It is not OAEP (section 7.1),
although a comment in the code (route.ts:42) says OAEP. The model follows the
code and records the value 1.

PKCS #1 v1.5 can encrypt at most k - 11 bytes under a k-byte modulus (RFC 8017,
section 7.2.1). The message has 407 characters besides the hash and the
timestamp. So with that padding no key with a modulus under
418 + |hash| + |timestamp| bytes ever receives a ciphertext
(`ShortModulusNeverSucceeds`):

- This covers 2048-bit and 3072-bit keys for any digest.
- With a 128-digit hex digest and a 24-character ISO-8601 timestamp, it also
  covers 4096-bit keys.

A 2048-bit key therefore never receives a ciphertext from this code.

## Model

| member | source | states |
|---|---|---|
| `Strings.Includes` | src/app/api/encrypt/route.ts:14 | `s.includes(sub)` is true exactly when `sub` occurs at some index of `s` |
| `Strings.Utf8Length` | src/app/api/encrypt/route.ts:44 | the UTF-8 encoding handed to the encryption has at least one and at most four bytes per character |
| `Message.Layout` | src/app/api/encrypt/route.ts:32-36 | the message opens with the cover text, and `"Hash: " + hash` and `"Généré à: " + timestamp` occur at the two lines after it |
| `Message.Compose` | src/app/api/encrypt/route.ts:32-36 | the encrypted message holds `"Hash: " + hash` and `"Généré à: " + timestamp` as substrings |
| `Message.ParseLayout` | src/app/api/encrypt/route.ts:35-36 | whatever fingerprint is read back from a message lays out to exactly that message, and its hash has no line feed |
| `Message.Parse` | src/app/api/encrypt/route.ts:35-36 | a fingerprint read back from a message composes to exactly that message |
| `Message.ParseLayoutRoundTrip` | src/app/api/encrypt/route.ts:35-36 | a hash without a line feed and any timestamp are read back unchanged from their layout over any cover text |
| `Message.ParseCompose` | src/app/api/encrypt/route.ts:32-36 | the hash and timestamp are read back unchanged from the handler's message when the hash has no line feed |
| `EncryptRoute.CheckKey` | src/app/api/encrypt/route.ts:9-19 | a falsy key is missing; a truthy non-string is the throwing case; a non-empty string passes exactly when both PEM boundaries occur in it, and is otherwise malformed; a passing key is the string itself |
| `EncryptRoute.MarkersAnywhereAccepted` | src/app/api/encrypt/route.ts:14 | the order, place and surroundings of the boundaries are not checked: a key whose footer precedes its header passes |
| `EncryptRoute.EncryptForKey` | src/app/api/encrypt/route.ts:21-62 | exactly the record (key as given, digest of the timestamp) is written when the store accepts it, and none otherwise; the message with that hash and the padding value 1 is encrypted only after an accepted write; the answer is the ciphertext with the two download headers and status 200 exactly when store and encryption succeed, otherwise the same 400 encryption error for either failure |
| `EncryptRoute.Handle` | src/app/api/encrypt/route.ts:5-67 | missing key: 400 "Clé publique requise"; malformed key: 400 format message; unparsable body or non-string key: 500 maintainer message; each with no digest, write or encryption; an accepted key is processed as `EncryptForKey` says; every trace encrypts only after an accepted write, and a ciphertext answer needs an accepted key |
| `EncryptRoute.TraceAppend` | src/app/api/encrypt/route.ts:21-45 | one more collaborator call adds exactly its record or its encryption to those of the trace |
| `EncryptRoute.EncryptForKeyHashConsistency` | src/app/api/encrypt/route.ts:21-45 | for an accepted key, the hash written to the store and the timestamp it came from occur in the encrypted message, and they are read back out of it unchanged when the hash has no line feed |
| `EncryptRoute.HashConsistency` | src/app/api/encrypt/route.ts:5-67 | for every request the handler answers, the hash written to the store and the timestamp it came from occur in the encrypted message, and they are read back out of it unchanged when the hash has no line feed |
| `EncryptRoute.ShortModulusNeverSucceeds` | src/app/api/encrypt/route.ts:39-45 | if encryption under a key with a k-byte modulus refuses messages longer than k - 11 bytes, then for k under 418 + \|hash\| + \|timestamp\| every answer to a request carrying that key is an error, whatever other keys accept |
| `EncryptRoute.KeyStore.Create` | src/app/api/encrypt/route.ts:25-30 | the record is appended when the store accepts it, and the store is unchanged when it fails |
| `EncryptRoute.Post` | src/app/api/encrypt/route.ts:5-67 | the handler answers as `Handle` does, calls its collaborators in the order of `Handle`'s trace, and changes the store only by appending the records that trace writes |

## Left out

- SHA-512 (`createHash("sha512")`) is not modelled: the digest is an uninterpreted function of the timestamp.
- RSA encryption (`publicEncrypt`) is not modelled: its outcome is an uninterpreted function of the key, the padding value and the plaintext. Key parsing, randomness and the ciphertext bytes are outside the model. The length bound of PKCS #1 v1.5 enters only as a hypothesis of `ShortModulusNeverSucceeds`.
- The clock (`new Date().toISOString()`) is a timestamp string given to the handler; the model does not check that it is ISO-8601.
- The database behind the store (its schema, transactions and the reason a `create` fails) is not modelled; the store is a sequence of records and a success flag.
- Framework plumbing is not modelled: parsing the body with `request.json()`, building `NextResponse` objects, `console.error` logging, and the async scheduling of concurrent requests. The response is a plain datatype.
- The message is passed to the encryption as a string. Its UTF-8 bytes appear only through `Utf8Length`.
- EncryptRoute.Handle: a JSON array as `publicKey` is not modelled. Arrays have an `.includes` that compares elements, so such a key would reach the store. `KeyField` covers missing keys, `null`, strings, and other values by truthiness.
- The browser page that collects the key and saves the download (src/app/page.tsx) is presentation and is not part of this model.
- No lemma states the message's exact UTF-8 length (its fixed part is 411 bytes); `ShortModulusNeverSucceeds` uses only its 407 characters, so its bound is conservative by 4 bytes.
- Strings are sequences of Unicode scalar values, while JavaScript strings are sequences of UTF-16 code units: a key holding a lone surrogate (which a JSON `\uD800` escape can produce) cannot be represented. The marker check is unaffected, since the markers are ASCII.
