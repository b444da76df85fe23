/** The plaintext the encrypt route builds for each request: a fixed cover
    text, then a line holding the fingerprint hash and a line holding the
    generation timestamp, and its inverse, which reads the two back. */
module Message {
  import opened Wrappers
  import opened Strings

  /** Cover text that opens every message, up to and including the blank line. */
  const Preamble: string :=
    "Voici le contenu du message:\nPinguinum " +
    "lorem ipsum dolor pinguinor sit amet, " +
    "pinguinorum consectetur adipiscing " +
    "elit. Vivamus pinguinatus lectus, " +
    "pinguinellus vel pinguinorum et, " +
    "tincidunt pinguinicus nulla. Ut " +
    "pinguinibus arcu, bibendum pinguini " +
    "sapien. Sed pinguinator purus, porta " +
    "pinguini hendrerit non, aliquet " +
    "pinguinibus elit. Cras pinguinibus orci " +
    "ac felis pinguinellus fermentum.\n\n"
  const HashLabel: string := "Hash: "
  const TimeLabel: string := "Généré à: "

  /** Hash and timestamp a message carries. */
  datatype Fingerprint = Fingerprint(hash: string, timestamp: string)

  /** The message layout for any cover text: the cover, then `"Hash: " + hash`
      and a line feed, then `"Généré à: " + timestamp`. */
  function Layout(cover: string, hash: string, timestamp: string): (m: string)
    ensures |cover| <= |m| && m[..|cover|] == cover
    ensures OccursAt(m, HashLabel + hash, |cover|)
    ensures OccursAt(m, TimeLabel + timestamp, |cover| + |HashLabel| + |hash| + 1)
  {
    var m := cover + (HashLabel + (hash + ("\n" + (TimeLabel + timestamp))));
    assert m == cover + (HashLabel + hash) + "\n" + (TimeLabel + timestamp);
    m
  }

  /** The message the route encrypts for `hash` and `timestamp`: it holds
      `"Hash: " + hash` and `"Généré à: " + timestamp` as substrings. */
  function Compose(hash: string, timestamp: string): (m: string)
    ensures Includes(m, HashLabel + hash)
    ensures Includes(m, TimeLabel + timestamp)
  {
    Layout(Preamble, hash, timestamp)
  }

  /** Reads the hash and timestamp back out of a message laid out over
      `cover`: the hash is the rest of the line after the cover and "Hash: ",
      the timestamp all that follows "Généré à: " on the next line. Whatever
      it returns lays out back to exactly the message it read. */
  function ParseLayout(cover: string, m: string): (r: Option<Fingerprint>)
    ensures r.Some? ==> '\n' !in r.value.hash
    ensures r.Some? ==> Layout(cover, r.value.hash, r.value.timestamp) == m
  {
    match StripPrefix(cover, m)
    case None => None
    case Some(afterCover) =>
      match StripPrefix(HashLabel, afterCover)
      case None => None
      case Some(afterLabel) =>
        match SplitLine(afterLabel)
        case None => None
        case Some((hash, nextLine)) =>
          match StripPrefix(TimeLabel, nextLine)
          case None => None
          case Some(timestamp) => Some(Fingerprint(hash, timestamp))
  }

  /** Reads the fingerprint back out of a decrypted message: a result always
      composes back to exactly the message read. */
  function Parse(m: string): (r: Option<Fingerprint>)
    ensures r.Some? ==> '\n' !in r.value.hash && Compose(r.value.hash, r.value.timestamp) == m
  {
    ParseLayout(Preamble, m)
  }

  /** Round trip over any cover text: a hash without a line feed and any
      timestamp are read back unchanged. */
  lemma ParseLayoutRoundTrip(cover: string, hash: string, timestamp: string)
    requires '\n' !in hash
    ensures ParseLayout(cover, Layout(cover, hash, timestamp)) == Some(Fingerprint(hash, timestamp))
  {
    var nextLine := TimeLabel + timestamp;
    var afterLabel := hash + ("\n" + nextLine);
    var afterCover := HashLabel + afterLabel;
    StripPrefixOf(cover, afterCover);
    StripPrefixOf(HashLabel, afterLabel);
    SplitLineOf(hash, nextLine);
    StripPrefixOf(TimeLabel, timestamp);
  }

  /** Round trip: a hash without a line feed (a hex digest has none) and any
      timestamp are read back unchanged from the message built from them. */
  lemma ParseCompose(hash: string, timestamp: string)
    requires '\n' !in hash
    ensures Parse(Compose(hash, timestamp)) == Some(Fingerprint(hash, timestamp))
  {
    ParseLayoutRoundTrip(Preamble, hash, timestamp);
  }
}
