/** The few JavaScript string operations the encrypt route relies on:
    substring search (`String.prototype.includes`), the search for a line
    break that reading the message back needs, and the length of a string's
    UTF-8 encoding (`Buffer.from(s, "utf8")`). */
module Strings {
  import opened Wrappers

  /** `sub` occurs in `s` at index `i`. */
  predicate OccursAt(s: string, sub: string, i: int) {
    0 <= i && i + |sub| <= |s| && s[i..i + |sub|] == sub
  }

  /** An occurrence in `s` away from its first index is an occurrence in `s[1..]`, one place earlier. */
  lemma OccursShifted(s: string, sub: string)
    requires |s| > 0
    ensures forall i :: OccursAt(s[1..], sub, i) ==> OccursAt(s, sub, i + 1)
    ensures forall i :: OccursAt(s, sub, i) && i != 0 ==> OccursAt(s[1..], sub, i - 1)
  {
    forall i | OccursAt(s[1..], sub, i) ensures OccursAt(s, sub, i + 1) {
      assert s[1..][i..i + |sub|] == s[i + 1..i + 1 + |sub|];
    }
    forall i | OccursAt(s, sub, i) && i != 0 ensures OccursAt(s[1..], sub, i - 1) {
      assert s[1..][i - 1..i - 1 + |sub|] == s[i..i + |sub|];
    }
  }

  /** `s.includes(sub)`: true exactly when `sub` occurs somewhere in `s`;
      the empty string occurs in every string. */
  function Includes(s: string, sub: string): (r: bool)
    ensures r <==> exists i :: OccursAt(s, sub, i)
    decreases |s|
  {
    if |s| < |sub| then
      false
    else if s[..|sub|] == sub then
      assert OccursAt(s, sub, 0);
      true
    else
      OccursShifted(s, sub);
      assert !OccursAt(s, sub, 0);
      Includes(s[1..], sub)
  }

  /** `s` without its leading `prefix`, when it starts with one. */
  function StripPrefix(prefix: string, s: string): (r: Option<string>)
    ensures r.Some? <==> |prefix| <= |s| && s[..|prefix|] == prefix
    ensures r.Some? ==> s == prefix + r.value
  {
    if |prefix| <= |s| && s[..|prefix|] == prefix then
      assert s == prefix + s[|prefix|..];
      Some(s[|prefix|..])
    else
      None
  }

  lemma StripPrefixOf(prefix: string, rest: string)
    ensures StripPrefix(prefix, prefix + rest) == Some(rest)
  {
    var s := prefix + rest;
    assert s[..|prefix|] == prefix;
    assert s[|prefix|..] == rest;
  }

  /** `s` cut at its first line feed: the line before it and all after it,
      or nothing when `s` holds no line feed. */
  function SplitLine(s: string): (r: Option<(string, string)>)
    ensures r.Some? ==> '\n' !in r.value.0 && s == r.value.0 + ("\n" + r.value.1)
    ensures r.None? ==> '\n' !in s
  {
    if s == [] then
      None
    else if s[0] == '\n' then
      Some(([], s[1..]))
    else
      match SplitLine(s[1..])
      case None => None
      case Some((line, rest)) =>
        assert s == [s[0]] + s[1..];
        Some(([s[0]] + line, rest))
  }

  /** A line without a line feed is split off exactly. */
  lemma {:induction false} SplitLineOf(line: string, rest: string)
    requires '\n' !in line
    ensures SplitLine(line + ("\n" + rest)) == Some((line, rest))
  {
    var s := line + ("\n" + rest);
    if line == [] {
      assert s == "\n" + rest;
    } else {
      assert line[0] in line;
      assert s[1..] == line[1..] + ("\n" + rest);
      assert '\n' !in line[1..] by {
        forall k | 0 <= k < |line[1..]| ensures line[1..][k] != '\n' {
          assert line[1..][k] == line[k + 1];
          assert line[k + 1] in line;
        }
      }
      SplitLineOf(line[1..], rest);
      assert [s[0]] + line[1..] == line;
    }
  }

  /** Number of bytes UTF-8 uses for one Unicode scalar value. */
  function Utf8Width(c: char): (w: nat)
    ensures 1 <= w <= 4
    ensures w == 1 <==> c as int < 0x80
  {
    if c as int < 0x80 then 1
    else if c as int < 0x800 then 2
    else if c as int < 0x1_0000 then 3
    else 4
  }

  /** Length in bytes of the UTF-8 encoding of `s`: never fewer bytes than
      characters, never more than four per character. */
  function Utf8Length(s: string): (n: nat)
    ensures |s| <= n <= 4 * |s|
  {
    if s == [] then 0 else Utf8Width(s[0]) + Utf8Length(s[1..])
  }
}
