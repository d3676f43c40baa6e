/** The `ignorepatterns` setting: a `;`-separated list of globs, matched without
    regard to ASCII case. */
module IgnorePatterns {
  import opened Prelude
  import opened Text
  import opened Glob
  import GlobLaws
  import Utf8

  function Map(f: string -> string, pieces: seq<string>): seq<string> {
    if pieces == [] then [] else [f(pieces[0])] + Map(f, pieces[1..])
  }

  /** The non-blank entries of the setting. */
  function Entries(patterns: string): seq<string> {
    NonEmpty(Map(Trim, Split(patterns, ';')))
  }

  /** What one entry of the setting says about a name. */
  ghost predicate EntryMatches(name: string, entry: string) {
    Accepts(Lower(Encode(name)), Tokens(Lower(Encode(entry)), 0))
  }

  ghost predicate SomeEntryFrom(name: string, entries: seq<string>, i: nat)
    requires i <= |entries|
    decreases |entries| - i
  {
    i < |entries| && (EntryMatches(name, entries[i]) || SomeEntryFrom(name, entries, i + 1))
  }

  /** Some entry of the setting matches the name. */
  ghost predicate Ignores(name: string, patterns: string) {
    SomeEntryFrom(name, Entries(patterns), 0)
  }

  method TryEntry(name: string, lowered: Bytes, entry: string) returns (hit: bool)
    requires lowered == Lower(Encode(name))
    ensures hit <==> EntryMatches(name, entry)
  {
    var patBytes := Lower(Encode(entry));
    ghost var turns;
    hit, turns := MatchPattern(lowered, patBytes);
  }

  method TryEntries(name: string, lowered: Bytes, entries: seq<string>) returns (hit: bool)
    requires lowered == Lower(Encode(name))
    ensures hit <==> SomeEntryFrom(name, entries, 0)
  {
    for i := 0 to |entries|
      invariant SomeEntryFrom(name, entries, 0) == SomeEntryFrom(name, entries, i)
    {
      hit := TryEntry(name, lowered, entries[i]);
      if hit {
        return true;
      }
    }
    return false;
  }

  method IsNameIgnored(name: string, patterns: string) returns (ignored: bool)
    ensures ignored <==> Ignores(name, patterns)
  {
    ignored := TryEntries(name, Lower(Encode(name)), Entries(patterns));
  }

  lemma {:induction false} SomeEntryExists(name: string, entries: seq<string>, i: nat)
    requires i <= |entries|
    ensures SomeEntryFrom(name, entries, i) <==> exists j :: i <= j < |entries| && EntryMatches(name, entries[j])
    decreases |entries| - i
  {
    if i < |entries| {
      SomeEntryExists(name, entries, i + 1);
    }
  }

  lemma {:induction false} MapConcat(f: string -> string, a: seq<string>, b: seq<string>)
    ensures Map(f, a + b) == Map(f, a) + Map(f, b)
  {
    if a == [] {
      assert a + b == b;
    } else {
      assert (a + b)[1..] == a[1..] + b;
      MapConcat(f, a[1..], b);
    }
  }

  /** The entries of two joined settings are those of one and those of the other. */
  lemma EntriesConcat(left: string, right: string)
    ensures Entries(left + ";" + right) == Entries(left) + Entries(right)
  {
    SplitConcat(left, ';', right);
    MapConcat(Trim, Split(left, ';'), Split(right, ';'));
    NonEmptyConcat(Map(Trim, Split(left, ';')), Map(Trim, Split(right, ';')));
  }

  /** Joining two settings with `;` ignores exactly what either ignores. */
  lemma SettingsCombine(name: string, left: string, right: string)
    ensures Ignores(name, left + ";" + right) <==> Ignores(name, left) || Ignores(name, right)
  {
    EntriesConcat(left, right);
    SomeEntryConcat(name, Entries(left), Entries(right), 0);
  }

  lemma {:induction false} SomeEntryConcat(name: string, a: seq<string>, b: seq<string>, i: nat)
    requires i <= |a|
    ensures SomeEntryFrom(name, a + b, i) <==> SomeEntryFrom(name, a, i) || SomeEntryFrom(name, b, 0)
    decreases |a| - i
  {
    if i < |a| {
      SomeEntryConcat(name, a, b, i + 1);
    } else {
      SomeEntryShift(name, a, b, 0);
    }
  }

  lemma {:induction false} SomeEntryShift(name: string, a: seq<string>, b: seq<string>, i: nat)
    requires i <= |b|
    ensures SomeEntryFrom(name, a + b, |a| + i) <==> SomeEntryFrom(name, b, i)
    decreases |b| - i
  {
    if i < |b| {
      SomeEntryShift(name, a, b, i + 1);
    }
  }

  // ----- Case -----

  function LowerChar(c: char): char {
    if 'A' <= c <= 'Z' then (c as int + 32) as char else c
  }

  function LowerChars(s: string): string {
    if s == [] then [] else [LowerChar(s[0])] + LowerChars(s[1..])
  }

  lemma {:induction false} LowerConcat(a: Bytes, b: Bytes)
    ensures Lower(a + b) == Lower(a) + Lower(b)
  {
    if a == [] {
      assert a + b == b;
    } else {
      LowerConcat(a[1..], b);
      assert (a + b)[1..] == a[1..] + b;
      assert [LowerByte(a[0])] + (Lower(a[1..]) + Lower(b)) == ([LowerByte(a[0])] + Lower(a[1..])) + Lower(b);
    }
  }

  lemma LowerCharBytes(c: char)
    ensures Lower(EncodeChar(LowerChar(c))) == Lower(EncodeChar(c))
  {
    var bs := EncodeChar(c);
    if |bs| == 1 {
      assert bs[1..] == [] && EncodeChar(LowerChar(c))[1..] == [];
    }
  }

  lemma {:induction false} LowerEncode(s: string)
    ensures Lower(Encode(LowerChars(s))) == Lower(Encode(s))
  {
    if s != [] {
      LowerEncode(s[1..]);
      LowerCharBytes(s[0]);
      LowerConcat(EncodeChar(LowerChar(s[0])), Encode(LowerChars(s[1..])));
      LowerConcat(EncodeChar(s[0]), Encode(s[1..]));
    }
  }

  /** Neither the case of the name nor the case of the entry matters. */
  lemma CaseDoesNotMatter(name: string, entry: string)
    ensures EntryMatches(name, entry) <==> EntryMatches(LowerChars(name), LowerChars(entry))
  {
    LowerEncode(name);
    LowerEncode(entry);
  }

  // ----- What a setting says in plain characters -----

  /** Equal, or an ASCII capital and its small letter. */
  predicate SameLetter(c: char, d: char) {
    || c == d
    || ('A' <= c <= 'Z' && d as int == c as int + 32)
    || ('A' <= d <= 'Z' && c as int == d as int + 32)
  }

  predicate SameButForCase(a: string, b: string) {
    |a| == |b| && forall i | 0 <= i < |a| :: SameLetter(a[i], b[i])
  }

  lemma LowerCharIsByte(c: char)
    ensures Lower(EncodeChar(c)) == EncodeChar(LowerChar(c))
  {
    var bs := EncodeChar(c);
    if |bs| == 1 {
      assert bs[1..] == [] && EncodeChar(LowerChar(c))[1..] == [];
      assert Lower(bs) == [LowerByte(bs[0])];
    } else {
      LowerUnchanged(bs);
    }
  }

  lemma {:induction false} LowerUnchanged(bs: Bytes)
    requires forall i | 0 <= i < |bs| :: bs[i] >= 0x80
    ensures Lower(bs) == bs
  {
    if bs != [] {
      LowerUnchanged(bs[1..]);
      assert bs == [bs[0]] + bs[1..];
    }
  }

  /** Lowering the bytes is lowering the characters. */
  lemma {:induction false} LowerIsLowerChars(s: string)
    ensures Lower(Encode(s)) == Encode(LowerChars(s))
  {
    if s != [] {
      LowerIsLowerChars(s[1..]);
      LowerCharIsByte(s[0]);
      LowerConcat(EncodeChar(s[0]), Encode(s[1..]));
      assert LowerChars(s)[1..] == LowerChars(s[1..]);
    }
  }

  lemma {:induction false} SameLowered(a: string, b: string)
    ensures LowerChars(a) == LowerChars(b) <==> SameButForCase(a, b)
  {
    if a != [] && b != [] {
      SameLowered(a[1..], b[1..]);
      assert a == [a[0]] + a[1..] && b == [b[0]] + b[1..];
      assert LowerChar(a[0]) == LowerChar(b[0]) <==> SameLetter(a[0], b[0]);
      assert LowerChars(a)[1..] == LowerChars(a[1..]) && LowerChars(b)[1..] == LowerChars(b[1..]);
    }
  }

  predicate HasNoWildcard(entry: string) {
    '*' !in entry && '?' !in entry && '[' !in entry
  }

  lemma {:induction false} NoWildcardByte(entry: string)
    requires HasNoWildcard(entry)
    ensures 42 !in Lower(Encode(entry)) && 63 !in Lower(Encode(entry)) && 91 !in Lower(Encode(entry))
  {
    if entry != [] {
      NoWildcardByte(entry[1..]);
      LowerCharIsByte(entry[0]);
      LowerConcat(EncodeChar(entry[0]), Encode(entry[1..]));
      assert entry[0] in entry;
    }
  }

  /** An entry without wildcards matches the names it spells, up to ASCII case. */
  lemma PlainEntry(name: string, entry: string)
    requires HasNoWildcard(entry)
    ensures EntryMatches(name, entry) <==> SameButForCase(name, entry)
  {
    NoWildcardByte(entry);
    GlobLaws.PlainPattern(Lower(Encode(name)), Lower(Encode(entry)));
    LowerIsLowerChars(name);
    LowerIsLowerChars(entry);
    if Lower(Encode(name)) == Lower(Encode(entry)) {
      Utf8.EncodeInjective(LowerChars(name), LowerChars(entry));
    }
    SameLowered(name, entry);
  }

  /** A setting without `;` is one entry, read without the whitespace around it; a
      blank one ignores nothing. With `SettingsCombine` this reads every setting. */
  lemma OneEntry(name: string, before: string, entry: string, after: string)
    requires ';' !in before + entry + after
    requires forall i | 0 <= i < |before| :: IsWhitespace(before[i])
    requires forall i | 0 <= i < |after| :: IsWhitespace(after[i])
    requires entry != [] ==> !IsWhitespace(entry[0]) && !IsWhitespace(entry[|entry| - 1])
    ensures Ignores(name, before + entry + after) <==> entry != [] && EntryMatches(name, entry)
  {
    SplitWhole(before + entry + after, ';');
    TrimIs(before, entry, after);
    var piece := [before + entry + after];
    assert piece[1..] == [] && [entry][1..] == [];
    assert Map(Trim, piece) == [entry];
    assert Entries(before + entry + after) == NonEmpty([entry]);
    if entry != [] {
      assert NonEmpty([entry]) == [entry];
      assert SomeEntryFrom(name, [entry], 0) == (EntryMatches(name, entry) || SomeEntryFrom(name, [entry], 1));
    }
  }

  // ----- Patterns without a bracket -----

  /** The original matcher, without character classes, reads a byte on its own. */
  function Plain(b: Byte): Token {
    if b == STAR then Star else if b == QUESTION then Any else Literal(b)
  }

  function PlainTokens(p: Bytes, i: nat): seq<Token>
    requires i <= |p|
    decreases |p| - i
  {
    if i == |p| then [] else [Plain(p[i])] + PlainTokens(p, i + 1)
  }

  lemma PlainToken(p: Bytes, i: nat)
    requires i < |p| && p[i] != OPEN
    ensures ReadToken(p, i) == (Plain(p[i]), i + 1)
  {
  }

  /** A pattern with no `[` is read byte by byte: the extension to character classes
      changes nothing for it. */
  lemma {:induction false} WithoutBrackets(p: Bytes, i: nat)
    requires i <= |p| && OPEN !in p
    ensures Tokens(p, i) == PlainTokens(p, i)
    decreases |p| - i
  {
    if i < |p| {
      PlainToken(p, i);
      WithoutBrackets(p, i + 1);
    }
  }
}
