/** Strings as the standard library sees them: splitting, joining, trimming,
    and their UTF-8 bytes. */
module Text {
  import opened Prelude

  // ----- Splitting -----

  /** One more character: a separator opens a new piece, any other character
      extends the last one. */
  function Extend(pieces: seq<string>, c: char, sep: char): (r: seq<string>)
    requires pieces != []
    ensures r != []
  {
    var n := |pieces| - 1;
    if c == sep then pieces + [[]] else pieces[..n] + [pieces[n] + [c]]
  }

  /** The pieces between separators; always at least one. */
  function Split(s: string, sep: char): (pieces: seq<string>)
    ensures pieces != []
  {
    if s == [] then [[]] else Extend(Split(s[..|s| - 1], sep), s[|s| - 1], sep)
  }

  lemma {:induction false} PiecesAvoidSeparator(s: string, sep: char)
    ensures forall piece | piece in Split(s, sep) :: sep !in piece
  {
    if s != [] {
      PiecesAvoidSeparator(s[..|s| - 1], sep);
    }
  }

  lemma ExtendConcat(a: seq<string>, b: seq<string>, c: char, sep: char)
    requires b != []
    ensures Extend(a + b, c, sep) == a + Extend(b, c, sep)
  {
  }

  lemma SplitSnoc(s: string, c: char, sep: char)
    ensures Split(s + [c], sep) == Extend(Split(s, sep), c, sep)
  {
    assert (s + [c])[..|s|] == s;
  }

  lemma {:induction false} SplitConcat(a: string, sep: char, b: string)
    ensures Split(a + [sep] + b, sep) == Split(a, sep) + Split(b, sep)
  {
    if b == [] {
      assert a + [sep] + b == a + [sep];
      SplitSnoc(a, sep, sep);
    } else {
      var n := |b| - 1;
      var front := b[..n];
      SplitConcat(a, sep, front);
      assert b == front + [b[n]];
      assert a + [sep] + b == (a + [sep] + front) + [b[n]];
      SplitSnoc(a + [sep] + front, b[n], sep);
      ExtendConcat(Split(a, sep), Split(front, sep), b[n], sep);
    }
  }

  lemma {:induction false} SplitWhole(s: string, sep: char)
    requires sep !in s
    ensures Split(s, sep) == [s]
  {
    if s != [] {
      var n := |s| - 1;
      SplitWhole(s[..n], sep);
      assert s[n] in s && s == s[..n] + [s[n]];
    }
  }

  function NonEmpty(pieces: seq<string>): seq<string> {
    if pieces == [] then []
    else if pieces[0] == [] then NonEmpty(pieces[1..])
    else [pieces[0]] + NonEmpty(pieces[1..])
  }

  lemma {:induction false} NonEmptyKeeps(pieces: seq<string>)
    ensures forall piece :: piece in NonEmpty(pieces) <==> piece in pieces && piece != []
  {
    if pieces != [] {
      NonEmptyKeeps(pieces[1..]);
      assert pieces == [pieces[0]] + pieces[1..];
    }
  }

  lemma {:induction false} NonEmptyConcat(a: seq<string>, b: seq<string>)
    ensures NonEmpty(a + b) == NonEmpty(a) + NonEmpty(b)
  {
    if a == [] {
      assert a + b == b;
    } else {
      assert (a + b)[1..] == a[1..] + b;
      NonEmptyConcat(a[1..], b);
    }
  }

  /** Every character satisfies `p`. */
  predicate Every(p: char -> bool, s: string) {
    s == [] || (p(s[0]) && Every(p, s[1..]))
  }

  lemma {:induction false} EveryConcat(p: char -> bool, a: string, b: string)
    ensures Every(p, a + b) <==> Every(p, a) && Every(p, b)
  {
    if a == [] {
      assert a + b == b;
    } else {
      EveryConcat(p, a[1..], b);
      assert (a + b)[1..] == a[1..] + b;
    }
  }

  lemma {:induction false} EveryIs(p: char -> bool, s: string)
    ensures Every(p, s) <==> forall c | c in s :: p(c)
  {
    if s != [] {
      EveryIs(p, s[1..]);
      assert s == [s[0]] + s[1..];
    }
  }

  predicate IsAsciiChar(c: char) {
    c as int < 0x80
  }

  predicate IsPrintable(c: char) {
    c as int >= 32
  }

  predicate EndsWith(s: string, suffix: string) {
    |suffix| <= |s| && s[|s| - |suffix|..] == suffix
  }

  // ----- Trimming -----

  /** The Unicode White_Space property. */
  predicate IsWhitespace(c: char) {
    var n := c as int;
    || 0x09 <= n <= 0x0D || n == 0x20 || n == 0x85 || n == 0xA0 || n == 0x1680
    || 0x2000 <= n <= 0x200A || n == 0x2028 || n == 0x2029 || n == 0x202F || n == 0x205F || n == 0x3000
  }

  function TrimStart(s: string): string {
    if s != [] && IsWhitespace(s[0]) then TrimStart(s[1..]) else s
  }

  function TrimEnd(s: string): string {
    if s != [] && IsWhitespace(s[|s| - 1]) then TrimEnd(s[..|s| - 1]) else s
  }

  /** What trimming the end leaves is the longest prefix not ending in whitespace. */
  lemma {:induction false} TrimEndIs(s: string)
    ensures var t := TrimEnd(s);
            && (t == [] || !IsWhitespace(t[|t| - 1]))
            && |t| <= |s| && t == s[..|t|]
            && forall i | |t| <= i < |s| :: IsWhitespace(s[i])
  {
    if s != [] && IsWhitespace(s[|s| - 1]) {
      TrimEndIs(s[..|s| - 1]);
    }
  }

  function Trim(s: string): string {
    TrimEnd(TrimStart(s))
  }

  /** Trimming takes the whitespace off both ends and nothing else. */
  lemma {:induction false} TrimIs(before: string, s: string, after: string)
    requires forall i | 0 <= i < |before| :: IsWhitespace(before[i])
    requires forall i | 0 <= i < |after| :: IsWhitespace(after[i])
    requires s != [] ==> !IsWhitespace(s[0]) && !IsWhitespace(s[|s| - 1])
    ensures Trim(before + s + after) == s
  {
    if before != [] {
      TrimIs(before[1..], s, after);
      assert before + s + after == [before[0]] + (before[1..] + s + after);
    } else if s != [] {
      assert before + s + after == s + after;
      TrimEndDrops(s, after);
    } else if after != [] {
      assert before + s + after == [after[0]] + ([] + s + after[1..]);
      TrimIs([], s, after[1..]);
    }
  }

  lemma {:induction false} TrimEndDrops(s: string, after: string)
    requires forall i | 0 <= i < |after| :: IsWhitespace(after[i])
    requires s != [] && !IsWhitespace(s[|s| - 1])
    ensures TrimEnd(s + after) == s
  {
    if after == [] {
      assert s + after == s;
    } else {
      TrimEndDrops(s, after[..|after| - 1]);
      assert (s + after)[..|s + after| - 1] == s + after[..|after| - 1];
    }
  }

  // ----- UTF-8 -----

  /** One character as UTF-8. */
  function EncodeChar(c: char): (bs: Bytes)
    ensures bs != []
    ensures |bs| == 1 <==> c as int < 0x80
    ensures |bs| == 1 ==> bs[0] == c as int
    ensures |bs| > 1 ==> forall b | b in bs :: b >= 0x80
  {
    var n := c as int;
    if n < 0x80 then [n]
    else if n < 0x800 then [0xC0 + n / 64, 0x80 + n % 64]
    else if n < 0x10000 then [0xE0 + n / 4096, 0x80 + n / 64 % 64, 0x80 + n % 64]
    else [0xF0 + n / 262144, 0x80 + n / 4096 % 64, 0x80 + n / 64 % 64, 0x80 + n % 64]
  }

  function Encode(s: string): Bytes {
    if s == [] then [] else EncodeChar(s[0]) + Encode(s[1..])
  }

  predicate IsAsciiUpper(b: int) {
    65 <= b <= 90
  }

  /** `to_ascii_lowercase`, byte by byte. */
  function Lower(bs: Bytes): (r: Bytes)
    ensures |r| == |bs|
  {
    if bs == [] then [] else [LowerByte(bs[0])] + Lower(bs[1..])
  }

  function LowerByte(b: Byte): Byte {
    if IsAsciiUpper(b) then b + 32 else b
  }
}
