/** Well-formed UTF-8, by the table of section 4 of RFC 3629. */
module Utf8 {
  import opened Prelude
  import Text

  predicate IsTail(bs: Bytes, i: nat) {
    i < |bs| && 0x80 <= bs[i] <= 0xBF
  }

  /** The length of the well-formed sequence starting at `i`; zero if none does. */
  function SequenceAt(bs: Bytes, i: nat): (n: nat)
    requires i < |bs|
    ensures i + n <= |bs|
    ensures bs[i] < 0x80 ==> n == 1
  {
    var b := bs[i];
    if b < 0x80 then 1
    else if 0xC2 <= b <= 0xDF then (if IsTail(bs, i + 1) then 2 else 0)
    else if 0xE0 <= b <= 0xEF then
      if IsTail(bs, i + 1) && IsTail(bs, i + 2) && (b == 0xE0 ==> 0xA0 <= bs[i + 1]) && (b == 0xED ==> bs[i + 1] <= 0x9F)
      then 3 else 0
    else if 0xF0 <= b <= 0xF4 then
      if IsTail(bs, i + 1) && IsTail(bs, i + 2) && IsTail(bs, i + 3)
         && (b == 0xF0 ==> 0x90 <= bs[i + 1]) && (b == 0xF4 ==> bs[i + 1] <= 0x8F)
      then 4 else 0
    else 0
  }

  predicate ValidFrom(bs: Bytes, i: nat)
    requires i <= |bs|
    decreases |bs| - i
  {
    i == |bs| || (SequenceAt(bs, i) > 0 && ValidFrom(bs, i + SequenceAt(bs, i)))
  }

  predicate Valid(bs: Bytes) {
    ValidFrom(bs, 0)
  }

  ghost predicate IsAscii(bs: Bytes) {
    forall i | 0 <= i < |bs| :: bs[i] < 0x80
  }

  lemma {:induction false} AsciiIsValid(bs: Bytes, i: nat)
    requires i <= |bs| && IsAscii(bs)
    ensures ValidFrom(bs, i)
    decreases |bs| - i
  {
    if i < |bs| {
      AsciiIsValid(bs, i + 1);
    }
  }

  /** Text cut right after the first byte of a longer character is not well formed. */
  lemma {:induction false} CutCharacterIsInvalid(bs: Bytes, i: nat)
    requires i < |bs| && bs[|bs| - 1] >= 0xC0
    ensures !ValidFrom(bs, i)
    decreases |bs| - i
  {
    var n := SequenceAt(bs, i);
    if n > 0 && i + n < |bs| {
      CutCharacterIsInvalid(bs, i + n);
    }
  }

  /** Text may be cut before an ASCII byte: both parts are well formed exactly
      when the whole is. */
  lemma {:induction false} CutBeforeAscii(a: Bytes, b: Bytes, i: nat)
    requires i <= |a| && b != [] && b[0] < 0x80
    ensures ValidFrom(a + b, i) <==> ValidFrom(a, i) && ValidFrom(b, 0)
    decreases |a| - i
  {
    if i == |a| {
      Shift(a, b, 0);
    } else {
      assert SequenceAt(a + b, i) == SequenceAt(a, i) by {
        assert (a + b)[i] == a[i] && (a + b)[|a|] == b[0];
      }
      if SequenceAt(a, i) > 0 {
        CutBeforeAscii(a, b, i + SequenceAt(a, i));
      }
    }
  }

  lemma {:induction false} Shift(a: Bytes, b: Bytes, i: nat)
    requires i <= |b|
    ensures ValidFrom(a + b, |a| + i) <==> ValidFrom(b, i)
    decreases |b| - i
  {
    if i < |b| {
      assert SequenceAt(a + b, |a| + i) == SequenceAt(b, i);
      if SequenceAt(b, i) > 0 {
        Shift(a, b, i + SequenceAt(b, i));
      }
    }
  }

  /** Text that is not ASCII has the first byte of a longer character. */
  lemma {:induction false} HasLead(bs: Bytes, i: nat, high: nat) returns (lead: nat)
    requires i <= high < |bs| && ValidFrom(bs, i) && bs[high] >= 0x80
    ensures i <= lead < |bs| && bs[lead] >= 0xC0
    decreases |bs| - i
  {
    if bs[i] < 0x80 {
      lead := HasLead(bs, i + 1, high);
    } else {
      lead := i;
    }
  }

  // ----- Encoded characters -----

  lemma {:induction false} EncodeConcat(a: string, b: string)
    ensures Text.Encode(a + b) == Text.Encode(a) + Text.Encode(b)
  {
    if a == [] {
      assert a + b == b;
    } else {
      EncodeConcat(a[1..], b);
      assert (a + b)[1..] == a[1..] + b;
      Together(Text.EncodeChar(a[0]), Text.Encode(a[1..]), Text.Encode(b));
    }
  }

  lemma Together(a: Bytes, b: Bytes, c: Bytes)
    ensures a + (b + c) == (a + b) + c
  {
  }

  lemma EncodedCharIsSequence(c: char, rest: Bytes)
    ensures SequenceAt(Text.EncodeChar(c) + rest, 0) == |Text.EncodeChar(c)|
  {
    var bs := Text.EncodeChar(c);
    var n := c as int;
    assert 0 <= n < 0xD800 || 0xE000 <= n < 0x110000;
    assert forall i | 0 <= i < |bs| :: (bs + rest)[i] == bs[i];
  }

  /** What is encoded is well formed. */
  lemma {:induction false} EncodeIsValid(s: string)
    ensures Valid(Text.Encode(s))
  {
    if s != [] {
      var first, rest := Text.EncodeChar(s[0]), Text.Encode(s[1..]);
      EncodeIsValid(s[1..]);
      EncodedCharIsSequence(s[0], rest);
      Shift(first, rest, 0);
    }
  }

  lemma {:induction false} EncodeIsPrintable(s: string)
    requires Text.Every(Text.IsPrintable, s)
    ensures forall b | b in Text.Encode(s) :: b >= 32
  {
    if s != [] {
      EncodeIsPrintable(s[1..]);
    }
  }

  lemma {:induction false} EncodeIsAscii(s: string)
    ensures IsAscii(Text.Encode(s)) <==> Text.Every(Text.IsAsciiChar, s)
  {
    if s != [] {
      EncodeIsAscii(s[1..]);
      var first := Text.EncodeChar(s[0]);
      IsAsciiConcat(first, Text.Encode(s[1..]));
      assert first[0] in first;
    }
  }

  lemma IsAsciiConcat(a: Bytes, b: Bytes)
    ensures IsAscii(a + b) <==> IsAscii(a) && IsAscii(b)
  {
    assert forall i | 0 <= i < |a| :: (a + b)[i] == a[i];
    assert forall i | 0 <= i < |b| :: (a + b)[|a| + i] == b[i];
  }

  lemma DivisionsChain(n: nat)
    ensures n / 4096 == n / 64 / 64 && n / 262144 == n / 64 / 64 / 64
  {
  }

  lemma SameDigits(m: nat, n: nat)
    requires m / 64 == n / 64 && m % 64 == n % 64
    ensures m == n
  {
  }

  /** Characters are told apart by their bytes. */
  lemma EncodeCharInjective(c: char, d: char)
    requires Text.EncodeChar(c) == Text.EncodeChar(d)
    ensures c == d
  {
    var m, n: nat := c as int, d as int;
    SameCode(m, n, Text.EncodeChar(c), Text.EncodeChar(d));
  }

  lemma SameCode(m: nat, n: nat, x: Bytes, y: Bytes)
    requires x == y
    requires IsCode(m, x) && IsCode(n, y)
    ensures m == n
  {
    DivisionsChain(m);
    DivisionsChain(n);
    if |x| == 2 {
      SameDigits(m, n);
    } else if |x| == 3 {
      SameDigits(m / 64, n / 64);
      SameDigits(m, n);
    } else if |x| == 4 {
      SameDigits(m / 64 / 64, n / 64 / 64);
      SameDigits(m / 64, n / 64);
      SameDigits(m, n);
    }
  }

  /** The bytes of a code point, by their number. */
  ghost predicate IsCode(n: nat, bs: Bytes) {
    || (|bs| == 1 && bs[0] == n)
    || (|bs| == 2 && bs[0] == 0xC0 + n / 64 && bs[1] == 0x80 + n % 64)
    || (|bs| == 3 && bs[0] == 0xE0 + n / 4096 && bs[1] == 0x80 + n / 64 % 64 && bs[2] == 0x80 + n % 64)
    || (|bs| == 4 && bs[0] == 0xF0 + n / 262144 && bs[1] == 0x80 + n / 4096 % 64 && bs[2] == 0x80 + n / 64 % 64
        && bs[3] == 0x80 + n % 64)
  }

  lemma {:induction false} EncodeInjective(a: string, b: string)
    requires Text.Encode(a) == Text.Encode(b)
    ensures a == b
  {
    if a != [] && b != [] {
      var x, y := Text.EncodeChar(a[0]), Text.EncodeChar(b[0]);
      EncodedCharIsSequence(a[0], Text.Encode(a[1..]));
      EncodedCharIsSequence(b[0], Text.Encode(b[1..]));
      assert x == Text.Encode(a)[..|x|] && y == Text.Encode(b)[..|y|];
      EncodeCharInjective(a[0], b[0]);
      assert Text.Encode(a[1..]) == Text.Encode(a)[|x|..];
      assert Text.Encode(b[1..]) == Text.Encode(b)[|y|..];
      EncodeInjective(a[1..], b[1..]);
      assert a == [a[0]] + a[1..] && b == [b[0]] + b[1..];
    }
  }

  // ----- Well-formed bytes are encoded text -----

  /** The character whose sequence stands at `i`. */
  lemma CharAt(bs: Bytes, i: nat) returns (c: char)
    requires i < |bs| && SequenceAt(bs, i) > 0
    ensures Text.EncodeChar(c) == bs[i..i + SequenceAt(bs, i)]
  {
    var n := SequenceAt(bs, i);
    if n == 1 {
      c := bs[i] as char;
    } else if n == 2 {
      c := TwoBytes(bs[i] - 0xC0, bs[i + 1] - 0x80);
    } else if n == 3 {
      c := ThreeBytes(bs[i] - 0xE0, bs[i + 1] - 0x80, bs[i + 2] - 0x80);
    } else {
      c := FourBytes(bs[i] - 0xF0, bs[i + 1] - 0x80, bs[i + 2] - 0x80, bs[i + 3] - 0x80);
    }
  }

  lemma TwoBytes(a: nat, b: nat) returns (c: char)
    requires 2 <= a < 32 && b < 64
    ensures Text.EncodeChar(c) == [0xC0 + a, 0x80 + b]
  {
    var n := a * 64 + b;
    assert n / 64 == a && n % 64 == b;
    c := n as char;
  }

  lemma ThreeBytes(a: nat, b: nat, d: nat) returns (c: char)
    requires a < 16 && b < 64 && d < 64 && (a == 0 ==> b >= 32) && (a == 13 ==> b < 32)
    ensures Text.EncodeChar(c) == [0xE0 + a, 0x80 + b, 0x80 + d]
  {
    var m := a * 64 + b;
    var n := m * 64 + d;
    assert n / 64 == m && n % 64 == d && m / 64 == a && m % 64 == b;
    DivisionsChain(n);
    c := n as char;
  }

  lemma FourBytes(a: nat, b: nat, d: nat, e: nat) returns (c: char)
    requires a <= 4 && b < 64 && d < 64 && e < 64 && (a == 0 ==> b >= 16) && (a == 4 ==> b < 16)
    ensures Text.EncodeChar(c) == [0xF0 + a, 0x80 + b, 0x80 + d, 0x80 + e]
  {
    var l := a * 64 + b;
    var m := l * 64 + d;
    var n := m * 64 + e;
    assert n / 64 == m && n % 64 == e && m / 64 == l && m % 64 == d && l / 64 == a && l % 64 == b;
    DivisionsChain(n);
    c := n as char;
  }

  lemma {:induction false} TextFrom(bs: Bytes, i: nat) returns (s: string)
    requires i <= |bs| && ValidFrom(bs, i)
    ensures Text.Encode(s) == bs[i..]
    decreases |bs| - i
  {
    if i == |bs| {
      s := [];
    } else {
      var n := SequenceAt(bs, i);
      var c := CharAt(bs, i);
      var rest := TextFrom(bs, i + n);
      s := [c] + rest;
      assert s[1..] == rest && bs[i..] == bs[i..i + n] + bs[i + n..];
    }
  }

  /** Bytes are well formed exactly when they are some text, encoded. */
  lemma ValidExactly(bs: Bytes)
    ensures Valid(bs) <==> exists s :: Text.Encode(s) == bs
  {
    if Valid(bs) {
      var s := TextFrom(bs, 0);
      assert bs[0..] == bs;
    }
    if s :| Text.Encode(s) == bs {
      EncodeIsValid(s);
    }
  }
}
