/** The meaning of an ignore pattern read off its bytes: one law for each way a
    pattern can begin, and what a bracket class holds. */
module GlobLaws {
  import opened Prelude
  import opened Glob

  /** The pattern takes the whole name. `MatchPattern` decides this. */
  ghost predicate Matches(name: Bytes, pattern: Bytes) {
    Accepts(name, Tokens(pattern, 0))
  }

  // ----- What is written between brackets -----

  /** Three bytes of the form `x-y` stand at `k`. */
  predicate IsSpan(body: Bytes, k: nat) {
    k + 2 < |body| && body[k + 1] == 45
  }

  /** A member begins at `k`: it is the first, or the one before it ends there.
      A span is three bytes long, any other member one. */
  predicate Begins(body: Bytes, k: nat)
    decreases k
  {
    || k == 0
    || (Begins(body, k - 1) && !IsSpan(body, k - 1))
    || (k >= 3 && Begins(body, k - 3) && IsSpan(body, k - 3))
  }

  /** The member at `k` is the byte itself, or a span whose ends enclose it. */
  predicate WrittenAt(body: Bytes, k: nat, b: Byte)
    requires k < |body|
  {
    if IsSpan(body, k) then body[k] <= b <= body[k + 2] || body[k + 2] <= b <= body[k] else body[k] == b
  }

  ghost predicate IsWritten(body: Bytes, from: nat, b: Byte) {
    exists k: nat :: from <= k < |body| && Begins(body, k) && WrittenAt(body, k, b)
  }

  /** What can stand between brackets: something, without a closing bracket. */
  predicate IsBody(body: Bytes) {
    body != [] && 93 !in body
  }

  predicate StartsNegated(body: Bytes) {
    body != [] && (body[0] == 33 || body[0] == 94)
  }

  // ----- Reading a pattern from the middle -----

  lemma {:induction false} RangesShift(a: Bytes, p: Bytes, i: nat)
    requires i <= |p|
    ensures ReadRanges(a + p, |a| + i).0 == ReadRanges(p, i).0
    ensures ReadRanges(a + p, |a| + i).1 == |a| + ReadRanges(p, i).1
    decreases |p| - i
  {
    if i < |p| {
      assert (a + p)[|a| + i] == p[i];
      if i + 1 < |p| {
        assert (a + p)[|a| + i + 1] == p[i + 1];
      }
      if i + 2 < |p| {
        assert (a + p)[|a| + i + 2] == p[i + 2];
      }
      RangesShift(a, p, i + 1);
      if i + 3 <= |p| {
        RangesShift(a, p, i + 3);
      }
    }
  }

  lemma TokenShift(a: Bytes, p: Bytes, i: nat)
    requires i < |p|
    ensures ReadToken(a + p, |a| + i).0 == ReadToken(p, i).0
    ensures ReadToken(a + p, |a| + i).1 == |a| + ReadToken(p, i).1
  {
    assert (a + p)[|a| + i] == p[i];
    if i + 1 < |p| {
      assert (a + p)[|a| + i + 1] == p[i + 1];
    }
    RangesShift(a, p, BodyStart(p, i));
  }

  /** What is read from a position on does not depend on what stands before it. */
  lemma {:induction false} TokensShift(a: Bytes, p: Bytes, i: nat)
    requires i <= |p|
    ensures Tokens(a + p, |a| + i) == Tokens(p, i)
    decreases |p| - i
  {
    if i < |p| {
      TokenShift(a, p, i);
      TokensShift(a, p, ReadToken(p, i).1);
    }
  }

  /** The pattern is one token, then the rest. */
  lemma FirstToken(first: Bytes, rest: Bytes, token: Token)
    requires first != [] && ReadToken(first + rest, 0) == (token, |first|)
    ensures Tokens(first + rest, 0) == [token] + Tokens(rest, 0)
  {
    TokensShift(first, rest, 0);
  }

  // ----- One law for each way a pattern can begin -----

  lemma EmptyPattern(name: Bytes)
    ensures Matches(name, []) <==> name == []
  {
  }

  /** A byte that is none of `*`, `?` and `[` takes itself. */
  lemma PlainByte(name: Bytes, c: Byte, rest: Bytes)
    requires c != 42 && c != 63 && c != 91
    ensures Matches(name, [c] + rest) <==> name != [] && name[0] == c && Matches(name[1..], rest)
  {
    FirstToken([c], rest, Literal(c));
  }

  /** `?` takes any one byte. */
  lemma QuestionMark(name: Bytes, rest: Bytes)
    ensures Matches(name, [63] + rest) <==> name != [] && Matches(name[1..], rest)
  {
    FirstToken([63], rest, Any);
  }

  /** `*` takes any stretch, the empty one included. */
  lemma {:induction false} Asterisk(name: Bytes, rest: Bytes)
    ensures Matches(name, [42] + rest) <==> exists k: nat :: k <= |name| && Matches(name[k..], rest)
    decreases |name|
  {
    FirstToken([42], rest, Star);
    assert name[0..] == name;
    if name != [] {
      Asterisk(name[1..], rest);
      if Matches(name[1..], [42] + rest) {
        var k: nat :| k <= |name[1..]| && Matches(name[1..][k..], rest);
        assert name[1..][k..] == name[k + 1..];
      }
      if k: nat :| k <= |name| && Matches(name[k..], rest) && k > 0 {
        assert name[1..][k - 1..] == name[k..];
      }
    }
  }

  /** `[` opens no class when nothing closes it, or nothing stands before the bracket
      that does: it takes itself. */
  lemma OpenBracket(name: Bytes, rest: Bytes)
    requires var inner := if StartsNegated(rest) then rest[1..] else rest;
             93 !in inner || inner[0] == 93
    ensures Matches(name, [91] + rest) <==> name != [] && name[0] == 91 && Matches(name[1..], rest)
  {
    var p := [91] + rest;
    var start := BodyStart(p, 0);
    var end := ReadRanges(p, start).1;
    var inner := if StartsNegated(rest) then rest[1..] else rest;
    assert inner == p[start..];
    FirstToken([91], rest, Literal(91));
  }

  /** Reading the body of a class from one of its members on. */
  lemma {:induction false} BodyIsRead(p: Bytes, start: nat, body: Bytes, k: nat, b: Byte)
    requires IsBody(body) && start + |body| < |p| && p[start + |body|] == 93
    requires forall j | 0 <= j < |body| :: p[start + j] == body[j]
    requires k <= |body| && Begins(body, k)
    ensures ReadRanges(p, start + k).1 == start + |body|
    ensures AnyCovers(ReadRanges(p, start + k).0, b) <==> IsWritten(body, k, b)
    decreases |body| - k
  {
    if k < |body| {
      var i := start + k;
      assert p[i] == body[k];
      if k + 2 < |body| {
        assert p[i + 1] == body[k + 1] && p[i + 2] == body[k + 2];
      }
      if IsSpan(body, k) {
        BodyIsRead(p, start, body, k + 3, b);
        AnyCoversCons(Range(Min(p[i], p[i + 2]), Max(p[i], p[i + 2])), ReadRanges(p, i + 3).0, b);
      } else {
        assert i + 2 < |p| && p[i + 1] == DASH ==> p[i + 2] == CLOSE;
        BodyIsRead(p, start, body, k + 1, b);
        AnyCoversCons(Range(p[i], p[i]), ReadRanges(p, i + 1).0, b);
      }
      WrittenFrom(body, k, b);
    }
  }

  /** A member ends before a later one begins. */
  lemma {:induction false} MembersDoNotOverlap(body: Bytes, j: nat, k: nat)
    requires j < k && Begins(body, j) && Begins(body, k)
    ensures IsSpan(body, j) ==> j + 3 <= k
    decreases j + k
  {
    var q: nat := if Begins(body, k - 1) && !IsSpan(body, k - 1) then k - 1 else k - 3;
    if j < q {
      MembersDoNotOverlap(body, j, q);
    } else if q < j {
      MembersDoNotOverlap(body, q, j);
    }
  }

  lemma WrittenFrom(body: Bytes, k: nat, b: Byte)
    requires k < |body| && Begins(body, k)
    ensures IsWritten(body, k, b)
            <==> WrittenAt(body, k, b) || IsWritten(body, if IsSpan(body, k) then k + 3 else k + 1, b)
  {
    if j: nat :| k < j < |body| && Begins(body, j) && WrittenAt(body, j, b) {
      MembersDoNotOverlap(body, k, j);
    }
  }

  /** The token of a class with this body, negated or not. */
  function BracketClass(p: Bytes, start: nat, negate: bool): Token
    requires start <= |p|
  {
    Class(negate, ReadRanges(p, start).0)
  }

  lemma ClassIsRead(p: Bytes, start: nat, body: Bytes)
    requires IsBody(body) && start + |body| < |p| && p[0] == 91 && p[start + |body|] == 93
    requires forall j | 0 <= j < |body| :: p[start + j] == body[j]
    requires if start == 1 then !StartsNegated(body) else start == 2 && (p[1] == 33 || p[1] == 94)
    ensures ReadToken(p, 0) == (BracketClass(p, start, start == 2), start + |body| + 1)
  {
    BodyIsRead(p, start, body, 0, 0);
    assert start == 1 ==> p[1] == body[0];
    assert BodyStart(p, 0) == start;
  }

  /** A class takes one byte: with a plain body one that is written in it, and after
      `!` or `^` one that is not. */
  lemma ClassTakes(name: Bytes, mark: Bytes, body: Bytes, rest: Bytes)
    requires IsBody(body)
    requires if mark == [] then !StartsNegated(body) else mark == [33] || mark == [94]
    ensures Matches(name, ([91] + mark + body + [93]) + rest)
            <==> && name != [] && (IsWritten(body, 0, name[0]) <==> mark == [])
                 && Matches(name[1..], rest)
  {
    var first, p := [91] + mark + body + [93], [91] + mark + body + [93] + rest;
    var start := 1 + |mark|;
    assert forall j | 0 <= j < |body| :: p[start + j] == body[j];
    assert p[start + |body|] == 93 && (mark != [] ==> p[1] == mark[0]);
    ClassIsRead(p, start, body);
    FirstToken(first, rest, BracketClass(p, start, start == 2));
    if name != [] {
      BodyIsRead(p, start, body, 0, name[0]);
    }
  }

  // ----- Whole patterns -----

  /** `[body]` alone takes the one-byte names written in the body. */
  lemma ClassAlone(name: Bytes, body: Bytes)
    requires IsBody(body) && !StartsNegated(body)
    ensures Matches(name, [91] + body + [93]) <==> |name| == 1 && IsWritten(body, 0, name[0])
  {
    ClassTakes(name, [], body, []);
    assert [91] + [] + body + [93] + [] == [91] + body + [93];
  }

  /** `[!body]` and `[^body]` take exactly the one-byte names that `[body]` rejects. */
  lemma NegatedAlone(name: Bytes, mark: Byte, body: Bytes)
    requires IsBody(body) && !StartsNegated(body) && (mark == 33 || mark == 94)
    ensures Matches(name, [91, mark] + body + [93]) <==> |name| == 1 && !Matches(name, [91] + body + [93])
  {
    ClassAlone(name, body);
    ClassTakes(name, [mark], body, []);
    assert [91] + [mark] + body + [93] + [] == [91, mark] + body + [93];
  }

  /** `[x]` takes the name `x` only. */
  lemma OneByteClass(name: Bytes, x: Byte)
    requires x != 33 && x != 94 && x != 93
    ensures Matches(name, [91, x, 93]) <==> name == [x]
  {
    ClassAlone(name, [x]);
    assert [91] + [x] + [93] == [91, x, 93];
    assert Begins([x], 0);
  }

  /** `[lo-hi]` takes the bytes between its ends, whichever is written first. */
  lemma SpanClass(name: Bytes, lo: Byte, hi: Byte)
    requires lo != 33 && lo != 94 && lo != 93 && hi != 93
    ensures Matches(name, [91, lo, 45, hi, 93])
            <==> |name| == 1 && (lo <= name[0] <= hi || hi <= name[0] <= lo)
  {
    var body := [lo, 45, hi];
    ClassAlone(name, body);
    assert [91] + body + [93] == [91, lo, 45, hi, 93];
    if |name| == 1 {
      WrittenFrom(body, 0, name[0]);
    }
  }

  /** A body without a dash holds the bytes it consists of. */
  lemma {:induction false} PlainBody(body: Bytes, b: Byte)
    requires 45 !in body
    ensures IsWritten(body, 0, b) <==> b in body
  {
    if k: nat :| k < |body| && body[k] == b {
      AllBegin(body, k);
      assert WrittenAt(body, k, b);
    }
  }

  lemma {:induction false} AllBegin(body: Bytes, k: nat)
    requires 45 !in body
    ensures Begins(body, k)
  {
    if k > 0 {
      AllBegin(body, k - 1);
    }
  }

  /** A pattern without `*`, `?` and `[` takes exactly the name it spells. */
  lemma {:induction false} PlainPattern(name: Bytes, pattern: Bytes)
    requires 42 !in pattern && 63 !in pattern && 91 !in pattern
    ensures Matches(name, pattern) <==> name == pattern
  {
    if pattern != [] {
      assert pattern == [pattern[0]] + pattern[1..];
      PlainByte(name, pattern[0], pattern[1..]);
      if name != [] {
        PlainPattern(name[1..], pattern[1..]);
        assert name == [name[0]] + name[1..];
      }
    }
  }

  /** `*` alone takes every name, and between two plain stretches it takes the names
      that begin with the one and go on to end with the other. */
  lemma StarBetween(name: Bytes, head: Bytes, tail: Bytes)
    requires 42 !in head && 63 !in head && 91 !in head
    requires 42 !in tail && 63 !in tail && 91 !in tail
    ensures Matches(name, head + [42] + tail)
            <==> |head| + |tail| <= |name| && head <= name && name[|name| - |tail|..] == tail
  {
    AfterPlain(name, head, [42] + tail);
    assert head + [42] + tail == head + ([42] + tail);
    if head <= name {
      var left := name[|head|..];
      Asterisk(left, tail);
      forall k: nat | k <= |left|
        ensures Matches(left[k..], tail) <==> left[k..] == tail
      {
        PlainPattern(left[k..], tail);
      }
      if |head| + |tail| <= |name| {
        var k := |left| - |tail|;
        assert left[k..] == name[|name| - |tail|..];
      }
    }
  }

  lemma {:induction false} AfterPlain(name: Bytes, head: Bytes, rest: Bytes)
    requires 42 !in head && 63 !in head && 91 !in head
    ensures Matches(name, head + rest) <==> head <= name && Matches(name[|head|..], rest)
  {
    if head == [] {
      assert head + rest == rest && name[0..] == name;
    } else {
      assert head + rest == [head[0]] + (head[1..] + rest);
      PlainByte(name, head[0], head[1..] + rest);
      if name != [] {
        AfterPlain(name[1..], head[1..], rest);
        assert head == [head[0]] + head[1..] && name == [name[0]] + name[1..];
        if head[1..] <= name[1..] {
          assert name[1..][|head[1..]|..] == name[|head|..];
        }
      }
    }
  }
}
