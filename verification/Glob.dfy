/** The ignore-pattern matcher: a loop that remembers only the last `*`,
    against a declarative reading of the pattern as a list of tokens. */
module Glob {
  import opened Prelude

  const STAR: Byte := 42
  const QUESTION: Byte := 63
  const OPEN: Byte := 91
  const CLOSE: Byte := 93
  const BANG: Byte := 33
  const CARET: Byte := 94
  const DASH: Byte := 45

  datatype Range = Range(lo: Byte, hi: Byte) {
    predicate Covers(b: Byte) {
      lo <= b <= hi
    }
  }

  datatype Token =
    | Star
    | Any
    | Literal(byte: Byte)
    | Class(negate: bool, ranges: seq<Range>)
  {
    /** Whether this (non-star) token accepts the single byte `b`. */
    predicate Consumes(b: Byte) {
      match this
      case Star => false
      case Any => true
      case Literal(c) => c == b
      case Class(negate, ranges) => AnyCovers(ranges, b) != negate
    }
  }

  predicate AnyCovers(ranges: seq<Range>, b: Byte) {
    exists r | r in ranges :: r.Covers(b)
  }

  lemma AnyCoversCons(r: Range, rest: seq<Range>, b: Byte)
    ensures AnyCovers([r] + rest, b) <==> r.Covers(b) || AnyCovers(rest, b)
  {
    assert ([r] + rest)[0] == r;
    assert forall x | x in rest :: x in [r] + rest;
  }

  // ----- Reading a pattern, without looking at any name -----

  /** The ranges written from position `i` up to the next `]` (or the end of
      the pattern), and the position where reading stopped. */
  function ReadRanges(p: Bytes, i: nat): (r: (seq<Range>, nat))
    requires i <= |p|
    ensures i <= r.1 <= |p|
    ensures r.1 == i ==> r.0 == []
    ensures r.1 < |p| ==> p[r.1] == CLOSE
    decreases |p| - i
  {
    if i == |p| || p[i] == CLOSE then ([], i)
    else if i + 2 < |p| && p[i + 1] == DASH && p[i + 2] != CLOSE then
      var rest := ReadRanges(p, i + 3);
      ([Range(Min(p[i], p[i + 2]), Max(p[i], p[i + 2]))] + rest.0, rest.1)
    else
      var rest := ReadRanges(p, i + 1);
      ([Range(p[i], p[i])] + rest.0, rest.1)
  }

  predicate IsNegated(p: Bytes, i: nat) {
    i + 1 < |p| && (p[i + 1] == BANG || p[i + 1] == CARET)
  }

  /** First position inside the brackets, after an optional `!` or `^`. */
  function BodyStart(p: Bytes, i: nat): (s: nat)
    requires i < |p|
    ensures i < s <= |p|
  {
    if IsNegated(p, i) then i + 2 else i + 1
  }

  /** The bracket class opening at `i` and the position after its `]`, or None
      when the class is unterminated or empty. */
  function ReadClass(p: Bytes, i: nat): (r: Option<(Token, nat)>)
    requires i < |p|
    ensures r.Some? ==> i < r.value.1 <= |p| && r.value.0.Class?
  {
    var start := BodyStart(p, i);
    var (ranges, end) := ReadRanges(p, start);
    if end == |p| || end == start then None
    else Some((Class(IsNegated(p, i), ranges), end + 1))
  }

  /** The token opening at `i`, and the position after it. */
  function ReadToken(p: Bytes, i: nat): (r: (Token, nat))
    requires i < |p|
    ensures i < r.1 <= |p|
    ensures r.0.Star? <==> p[i] == STAR
  {
    if p[i] == STAR then (Star, i + 1)
    else if p[i] == QUESTION then (Any, i + 1)
    else if p[i] == OPEN then
      match ReadClass(p, i)
      case Some(read) => read
      case None => (Literal(OPEN), i + 1)
    else (Literal(p[i]), i + 1)
  }

  /** The pattern from position `i` on, as a list of tokens. */
  function Tokens(p: Bytes, i: nat): seq<Token>
    requires i <= |p|
    decreases |p| - i
  {
    if i == |p| then []
    else
      var (t, next) := ReadToken(p, i);
      [t] + Tokens(p, next)
  }

  // ----- What a token list means -----

  /** A star takes nothing, or one byte more; any other token takes exactly one
      byte that it consumes. */
  ghost predicate Accepts(name: Bytes, tokens: seq<Token>)
    decreases |tokens| + |name|
  {
    if tokens == [] then name == []
    else if tokens[0].Star? then
      Accepts(name, tokens[1..]) || (name != [] && Accepts(name[1..], tokens))
    else
      name != [] && tokens[0].Consumes(name[0]) && Accepts(name[1..], tokens[1..])
  }

  /** What one token may take out of the name. */
  ghost predicate Takes(token: Token, piece: Bytes) {
    token.Star? || (|piece| == 1 && token.Consumes(piece[0]))
  }

  /** The name can be cut into one piece per token, each of which the token takes. */
  ghost predicate CutsInto(name: Bytes, tokens: seq<Token>, pieces: seq<Bytes>)
    decreases |tokens|
  {
    if tokens == [] then name == [] && pieces == []
    else
      && pieces != [] && Takes(tokens[0], pieces[0]) && pieces[0] <= name
      && CutsInto(name[|pieces[0]|..], tokens[1..], pieces[1..])
  }

  /** The step-by-step meaning is the one by cutting. */
  lemma {:induction false} AcceptsByCutting(name: Bytes, tokens: seq<Token>)
    ensures Accepts(name, tokens) <==> exists pieces: seq<Bytes> :: CutsInto(name, tokens, pieces)
  {
    if Accepts(name, tokens) {
      var cut := FindCut(name, tokens);
      assert CutsInto(name, tokens, cut);
      assert exists pieces: seq<Bytes> :: CutsInto(name, tokens, pieces);
    } else {
      forall pieces: seq<Bytes> | CutsInto(name, tokens, pieces)
        ensures false
      {
        CutAccepted(name, tokens, pieces);
      }
    }
  }

  lemma {:induction false} FindCut(name: Bytes, tokens: seq<Token>) returns (pieces: seq<Bytes>)
    requires Accepts(name, tokens)
    ensures CutsInto(name, tokens, pieces)
    decreases |tokens| + |name|
  {
    if tokens == [] {
      pieces := [];
    } else if tokens[0].Star? && Accepts(name, tokens[1..]) {
      var rest := FindCut(name, tokens[1..]);
      pieces := [[]] + rest;
      assert name[0..] == name && pieces[1..] == rest;
    } else if tokens[0].Star? {
      var rest := FindCut(name[1..], tokens);
      var first := [name[0]] + rest[0];
      pieces := [first] + rest[1..];
      assert name[1..][|rest[0]|..] == name[|first|..] && pieces[1..] == rest[1..];
    } else {
      var rest := FindCut(name[1..], tokens[1..]);
      pieces := [[name[0]]] + rest;
      assert pieces[1..] == rest;
    }
  }

  lemma {:induction false} CutAccepted(name: Bytes, tokens: seq<Token>, pieces: seq<Bytes>)
    requires CutsInto(name, tokens, pieces)
    ensures Accepts(name, tokens)
    decreases |tokens| + |name|
  {
    if tokens != [] {
      var rest := name[|pieces[0]|..];
      if tokens[0].Star? && pieces[0] != [] {
        assert name[1..][|pieces[0][1..]|..] == rest;
        CutAccepted(name[1..], tokens, [pieces[0][1..]] + pieces[1..]);
      } else {
        CutAccepted(rest, tokens[1..], pieces[1..]);
        assert pieces[0] == [] ==> rest == name;
      }
    }
  }

  /** The same meaning over positions in the name and the pattern: the name from
      `ni` on fits the pattern from `pi` on. */
  ghost predicate Fits(name: Bytes, p: Bytes, ni: nat, pi: nat)
    requires ni <= |name| && pi <= |p|
    decreases |p| - pi + |name| - ni
  {
    if pi == |p| then ni == |name|
    else
      var (token, next) := ReadToken(p, pi);
      if token.Star? then Fits(name, p, ni, next) || (ni < |name| && Fits(name, p, ni + 1, pi))
      else ni < |name| && token.Consumes(name[ni]) && Fits(name, p, ni + 1, next)
  }

  lemma {:induction false} FitsMeansAccepts(name: Bytes, p: Bytes, ni: nat, pi: nat)
    requires ni <= |name| && pi <= |p|
    ensures Fits(name, p, ni, pi) <==> Accepts(name[ni..], Tokens(p, pi))
    decreases |p| - pi + |name| - ni
  {
    if pi < |p| {
      var (token, next) := ReadToken(p, pi);
      assert Tokens(p, pi)[0] == token && Tokens(p, pi)[1..] == Tokens(p, next);
      if token.Star? {
        FitsMeansAccepts(name, p, ni, next);
      }
      if ni < |name| {
        assert name[ni..][1..] == name[ni + 1..];
        FitsMeansAccepts(name, p, ni + 1, if token.Star? then pi else next);
      }
    }
  }

  /** Reading exactly `n` tokens from `from`, none of them a star, leads to `to`. */
  ghost predicate Reaches(p: Bytes, from: nat, to: nat, n: nat)
    decreases n
  {
    if n == 0 then from == to
    else from < |p| && p[from] != STAR && Reaches(p, ReadToken(p, from).1, to, n - 1)
  }

  lemma {:induction false} ReachesNext(p: Bytes, from: nat, to: nat, n: nat)
    requires Reaches(p, from, to, n)
    requires to < |p| && p[to] != STAR
    ensures Reaches(p, from, ReadToken(p, to).1, n + 1)
    decreases n
  {
    if n > 0 {
      ReachesNext(p, ReadToken(p, from).1, to, n - 1);
    }
  }

  /** `n` tokens without a star take exactly `n` bytes. */
  lemma {:induction false} ReachesTakes(name: Bytes, p: Bytes, ni: nat, from: nat, to: nat, n: nat)
    requires ni <= |name| && from <= |p| && to <= |p| && Reaches(p, from, to, n)
    requires Fits(name, p, ni, from)
    ensures ni + n <= |name| && Fits(name, p, ni + n, to)
    decreases n
  {
    if n > 0 {
      ReachesTakes(name, p, ni + 1, ReadToken(p, from).1, to, n - 1);
    }
  }

  /** A star absorbs any number of further bytes. */
  lemma {:induction false} StarAbsorbs(name: Bytes, p: Bytes, ni: nat, later: nat, pi: nat)
    requires ni <= later <= |name| && pi < |p| && p[pi] == STAR
    requires Fits(name, p, later, pi)
    ensures Fits(name, p, ni, pi)
    decreases later - ni
  {
    if ni < later {
      StarAbsorbs(name, p, ni + 1, later, pi);
    }
  }

  /** Once a match has got from a star's stretch ending at `start` over `n` tokens
      to position `to`, every match with a longer stretch gets there later. */
  lemma {:induction false} LongerStretch(name: Bytes, p: Bytes, later: nat, star: nat, to: nat, n: nat)
      returns (arrival: nat)
    requires later <= |name| && star < |p| && p[star] == STAR && to <= |p|
    requires Reaches(p, star + 1, to, n)
    requires Fits(name, p, later, star)
    ensures later + n <= arrival <= |name| && Fits(name, p, arrival, to)
    decreases |name| - later
  {
    if Fits(name, p, later, star + 1) {
      ReachesTakes(name, p, later, star + 1, to, n);
      arrival := later + n;
    } else {
      arrival := LongerStretch(name, p, later + 1, star, to, n);
    }
  }

  // ----- The matcher -----

  /** The arms of the loop's case split other than `*`: where the pattern
      continues if the token at `pi` takes the byte `b`. */
  method TryByte(pattern: Bytes, pi: nat, b: Byte) returns (next: Option<nat>)
    requires pi < |pattern| && pattern[pi] != STAR
    ensures next == if ReadToken(pattern, pi).0.Consumes(b) then Some(ReadToken(pattern, pi).1) else None
  {
    var pc := pattern[pi];
    if pc == QUESTION {
      return Some(pi + 1);
    } else if pc == OPEN {
      var verdict := TryCharClass(pattern, pi, b);
      if verdict.Some? {
        var (accepted, nextPi) := verdict.value;
        if accepted {
          return Some(nextPi);
        }
      } else if b == OPEN {
        return Some(pi + 1);
      }
    } else if pc == b {
      return Some(pi + 1);
    }
    return None;
  }

  /** Parses the class at `pi` while testing one byte: both the verdict and the
      end are those of the class read without the byte. */
  method TryCharClass(pattern: Bytes, pi: nat, ch: Byte) returns (r: Option<(bool, nat)>)
    requires pi < |pattern| && pattern[pi] == OPEN
    ensures r.Some? <==> ReadClass(pattern, pi).Some?
    ensures r.Some? ==> r.value == (ReadToken(pattern, pi).0.Consumes(ch), ReadToken(pattern, pi).1)
    ensures r.None? ==> ReadToken(pattern, pi) == (Literal(OPEN), pi + 1)
  {
    var i := pi + 1;
    var negate := i < |pattern| && (pattern[i] == BANG || pattern[i] == CARET);
    if negate {
      i := i + 1;
    }
    var classStart := i;
    var found := false;
    ghost var read := ReadRanges(pattern, classStart);
    while i < |pattern| && pattern[i] != CLOSE
      invariant classStart <= i <= |pattern|
      invariant ReadRanges(pattern, i).1 == read.1
      invariant found || AnyCovers(ReadRanges(pattern, i).0, ch) <==> AnyCovers(read.0, ch)
    {
      var lo := pattern[i];
      if i + 2 < |pattern| && pattern[i + 1] == DASH && pattern[i + 2] != CLOSE {
        var hi := pattern[i + 2];
        var (a, b) := if lo <= hi then (lo, hi) else (hi, lo);
        AnyCoversCons(Range(a, b), ReadRanges(pattern, i + 3).0, ch);
        if a <= ch <= b {
          found := true;
        }
        i := i + 3;
      } else {
        AnyCoversCons(Range(lo, lo), ReadRanges(pattern, i + 1).0, ch);
        if lo == ch {
          found := true;
        }
        i := i + 1;
      }
    }
    if i >= |pattern| {
      return None;
    }
    if i == classStart {
      return None;
    }
    return Some((found != negate, i + 1));
  }

  /** Everything the loop keeps: since the saved star, one byte has been taken
      per token, none of them a star; and the whole name matches exactly when the
      rest of the name fits from here, or the saved star takes a byte more. */
  ghost predicate Tracks(name: Bytes, p: Bytes, ni: nat, pi: nat, star: Option<nat>, starNi: nat)
  {
    && starNi <= ni <= |name| && pi <= |p|
    && (star.Some? ==> star.value < |p| && p[star.value] == STAR && Reaches(p, star.value + 1, pi, ni - starNi))
    && (Fits(name, p, 0, 0) <==>
        || Fits(name, p, ni, pi)
        || (star.Some? && starNi < |name| && Fits(name, p, starNi + 1, star.value)))
  }

  /** Reaching a star: it alone needs to be remembered from here on, because it
      can absorb whatever a longer stretch of the previous star would have taken. */
  lemma TracksStar(name: Bytes, p: Bytes, ni: nat, pi: nat, star: Option<nat>, starNi: nat)
    requires Tracks(name, p, ni, pi, star, starNi)
    requires ni < |name| && pi < |p| && p[pi] == STAR
    ensures Tracks(name, p, ni, pi + 1, Some(pi), ni)
    ensures TurnsLeft(name, p, ni, pi + 1) < TurnsLeft(name, p, starNi, pi)
  {
    TurnsLeftDrops(name, p, starNi, pi, ni, pi + 1);
    if star.Some? && Fits(name, p, starNi + 1, star.value) {
      var arrival := LongerStretch(name, p, starNi + 1, star.value, pi, ni - starNi);
      StarAbsorbs(name, p, ni, arrival, pi);
    }
  }

  /** Taking one byte with the token at `pi`. */
  lemma TracksByte(name: Bytes, p: Bytes, ni: nat, pi: nat, star: Option<nat>, starNi: nat)
    requires Tracks(name, p, ni, pi, star, starNi)
    requires ni < |name| && pi < |p| && p[pi] != STAR && ReadToken(p, pi).0.Consumes(name[ni])
    ensures Tracks(name, p, ni + 1, ReadToken(p, pi).1, star, starNi)
    ensures TurnsLeft(name, p, starNi, ReadToken(p, pi).1) < TurnsLeft(name, p, starNi, pi)
  {
    TurnsLeftDrops(name, p, starNi, pi, starNi, ReadToken(p, pi).1);
    if star.Some? {
      ReachesNext(p, star.value + 1, pi, ni - starNi);
    }
  }

  /** Giving up on (`ni`, `pi`): the saved star takes one byte more, and without
      a saved star there is no match. */
  lemma TracksMismatch(name: Bytes, p: Bytes, ni: nat, pi: nat, star: Option<nat>, starNi: nat)
    requires Tracks(name, p, ni, pi, star, starNi)
    requires ni < |name|
    requires pi < |p| ==> p[pi] != STAR && !ReadToken(p, pi).0.Consumes(name[ni])
    ensures star.None? ==> !Fits(name, p, 0, 0)
    ensures star.Some? ==> Tracks(name, p, starNi + 1, star.value + 1, star, starNi + 1)
    ensures star.Some? ==> TurnsLeft(name, p, starNi + 1, star.value + 1) < TurnsLeft(name, p, starNi, pi)
  {
    if star.Some? {
      TurnsLeftDrops(name, p, starNi, pi, starNi + 1, star.value + 1);
    }
  }

  /** With the name used up, only trailing stars can still be matched. */
  lemma TracksAtEnd(name: Bytes, p: Bytes, pi: nat, star: Option<nat>, starNi: nat)
    requires Tracks(name, p, |name|, pi, star, starNi)
    ensures Fits(name, p, 0, 0) <==> Fits(name, p, |name|, pi)
  {
    if star.Some? && starNi < |name| && Fits(name, p, starNi + 1, star.value) {
      var arrival := LongerStretch(name, p, starNi + 1, star.value, pi, |name| - starNi);
      assert false;
    }
  }

  /** An upper bound on the turns still to come: one row of |p|+1 turns for each
      byte the saved star may still take, and the rest of the present row. */
  ghost function TurnsLeft(name: Bytes, p: Bytes, starNi: nat, pi: nat): nat
    requires starNi <= |name| && pi <= |p|
    decreases |name| - starNi
  {
    if starNi == |name| then |p| - pi
    else TurnsLeft(name, p, starNi + 1, 0) + |p| + 1 - pi
  }

  lemma {:induction false} TurnsLeftProduct(name: Bytes, p: Bytes, starNi: nat)
    requires starNi <= |name|
    ensures TurnsLeft(name, p, starNi, 0) + 1 == (|name| - starNi + 1) * (|p| + 1)
    decreases |name| - starNi
  {
    if starNi < |name| {
      TurnsLeftProduct(name, p, starNi + 1);
      var rows := |name| - starNi;
      assert (rows + 1) * (|p| + 1) == rows * (|p| + 1) + (|p| + 1);
    }
  }

  lemma {:induction false} TurnsLeftDrops(name: Bytes, p: Bytes, starNi: nat, pi: nat, starNi': nat, pi': nat)
    requires starNi <= starNi' <= |name| && pi <= |p| && pi' <= |p|
    requires starNi == starNi' ==> pi < pi'
    ensures TurnsLeft(name, p, starNi', pi') < TurnsLeft(name, p, starNi, pi)
    decreases starNi' - starNi
  {
    if starNi + 1 < starNi' {
      TurnsLeftDrops(name, p, starNi + 1, 0, starNi', pi');
    }
  }

  /** The matcher decides the declarative meaning, and takes at most
      (|name|+1)(|pattern|+1) turns of its main loop. */
  method MatchPattern(name: Bytes, pattern: Bytes) returns (matched: bool, ghost turns: nat)
    ensures matched <==> Accepts(name, Tokens(pattern, 0))
    ensures turns <= (|name| + 1) * (|pattern| + 1)
  {
    var ni: nat, pi: nat := 0, 0;
    var starPi: Option<nat> := None;
    var starNi: nat := 0;
    turns := 0;
    TurnsLeftProduct(name, pattern, 0);
    FitsMeansAccepts(name, pattern, 0, 0);
    assert name[0..] == name;

    while ni < |name|
      invariant starNi <= ni <= |name| && pi <= |pattern|
      invariant Tracks(name, pattern, ni, pi, starPi, starNi)
      invariant turns + TurnsLeft(name, pattern, starNi, pi) < (|name| + 1) * (|pattern| + 1)
      decreases TurnsLeft(name, pattern, starNi, pi)
    {
      turns := turns + 1;
      if pi < |pattern| {
        if pattern[pi] == STAR {
          TracksStar(name, pattern, ni, pi, starPi, starNi);
          starPi := Some(pi);
          starNi := ni;
          pi := pi + 1;
          continue;
        }
        var next := TryByte(pattern, pi, name[ni]);
        if next.Some? {
          TracksByte(name, pattern, ni, pi, starPi, starNi);
          pi := next.value;
          ni := ni + 1;
          continue;
        }
      }
      TracksMismatch(name, pattern, ni, pi, starPi, starNi);
      if starPi.Some? {
        pi := starPi.value + 1;
        starNi := starNi + 1;
        ni := starNi;
      } else {
        return false, turns;
      }
    }
    TracksAtEnd(name, pattern, pi, starPi, starNi);
    while pi < |pattern| && pattern[pi] == STAR
      invariant pi <= |pattern|
      invariant Fits(name, pattern, |name|, pi) <==> Fits(name, pattern, 0, 0)
    {
      pi := pi + 1;
    }
    matched := pi == |pattern|;
  }
}
