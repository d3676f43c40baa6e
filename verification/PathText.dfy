/** The two path normalisers and the parent split, against one reading of a path
    as a list of segments. */
module PathText {
  import opened Prelude
  import opened Text

  datatype PathError = InvalidPath(path: string)

  ghost predicate IsSegment(s: string) {
    s != [] && '/' !in s
  }

  ghost predicate AreSegments(segments: seq<string>) {
    forall s | s in segments :: IsSegment(s)
  }

  /** The segments of a path: what stands between its slashes. */
  function Segments(path: string): seq<string> {
    NonEmpty(Split(path, '/'))
  }

  /** A slash in front of every segment. */
  function Slashed(segments: seq<string>): string {
    if segments == [] then [] else Slashed(segments[..|segments| - 1]) + ['/'] + segments[|segments| - 1]
  }

  /** The one way to write an absolute path. */
  function Render(segments: seq<string>): string {
    if segments == [] then "/" else Slashed(segments)
  }

  lemma SegmentsAreSegments(path: string)
    ensures AreSegments(Segments(path))
  {
    PiecesAvoidSeparator(path, '/');
    NonEmptyKeeps(Split(path, '/'));
  }

  /** What segments are: a text without a slash is one, unless it is empty; and a slash
      separates those before it from those after it. */
  lemma SegmentsExactly(text: string, a: string, b: string)
    ensures '/' !in text ==> Segments(text) == if text == "" then [] else [text]
    ensures Segments(a + "/" + b) == Segments(a) + Segments(b)
  {
    if '/' !in text {
      SplitWhole(text, '/');
      NonEmptySingle(text);
    }
    SplitConcat(a, '/', b);
    NonEmptyConcat(Split(a, '/'), Split(b, '/'));
  }

  /** How a path is written: the root as one slash, and each further segment after one
      more. */
  lemma RenderExactly(segments: seq<string>, last: string)
    ensures Render([]) == "/"
    ensures Render(segments + [last]) == (if segments == [] then "" else Render(segments)) + "/" + last
  {
    var longer := segments + [last];
    assert longer[..|segments|] == segments && longer[|segments|] == last;
    assert Slashed(longer) == Slashed(segments) + ['/'] + last;
  }

  // ----- How the segments grow with the text -----

  predicate EndsWithSlash(s: string) {
    s != [] && s[|s| - 1] == '/'
  }

  lemma LastPiece(s: string)
    ensures Split(s, '/')[|Split(s, '/')| - 1] == [] <==> s == [] || EndsWithSlash(s)
  {
  }

  lemma SegmentsSlash(s: string)
    ensures Segments(s + ['/']) == Segments(s)
  {
    SplitSnoc(s, '/', '/');
    NonEmptyConcat(Split(s, '/'), [[]]);
    assert NonEmpty([[]]) == [];
  }

  lemma NonEmptySingle(piece: string)
    ensures NonEmpty([piece]) == if piece == [] then [] else [piece]
  {
  }

  /** A character after a slash opens a segment; after another character it
      lengthens the last one. */
  lemma SegmentsChar(s: string, c: char)
    requires c != '/'
    ensures s == [] || EndsWithSlash(s) ==> Segments(s + [c]) == Segments(s) + [[c]]
    ensures s != [] && !EndsWithSlash(s) ==>
              var n := |Segments(s)| - 1;
              n >= 0 && Segments(s + [c]) == Segments(s)[..n] + [Segments(s)[n] + [c]]
  {
    SplitSnoc(s, c, '/');
    LastPiece(s);
    var pieces := Split(s, '/');
    var n := |pieces| - 1;
    assert pieces == pieces[..n] + [pieces[n]];
    NonEmptyConcat(pieces[..n], [pieces[n]]);
    NonEmptyConcat(pieces[..n], [pieces[n] + [c]]);
    NonEmptySingle(pieces[n]);
    NonEmptySingle(pieces[n] + [c]);
    if s == [] || EndsWithSlash(s) {
      assert pieces[n] == [] && pieces[n] + [c] == [c];
    }
  }

  lemma SlashedSnoc(segments: seq<string>, last: string)
    ensures Slashed(segments + [last]) == Slashed(segments) + ['/'] + last
  {
    var longer := segments + [last];
    assert longer[..|segments|] == segments && longer[|segments|] == last;
    assert Slashed(longer) == Slashed(segments) + ['/'] + last;
  }

  lemma SegmentsAppend(path: string, last: string)
    requires IsSegment(last)
    ensures Segments(path + ['/'] + last) == Segments(path) + [last]
  {
    SplitConcat(path, '/', last);
    NonEmptyConcat(Split(path, '/'), Split(last, '/'));
    SplitWhole(last, '/');
    NonEmptySingle(last);
  }

  /** Reading back a written list of segments. */
  lemma {:induction false} SegmentsOfSlashed(segments: seq<string>)
    requires AreSegments(segments)
    ensures Segments(Slashed(segments)) == segments
  {
    if segments == [] {
      assert Split([], '/') == [[]];
    } else {
      var n := |segments| - 1;
      SegmentsOfSlashed(segments[..n]);
      assert segments[n] in segments;
      SegmentsAppend(Slashed(segments[..n]), segments[n]);
    }
  }

  lemma SegmentsOfRender(segments: seq<string>)
    requires AreSegments(segments)
    ensures Segments(Render(segments)) == segments
  {
    SegmentsOfSlashed(segments);
    if segments == [] {
      SegmentsSlash([]);
      assert [] + ['/'] == "/";
      assert Split([], '/') == [[]];
    }
  }

  // ----- The streaming normaliser -----

  /** What the loop has written after reading `read`. */
  ghost predicate WrittenFor(read: string, out: string, prevSlash: bool) {
    && prevSlash == EndsWithSlash(read)
    && out == Slashed(Segments(read)) + if prevSlash then "/" else ""
  }

  lemma WriteStep(read: string, c: char, out: string, prevSlash: bool)
    requires WrittenFor(read, out, prevSlash)
    requires read == [] ==> c == '/'
    ensures c == '/' ==> WrittenFor(read + [c], if prevSlash then out else out + ['/'], true)
    ensures c != '/' ==> WrittenFor(read + [c], out + [c], false)
  {
    if c == '/' {
      SegmentsSlash(read);
    } else {
      SegmentsChar(read, c);
      var segments := Segments(read);
      if prevSlash {
        SlashedSnoc(segments, [c]);
      } else {
        var n := |segments| - 1;
        SlashedSnoc(segments[..n], segments[n] + [c]);
      }
    }
  }

  method NormalizePath(path: string) returns (r: Result<string, PathError>)
    ensures r == if path != [] && path[0] == '/' then Ok(Render(Segments(path))) else Err(InvalidPath(path))
  {
    if path == [] || path[0] != '/' {
      return Err(InvalidPath(path));
    }
    var out: string := [];
    var prevSlash := false;
    assert Split([], '/') == [[]] && path[..0] == [];
    for i := 0 to |path|
      invariant WrittenFor(path[..i], out, prevSlash)
    {
      var ch := path[i];
      WriteStep(path[..i], ch, out, prevSlash);
      assert path[..i + 1] == path[..i] + [ch];
      if ch == '/' {
        if prevSlash {
          continue;
        }
        prevSlash := true;
        out := out + ['/'];
      } else {
        prevSlash := false;
        out := out + [ch];
      }
    }
    assert path[..|path|] == path;
    LastIsNotSlash(path);
    if |out| > 1 && out[|out| - 1] == '/' {
      out := out[..|out| - 1];
    }
    assert out == Render(Segments(path)) by {
      if Segments(path) == [] {
        assert out == "/";
      }
    }
    return Ok(out);
  }

  lemma LastIsNotSlash(path: string)
    ensures Segments(path) != [] ==> |Slashed(Segments(path))| > 1 && !EndsWithSlash(Slashed(Segments(path)))
    ensures path != [] && !EndsWithSlash(path) ==> Segments(path) != []
  {
    if path != [] && !EndsWithSlash(path) {
      var n := |path| - 1;
      SegmentsChar(path[..n], path[n]);
      assert path == path[..n] + [path[n]];
    }
    SegmentsAreSegments(path);
    var segments := Segments(path);
    if segments != [] {
      var last := segments[|segments| - 1];
      assert IsSegment(last) && last[|last| - 1] in last;
    }
  }

  // ----- The splitting normaliser -----

  function Join(segments: seq<string>, sep: char): string
    requires segments != []
  {
    var n := |segments| - 1;
    if n == 0 then segments[0] else Join(segments[..n], sep) + [sep] + segments[n]
  }

  function NormalizeRemotePath(path: string): string {
    var trimmed := Trim(path);
    if trimmed == "/" then "/"
    else
      var segments := Segments(trimmed);
      if segments == [] then "/" else "/" + Join(segments, '/')
  }

  lemma {:induction false} JoinIsSlashed(segments: seq<string>)
    requires segments != []
    ensures "/" + Join(segments, '/') == Slashed(segments)
  {
    var n := |segments| - 1;
    if n > 0 {
      JoinIsSlashed(segments[..n]);
      assert "/" + Join(segments, '/') == ("/" + Join(segments[..n], '/')) + ['/'] + segments[n];
    } else {
      assert segments[..0] == [];
    }
  }

  lemma RemoteRendersTrimmed(path: string)
    ensures NormalizeRemotePath(path) == Render(Segments(Trim(path)))
  {
    var segments := Segments(Trim(path));
    if segments != [] {
      JoinIsSlashed(segments);
    }
    if Trim(path) == "/" {
      SegmentsOfRender([]);
    }
  }

  /** Every character other than a slash makes the written path longer. */
  lemma {:induction false} WrittenGrows(path: string, end: nat)
    requires end < |path|
    requires forall i | end <= i < |path| :: path[i] != '/'
    ensures |Slashed(Segments(path[..end]))| < |Slashed(Segments(path))|
    ensures 2 <= |Slashed(Segments(path))|
    decreases |path| - end
  {
    var n := |path| - 1;
    var front := path[..n];
    assert path == front + [path[n]];
    CharGrows(front, path[n]);
    if end < n {
      WrittenGrows(front, end);
      assert front[..end] == path[..end];
    }
  }

  lemma CharGrows(front: string, c: char)
    requires c != '/'
    ensures |Slashed(Segments(front))| < |Slashed(Segments(front + [c]))|
    ensures 2 <= |Slashed(Segments(front + [c]))|
  {
    SegmentsChar(front, c);
    var segments := Segments(front);
    if front == [] || EndsWithSlash(front) {
      SlashedSnoc(segments, [c]);
    } else {
      var m := |segments| - 1;
      SlashedSnoc(segments[..m], segments[m] + [c]);
    }
  }

  /** Trimming an absolute path can only shorten it at the end, by whitespace. */
  lemma TrimAbsolute(path: string) returns (end: nat)
    requires path != [] && path[0] == '/'
    ensures end <= |path| && Trim(path) == path[..end]
    ensures forall i | end <= i < |path| :: path[i] != '/'
    ensures end < |path| <==> IsWhitespace(path[|path| - 1])
  {
    assert TrimStart(path) == path;
    TrimEndIs(path);
    end := |TrimEnd(path)|;
  }

  /** The two normalisers agree on an absolute path exactly when it does not end
      in whitespace, which only one of them strips. */
  lemma NormalisersAgree(path: string)
    requires path != [] && path[0] == '/'
    ensures Render(Segments(path)) == NormalizeRemotePath(path) <==> !IsWhitespace(path[|path| - 1])
  {
    RemoteRendersTrimmed(path);
    var end := TrimAbsolute(path);
    if end < |path| {
      WrittenGrows(path, end);
    } else {
      assert path[..end] == path;
    }
  }

  // ----- Normal form -----

  ghost predicate NoDoubleSlash(s: string) {
    forall i | 0 < i < |s| :: !(s[i - 1] == '/' && s[i] == '/')
  }

  /** Absolute, no empty segment, no trailing slash except for the root itself. */
  ghost predicate IsNormal(s: string) {
    s == "/" || (s != [] && s[0] == '/' && NoDoubleSlash(s) && !EndsWithSlash(s))
  }

  lemma {:induction false} SlashedIsClean(segments: seq<string>)
    requires AreSegments(segments)
    ensures var s := Slashed(segments); NoDoubleSlash(s) && !EndsWithSlash(s) && (segments != [] ==> s != [] && s[0] == '/')
  {
    if segments != [] {
      var n := |segments| - 1;
      SlashedIsClean(segments[..n]);
      var last := segments[n];
      assert last in segments && last[0] in last && last[|last| - 1] in last;
      var front := Slashed(segments[..n]);
      var s := front + ['/'] + last;
      forall i | 0 < i < |s|
        ensures !(s[i - 1] == '/' && s[i] == '/')
      {
        if i > |front| {
          assert s[i] == last[i - |front| - 1] && s[i] in last;
        }
      }
    }
  }

  /** A clean absolute text is its own segments written out. */
  lemma {:induction false} CleanIsWritten(s: string)
    requires s != [] ==> s[0] == '/'
    requires NoDoubleSlash(s)
    ensures s == Slashed(Segments(s)) + if EndsWithSlash(s) then "/" else ""
  {
    if s == [] {
      assert Split([], '/') == [[]];
    } else {
      var n := |s| - 1;
      CleanIsWritten(s[..n]);
      assert s == s[..n] + [s[n]];
      assert EndsWithSlash(s[..n]) ==> s[n - 1] == '/' && s[n] != '/';
      WriteStep(s[..n], s[n], s[..n], EndsWithSlash(s[..n]));
    }
  }

  /** Normalising always gives a normal path and keeps the segments; and the
      normal paths are exactly the ones that normalising leaves alone. */
  lemma NormalForm(path: string)
    ensures IsNormal(Render(Segments(path)))
    ensures Segments(Render(Segments(path))) == Segments(path)
    ensures Render(Segments(path)) == path <==> IsNormal(path)
  {
    SegmentsAreSegments(path);
    SlashedIsClean(Segments(path));
    SegmentsOfRender(Segments(path));
    if IsNormal(path) {
      CleanIsWritten(path);
      LastIsNotSlash(path);
      if path == "/" {
        SegmentsOfRender([]);
      }
    }
  }

  // ----- The parent split -----

  function LastSlash(s: string): (i: nat)
    requires '/' in s
    ensures i < |s| && s[i] == '/'
    ensures forall j | i < j < |s| :: s[j] != '/'
  {
    var n := |s| - 1;
    if s[n] == '/' then n
    else
      assert s == s[..n] + [s[n]];
      LastSlash(s[..n])
  }

  function TrimSlashes(s: string): string {
    if s != [] && s[0] == '/' then TrimSlashes(s[1..]) else s
  }

  function SplitParent(path: string): (string, string)
    requires '/' in path
  {
    var i := LastSlash(path);
    (if i == 0 then "/" else path[..i], TrimSlashes(path[i..]))
  }

  lemma SplitAtLast(front: string, last: string)
    requires IsSegment(last)
    ensures '/' in front + ['/'] + last
    ensures SplitParent(front + ['/'] + last) == (if front == [] then "/" else front, last)
  {
    var path := front + ['/'] + last;
    assert path[|front|] == '/';
    forall j | |front| < j < |path|
      ensures path[j] != '/'
    {
      assert path[j] == last[j - |front| - 1] && last[j - |front| - 1] in last;
    }
    var i := LastSlash(path);
    assert i == |front|;
    assert path[..i] == front;
    assert path[i..] == ['/'] + last && last[0] in last;
    TrimOneSlash(last);
  }

  lemma TrimOneSlash(last: string)
    requires last == [] || last[0] != '/'
    ensures TrimSlashes(['/'] + last) == last
  {
    assert (['/'] + last)[1..] == last;
  }

  /** Of a path with at least one segment, the split gives the path without the
      last segment, and that segment. */
  lemma SplitParentOf(segments: seq<string>)
    requires AreSegments(segments) && segments != []
    ensures '/' in Render(segments)
    ensures SplitParent(Render(segments)) == (Render(segments[..|segments| - 1]), segments[|segments| - 1])
  {
    var n := |segments| - 1;
    assert segments[n] in segments;
    SplitAtLast(Slashed(segments[..n]), segments[n]);
    SlashedIsClean(segments[..n]);
  }

  /** Putting the two halves back together: the parent's own slash when the
      parent is the root, one more slash otherwise. */
  function Rejoin(parent: string, last: string): string {
    if parent == "/" then parent + last else parent + "/" + last
  }

  /** Rejoining the two halves gives back the path; the parent is normal and the
      last part has no slash. */
  lemma SplitParentRejoins(path: string)
    requires IsNormal(path)
    ensures '/' in path
    ensures Rejoin(SplitParent(path).0, SplitParent(path).1) == path
    ensures IsNormal(SplitParent(path).0) && '/' !in SplitParent(path).1
  {
    assert path[0] == '/';
    var segments := Segments(path);
    NormalForm(path);
    SegmentsAreSegments(path);
    if segments == [] {
      SplitRoot();
    } else {
      SplitParentOf(segments);
      RejoinRendered(segments);
    }
  }

  lemma SplitRoot()
    ensures SplitParent("/") == ("/", "")
  {
    assert LastSlash("/") == 0 && "/"[0..] == ['/'] + [];
    TrimOneSlash([]);
  }

  lemma RejoinRendered(segments: seq<string>)
    requires AreSegments(segments) && segments != []
    ensures Rejoin(Render(segments[..|segments| - 1]), segments[|segments| - 1]) == Render(segments)
    ensures IsNormal(Render(segments[..|segments| - 1])) && '/' !in segments[|segments| - 1]
  {
    var n := |segments| - 1;
    assert segments[n] in segments;
    SlashedIsClean(segments[..n]);
    if n > 0 {
      assert segments[..n][n - 1] in segments;
      assert |Slashed(segments[..n])| > 1;
    }
  }
}
