/** What replay makes of any journal file, line by line: blank lines, lines of another
    origin, an unfinished line, and bytes that are not text. */
module JournalLines {
  import opened Prelude
  import opened Text
  import Utf8
  import opened UploadJournal

  // ----- Replay fails on bytes that are not text, and only then -----

  /** With `more` after it, a file is text exactly when each of its complete lines is,
      and the open one with `more` after it. */
  lemma {:induction false} LinesAreText(bs: Bytes, more: Bytes)
    ensures Utf8.Valid(bs + more) <==> AllValid(Lines(bs).0) && Utf8.Valid(Lines(bs).1 + more)
  {
    if bs == [] {
      assert bs + more == more && Lines(bs).1 + more == more;
    } else {
      var n := |bs| - 1;
      var front, c := bs[..n], bs[n];
      var (complete, tail) := Lines(front);
      LinesAreText(front, [c] + more);
      assert bs + more == front + ([c] + more);
      if c == NEWLINE {
        Utf8.CutBeforeAscii(tail, [c] + more, 0);
        Utf8.Shift([c], more, 0);
        AllValidSnoc(complete, tail);
        assert [] + more == more;
      } else {
        assert tail + ([c] + more) == tail + [c] + more;
      }
    }
  }

  /** Replay fails exactly on a file that is not the encoding of some text. */
  lemma FailsExactly<E>(codec: Codec<E>, bs: Bytes)
    ensures Replayed(codec, bs).Err? <==> !exists s :: Encode(s) == bs
  {
    LinesAreText(bs, []);
    assert bs + [] == bs && Lines(bs).1 + [] == Lines(bs).1;
    Utf8.ValidExactly(bs);
  }

  // ----- Blank lines -----

  /** A character is skipped as a space exactly when it is White_Space. */
  lemma BlankChar(c: char, rest: Bytes)
    ensures IsBlank(EncodeChar(c) + rest, 0) <==> IsWhitespace(c) && IsBlank(rest, 0)
  {
    var n := c as int;
    var bs := EncodeChar(c);
    var line := bs + rest;
    assert forall i | 0 <= i < |bs| :: line[i] == bs[i];
    BlankShift(bs, rest, 0);
    if |bs| == 3 {
      WideSpaceIsWhite(n, bs[0], bs[1], bs[2]);
    }
  }

  lemma WideSpaceIsWhite(n: nat, x: Byte, y: Byte, z: Byte)
    requires 0x800 <= n < 0x10000 && x == 0xE0 + n / 4096 && y == 0x80 + n / 64 % 64 && z == 0x80 + n % 64
    ensures IsWideSpace(x, y, z) <==>
            n == 0x1680 || 0x2000 <= n <= 0x200A || n == 0x2028 || n == 0x2029 || n == 0x202F || n == 0x205F || n == 0x3000
  {
    var m := n / 64;
    assert n == m * 64 + n % 64;
    Utf8.DivisionsChain(n);
    assert m == m / 64 * 64 + m % 64;
  }

  lemma {:induction false} BlankShift(a: Bytes, line: Bytes, i: nat)
    requires i <= |line|
    ensures IsBlank(a + line, |a| + i) <==> IsBlank(line, i)
    decreases |line| - i
  {
    if i < |line| {
      assert forall k | i <= k < |line| :: (a + line)[|a| + k] == line[k];
      BlankShift(a, line, i + 1);
      if i + 2 <= |line| {
        BlankShift(a, line, i + 2);
      }
      if i + 3 <= |line| {
        BlankShift(a, line, i + 3);
      }
    }
  }

  lemma {:induction false} BlankExactly(s: string)
    ensures IsBlank(Encode(s), 0) <==> forall c | c in s :: IsWhitespace(c)
  {
    if s != [] {
      BlankExactly(s[1..]);
      BlankChar(s[0], Encode(s[1..]));
      assert s == [s[0]] + s[1..];
    }
  }

  // ----- One more line -----

  lemma {:induction false} HasByte(s: string, c: char)
    requires c as int < 0x80
    ensures c as int in Encode(s) <==> c in s
  {
    if s != [] {
      HasByte(s[1..], c);
      assert s == [s[0]] + s[1..];
      var first := EncodeChar(s[0]);
      assert |first| > 1 ==> forall b | b in first :: b >= 0x80;
      assert |first| == 1 ==> first == [s[0] as int];
    }
  }

  lemma LastByte(s: string)
    requires s != []
    ensures Encode(s) != [] && (Encode(s)[|Encode(s)| - 1] == 13 <==> s[|s| - 1] == '\r')
  {
    var n := |s| - 1;
    var last := EncodeChar(s[n]);
    assert s == s[..n] + [s[n]];
    Utf8.EncodeConcat(s[..n], [s[n]]);
    assert [s[n]][1..] == [] && Encode([s[n]]) == last + [];
    assert last[|last| - 1] in last;
  }

  /** The line without its ending. */
  lemma Stripped(s: string, returned: bool)
    requires !returned ==> s == [] || s[|s| - 1] != '\r'
    ensures StripReturn(Encode(s) + if returned then [13] else []) == Encode(s)
  {
    var line := Encode(s) + if returned then [13] else [];
    if returned {
      assert line[|line| - 1] == 13 && line[..|line| - 1] == Encode(s);
    } else {
      assert line == Encode(s);
      if s != [] {
        LastByte(s);
      }
    }
  }

  lemma LineIsText(s: string, returned: bool)
    requires '\n' !in s
    ensures var line := Encode(s) + if returned then [13] else []; 10 !in line && Utf8.Valid(line)
  {
    HasByte(s, '\n');
    Utf8.EncodeIsValid(s);
    if returned {
      Utf8.CutBeforeAscii(Encode(s), [13], 0);
      Utf8.AsciiIsValid([13], 0);
    } else {
      assert Encode(s) + [] == Encode(s);
    }
  }

  ghost predicate EndsClean(bs: Bytes) {
    bs == [] || bs[|bs| - 1] == 10
  }

  /** What one more line of text adds to a clean file, whatever ends it: nothing if it
      is blank, its entry if it parses, and one rejected line otherwise. */
  lemma LineExactly<E>(codec: Codec<E>, bs: Bytes, r: Report<E>, s: string, returned: bool)
    requires EndsClean(bs) && Replayed(codec, bs) == Ok(r)
    requires '\n' !in s && (!returned ==> s == [] || s[|s| - 1] != '\r')
    ensures var line := Encode(s) + if returned then [13] else [];
            Replayed(codec, bs + line + [10]) ==
            if forall c | c in s :: IsWhitespace(c) then Ok(r)
            else match codec.parse(Encode(s))
                 case Some(e) => Ok(Report(r.entries + [e], r.rejectedLines))
                 case None => Ok(Report(r.entries, r.rejectedLines + 1))
  {
    var line := Encode(s) + if returned then [13] else [];
    LineIsText(s, returned);
    AddsLine(codec, bs, r, line);
    ReadsAs(codec, r, s, returned);
  }

  lemma AddsLine<E>(codec: Codec<E>, bs: Bytes, r: Report<E>, line: Bytes)
    requires EndsClean(bs) && Replayed(codec, bs) == Ok(r)
    requires NEWLINE !in line && Utf8.Valid(line)
    ensures Replayed(codec, bs + line + [10]) == Ok(ReadLine(codec, r, line))
  {
    var (complete, tail) := Lines(bs);
    CleanHasNoTail(bs);
    LinesEntry(bs, line);
    assert tail + line == line;
    AllValidSnoc(complete, line);
    ReadLinesSame(codec, complete, line, |complete|);
  }

  lemma ReadsAs<E>(codec: Codec<E>, r: Report<E>, s: string, returned: bool)
    requires !returned ==> s == [] || s[|s| - 1] != '\r'
    ensures var line := Encode(s) + if returned then [13] else [];
            ReadLine(codec, r, line) ==
            if forall c | c in s :: IsWhitespace(c) then r
            else match codec.parse(Encode(s))
                 case Some(e) => Report(r.entries + [e], r.rejectedLines)
                 case None => Report(r.entries, r.rejectedLines + 1)
  {
    Stripped(s, returned);
    BlankExactly(s);
  }

  lemma CleanHasNoTail(bs: Bytes)
    requires EndsClean(bs)
    ensures Lines(bs).1 == []
  {
    if bs != [] {
      TailAtEnd(bs);
    }
  }

  /** A last line that no newline ends is rejected, whatever it holds. */
  lemma UnfinishedExactly<E>(codec: Codec<E>, bs: Bytes, r: Report<E>, s: string)
    requires EndsClean(bs) && Replayed(codec, bs) == Ok(r)
    requires '\n' !in s && s != []
    ensures Replayed(codec, bs + Encode(s)) == Ok(Report(r.entries, r.rejectedLines + 1))
  {
    LineIsText(s, false);
    assert Encode(s) + [] == Encode(s);
    LastByte(s);
    AddsOpenLine(codec, bs, r, Encode(s));
  }

  lemma AddsOpenLine<E>(codec: Codec<E>, bs: Bytes, r: Report<E>, text: Bytes)
    requires EndsClean(bs) && Replayed(codec, bs) == Ok(r)
    requires NEWLINE !in text && text != [] && Utf8.Valid(text)
    ensures Replayed(codec, bs + text) == Ok(Report(r.entries, r.rejectedLines + 1))
  {
    CleanHasNoTail(bs);
    LinesText(bs, text);
    assert Lines(bs).1 + text == text;
  }

  /** An empty file holds nothing. */
  lemma EmptyExactly<E>(codec: Codec<E>)
    ensures Replayed(codec, []) == Ok(Report([], 0))
  {
  }
}
