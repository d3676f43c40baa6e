/** The append-only upload journal: what replay gives back after torn writes,
    later appends and rewrites. */
module UploadJournal {
  import opened Prelude
  import Utf8

  const NEWLINE: Byte := 10
  const RETURN: Byte := 13
  const BRACE_OPEN: Byte := 123
  const BRACE_CLOSE: Byte := 125

  /** How one entry is written on a line, and how a line is parsed back. */
  datatype Codec<!E> = Codec(write: E -> Bytes, parse: Bytes -> Option<E>)

  /** What the journal needs of its line format: an entry is one well-formed line
      that begins with a brace and parses back; and a line with anything in front of an entry
      does not parse when it starts like an entry. */
  ghost predicate Sound<E(!new)>(codec: Codec<E>) {
    && (forall e :: IsEntryLine(codec.write(e)) && codec.parse(codec.write(e)) == Some(e))
    && (forall torn: Bytes, e | torn != [] && torn[0] == BRACE_OPEN :: codec.parse(torn + codec.write(e)) == None)
  }

  ghost predicate IsEntryLine(line: Bytes) {
    && line != [] && line[0] == BRACE_OPEN
    && line[|line| - 1] != RETURN
    && NEWLINE !in line
    && Utf8.Valid(line)
  }

  // ----- Lines -----

  /** The lines ended by a newline, and what follows the last newline. */
  function Lines(bs: Bytes): (seq<Bytes>, Bytes) {
    if bs == [] then ([], [])
    else
      var (complete, tail) := Lines(bs[..|bs| - 1]);
      if bs[|bs| - 1] == NEWLINE then (complete + [tail], []) else (complete, tail + [bs[|bs| - 1]])
  }

  lemma LinesSnoc(bs: Bytes, c: Byte)
    ensures c == NEWLINE ==> Lines(bs + [c]) == (Lines(bs).0 + [Lines(bs).1], [])
    ensures c != NEWLINE ==> Lines(bs + [c]) == (Lines(bs).0, Lines(bs).1 + [c])
  {
    assert (bs + [c])[..|bs|] == bs;
  }

  lemma {:induction false} LinesText(bs: Bytes, text: Bytes)
    requires NEWLINE !in text
    ensures Lines(bs + text) == (Lines(bs).0, Lines(bs).1 + text)
  {
    if text == [] {
      assert bs + text == bs && Lines(bs).1 + text == Lines(bs).1;
    } else {
      var n := |text| - 1;
      var front, c := text[..n], text[n];
      assert text == front + [c] && c in text;
      LinesText(bs, front);
      LinesSnoc(bs + front, c);
      assert bs + text == bs + front + [c];
      assert Lines(bs).1 + text == Lines(bs).1 + front + [c];
    }
  }

  /** An entry written after `bs` completes whatever line was open. */
  lemma LinesEntry(bs: Bytes, line: Bytes)
    requires NEWLINE !in line
    ensures Lines(bs + line + [NEWLINE]) == (Lines(bs).0 + [Lines(bs).1 + line], [])
  {
    LinesText(bs, line);
    LinesSnoc(bs + line, NEWLINE);
  }

  lemma TailAtEnd(bs: Bytes)
    requires bs != []
    ensures Lines(bs).1 == [] <==> bs[|bs| - 1] == NEWLINE
  {
  }

  /** A line read with its ending removed: a `\r` before the newline goes too. */
  function StripReturn(line: Bytes): Bytes {
    if line != [] && line[|line| - 1] == RETURN then line[..|line| - 1] else line
  }

  /** Whether the line holds nothing but White_Space characters, from byte `i`. */
  predicate IsBlank(line: Bytes, i: nat)
    requires i <= |line|
    decreases |line| - i
  {
    var left := |line| - i;
    if left == 0 then true
    else if 9 <= line[i] <= 13 || line[i] == 32 then IsBlank(line, i + 1)
    else if left >= 2 && line[i] == 0xC2 && (line[i + 1] == 0x85 || line[i + 1] == 0xA0) then IsBlank(line, i + 2)
    else if left >= 3 && IsWideSpace(line[i], line[i + 1], line[i + 2]) then IsBlank(line, i + 3)
    else false
  }

  predicate IsWideSpace(a: Byte, b: Byte, c: Byte) {
    || (a == 0xE1 && b == 0x9A && c == 0x80)
    || (a == 0xE2 && b == 0x80 && (c <= 0x8A || c == 0xA8 || c == 0xA9 || c == 0xAF))
    || (a == 0xE2 && b == 0x81 && c == 0x9F)
    || (a == 0xE3 && b == 0x80 && c == 0x80)
  }

  // ----- What replay gives -----

  datatype Report<E> = Report(entries: seq<E>, rejectedLines: nat)

  datatype ReplayError = InvalidUtf8

  /** One complete line's contribution to the report. */
  function ReadLine<E>(codec: Codec<E>, report: Report<E>, line: Bytes): Report<E> {
    var text := StripReturn(line);
    if IsBlank(text, 0) then report
    else
      match codec.parse(text)
      case Some(e) => report.(entries := report.entries + [e])
      case None => report.(rejectedLines := report.rejectedLines + 1)
  }

  /** The report over the first `n` lines. */
  function ReadLines<E>(codec: Codec<E>, lines: seq<Bytes>, n: nat): Report<E>
    requires n <= |lines|
  {
    if n == 0 then Report([], 0) else ReadLine(codec, ReadLines(codec, lines, n - 1), lines[n - 1])
  }

  predicate AllValid(lines: seq<Bytes>) {
    forall line | line in lines :: Utf8.Valid(line)
  }

  /** The report for a file's bytes: every complete line in order, and one more
      rejected line if the file does not end in a newline. Bytes that are not
      UTF-8, on whichever line, make the whole replay fail. */
  function Replayed<E>(codec: Codec<E>, bs: Bytes): Result<Report<E>, ReplayError> {
    var (complete, tail) := Lines(bs);
    if !AllValid(complete) || !Utf8.Valid(tail) then Err(InvalidUtf8)
    else
      var report := ReadLines(codec, complete, |complete|);
      Ok(if tail == [] then report else report.(rejectedLines := report.rejectedLines + 1))
  }

  // ----- The journal -----

  /** All lines of a file, the unfinished one included if it holds anything. */
  function AllLines(bs: Bytes): seq<Bytes> {
    var (complete, tail) := Lines(bs);
    if tail == [] then complete else complete + [tail]
  }

  function Encoded<E>(codec: Codec<E>, entries: seq<E>): Bytes {
    if entries == [] then []
    else
      var n := |entries| - 1;
      Encoded(codec, entries[..n]) + codec.write(entries[n]) + [NEWLINE]
  }

  class UploadJournal<E> {
    const codec: Codec<E>
    var file: Option<Bytes>

    constructor (codec: Codec<E>, file: Option<Bytes>)
      ensures this.codec == codec && this.file == file
    {
      this.codec := codec;
      this.file := file;
    }

    /** The file's bytes; a missing file reads as an empty one. */
    function Contents(): Bytes
      reads this
    {
      if file.Some? then file.value else []
    }

    method Append(e: E)
      modifies this
      ensures file.Some? && Contents() == old(Contents()) + codec.write(e) + [NEWLINE]
    {
      var line := codec.write(e) + [NEWLINE];
      file := Some(Contents() + line);
    }

    method RewriteAtomic(entries: seq<E>)
      modifies this
      ensures file.Some? && Contents() == Encoded(codec, entries)
    {
      var tmp: Bytes := [];
      for i := 0 to |entries|
        invariant tmp == Encoded(codec, entries[..i])
      {
        assert entries[..i + 1][..i] == entries[..i];
        tmp := tmp + codec.write(entries[i]) + [NEWLINE];
      }
      assert entries[..|entries|] == entries;
      file := Some(tmp);
    }

    method Clear()
      modifies this
      ensures file.Some? && Contents() == []
    {
      RewriteAtomic([]);
    }

    method Replay() returns (r: Result<Report<E>, ReplayError>)
      ensures r == Replayed(codec, Contents())
    {
      if file.None? {
        return Ok(Report([], 0));
      }
      var buf := file.value;
      var report := Report([], 0);
      if buf == [] {
        return Ok(report);
      }
      var trailingNewline := buf[|buf| - 1] == NEWLINE;
      var lines := AllLines(buf);
      if !AllValid(lines) {
        return Err(InvalidUtf8);
      }
      ghost var complete, tail := Lines(buf).0, Lines(buf).1;
      TailAtEnd(buf);
      assert forall line | line in complete :: line in lines;
      assert tail != [] ==> tail in lines;
      for idx := 0 to |lines|
        invariant idx <= |complete| ==> report == ReadLines(codec, complete, idx)
        invariant idx > |complete| ==> Ok(report) == Replayed(codec, buf)
      {
        var isLast := idx + 1 == |lines|;
        if isLast && !trailingNewline {
          report := report.(rejectedLines := report.rejectedLines + 1);
          continue;
        }
        report := ReadLine(codec, report, lines[idx]);
      }
      return Ok(report);
    }
  }

  // ----- Runs of appends, torn appends and rewrites -----

  /** What can happen to the file. A torn append has written only its first
      `written` bytes when the process dies; a lost rewrite dies before its rename. */
  datatype Event<E> =
    | Appended(e: E)
    | Torn(e: E, written: nat)
    | Rewritten(entries: seq<E>)
    | RewriteLost(entries: seq<E>)

  function Apply<E>(codec: Codec<E>, bs: Bytes, event: Event<E>): Bytes {
    match event
    case Appended(e) => bs + codec.write(e) + [NEWLINE]
    case Torn(e, written) =>
      if written <= |codec.write(e)| then bs + codec.write(e)[..written] else bs + codec.write(e) + [NEWLINE]
    case Rewritten(entries) => Encoded(codec, entries)
    case RewriteLost(_) => bs
  }

  /** The file after the first `n` events on a new journal. */
  function FileAfter<E>(codec: Codec<E>, events: seq<Event<E>>, n: nat): Bytes
    requires n <= |events|
  {
    if n == 0 then [] else Apply(codec, FileAfter(codec, events, n - 1), events[n - 1])
  }

  /** What the events mean, without the bytes: the entries that stand on complete
      lines of their own, the spoiled lines, whether a line is open, and whether
      every torn piece so far was still text. */
  datatype Meaning<E> = Meaning(entries: seq<E>, spoiled: nat, open: bool, readable: bool)

  function Step<E>(codec: Codec<E>, m: Meaning<E>, event: Event<E>): Meaning<E> {
    match event
    case Appended(e) => StepAppend(m, e)
    case Torn(e, written) =>
      if written > |codec.write(e)| then StepAppend(m, e)
      else if written == 0 then m
      else m.(open := true, readable := m.readable && Utf8.Valid(codec.write(e)[..written]))
    case Rewritten(entries) => Meaning(entries, 0, false, true)
    case RewriteLost(_) => m
  }

  /** An append gives its entry a line, unless a line is open: then it only
      completes the spoiled one. */
  function StepAppend<E>(m: Meaning<E>, e: E): Meaning<E> {
    if m.open then m.(spoiled := m.spoiled + 1, open := false) else m.(entries := m.entries + [e])
  }

  function MeaningAfter<E>(codec: Codec<E>, events: seq<Event<E>>, n: nat): Meaning<E>
    requires n <= |events|
  {
    if n == 0 then Meaning([], 0, false, true) else Step(codec, MeaningAfter(codec, events, n - 1), events[n - 1])
  }

  /** The bytes carry the meaning. */
  ghost predicate Carries<E>(codec: Codec<E>, bs: Bytes, m: Meaning<E>) {
    var (complete, tail) := Lines(bs);
    && m.open == (tail != [])
    && (tail != [] ==> tail[0] == BRACE_OPEN)
    && m.readable == (AllValid(complete) && Utf8.Valid(tail))
    && ReadLines(codec, complete, |complete|) == Report(m.entries, m.spoiled)
  }

  lemma {:induction false} ReadLinesSame<E>(codec: Codec<E>, lines: seq<Bytes>, last: Bytes, n: nat)
    requires n <= |lines|
    ensures ReadLines(codec, lines + [last], n) == ReadLines(codec, lines, n)
  {
    if n > 0 {
      ReadLinesSame(codec, lines, last, n - 1);
    }
  }

  lemma AllValidSnoc(lines: seq<Bytes>, last: Bytes)
    ensures AllValid(lines + [last]) <==> AllValid(lines) && Utf8.Valid(last)
  {
    assert (lines + [last])[|lines|] == last;
    assert forall line | line in lines :: line in lines + [last];
  }

  /** An entry alone on its line is read; behind a torn one it spoils the line. */
  lemma ReadJoined<E(!new)>(codec: Codec<E>, report: Report<E>, tail: Bytes, e: E)
    requires Sound(codec) && (tail != [] ==> tail[0] == BRACE_OPEN)
    ensures ReadLine(codec, report, tail + codec.write(e)) ==
              if tail == [] then report.(entries := report.entries + [e])
              else report.(rejectedLines := report.rejectedLines + 1)
  {
    var line := codec.write(e);
    assert IsEntryLine(line);
    if tail == [] {
      assert tail + line == line;
    }
    assert (tail + line)[0] == BRACE_OPEN;
    assert (tail + line)[|tail + line| - 1] == line[|line| - 1];
  }

  /** An entry does not repair or break the text in front of it. */
  lemma JoinedIsValid<E(!new)>(codec: Codec<E>, tail: Bytes, e: E)
    requires Sound(codec)
    ensures NEWLINE !in codec.write(e)
    ensures Utf8.Valid(tail + codec.write(e)) <==> Utf8.Valid(tail)
  {
    assert IsEntryLine(codec.write(e));
    Utf8.CutBeforeAscii(tail, codec.write(e), 0);
  }

  /** Completing the open line with an entry. */
  lemma CarriesAppend<E(!new)>(codec: Codec<E>, bs: Bytes, m: Meaning<E>, e: E)
    requires Sound(codec) && Carries(codec, bs, m)
    ensures Carries(codec, bs + codec.write(e) + [NEWLINE], StepAppend(m, e))
  {
    var line := codec.write(e);
    var (complete, tail) := Lines(bs);
    JoinedIsValid(codec, tail, e);
    LinesEntry(bs, line);
    AllValidSnoc(complete, tail + line);
    ReadLinesSame(codec, complete, tail + line, |complete|);
    ReadJoined(codec, Report(m.entries, m.spoiled), tail, e);
  }

  /** Writing only the beginning of an entry. */
  lemma CarriesTorn<E(!new)>(codec: Codec<E>, bs: Bytes, m: Meaning<E>, e: E, written: nat)
    requires Sound(codec) && Carries(codec, bs, m)
    requires written <= |codec.write(e)|
    ensures Carries(codec, bs + codec.write(e)[..written], Step(codec, m, Torn(e, written)))
  {
    var line := codec.write(e);
    var piece := line[..written];
    var tail := Lines(bs).1;
    assert IsEntryLine(line);
    LinesText(bs, piece);
    if written == 0 {
      assert tail + piece == tail;
    } else {
      assert piece[0] == BRACE_OPEN;
      Utf8.CutBeforeAscii(tail, piece, 0);
    }
  }

  lemma {:induction false} CarriesEncoded<E(!new)>(codec: Codec<E>, entries: seq<E>)
    requires Sound(codec)
    ensures Carries(codec, Encoded(codec, entries), Meaning(entries, 0, false, true))
  {
    if entries != [] {
      var n := |entries| - 1;
      CarriesEncoded(codec, entries[..n]);
      CarriesAppend(codec, Encoded(codec, entries[..n]), Meaning(entries[..n], 0, false, true), entries[n]);
      assert entries[..n] + [entries[n]] == entries;
    }
  }

  lemma {:induction false} RunCarries<E(!new)>(codec: Codec<E>, events: seq<Event<E>>, n: nat)
    requires Sound(codec) && n <= |events|
    ensures Carries(codec, FileAfter(codec, events, n), MeaningAfter(codec, events, n))
  {
    if n > 0 {
      RunCarries(codec, events, n - 1);
      var bs, m := FileAfter(codec, events, n - 1), MeaningAfter(codec, events, n - 1);
      match events[n - 1] {
        case Appended(e) => CarriesAppend(codec, bs, m, e);
        case Torn(e, written) =>
          if written <= |codec.write(e)| {
            CarriesTorn(codec, bs, m, e, written);
          } else {
            CarriesAppend(codec, bs, m, e);
          }
        case Rewritten(entries) => CarriesEncoded(codec, entries);
        case RewriteLost(_) =>
      }
    }
  }

  /** The report a meaning promises. */
  function Promised<E>(m: Meaning<E>): Result<Report<E>, ReplayError> {
    if m.readable then Ok(Report(m.entries, m.spoiled + if m.open then 1 else 0)) else Err(InvalidUtf8)
  }

  lemma CarriesReplays<E>(codec: Codec<E>, bs: Bytes, m: Meaning<E>)
    requires Carries(codec, bs, m)
    ensures Replayed(codec, bs) == Promised(m)
  {
  }

  /** Over any run, replay gives the entries on complete lines of their own, in
      order, counting each spoiled line and an open one as rejected; and it fails
      exactly when, since the last rewrite, some write was torn inside a character. */
  lemma RunReplays<E(!new)>(codec: Codec<E>, events: seq<Event<E>>, n: nat, bs: Bytes, m: Meaning<E>)
    requires Sound(codec) && n <= |events|
    requires bs == FileAfter(codec, events, n) && m == MeaningAfter(codec, events, n)
    ensures Replayed(codec, bs) == Promised(m)
  {
    RunCarries(codec, events, n);
    CarriesReplays(codec, bs, m);
  }

  /** From a journal without an open line, cutting one append anywhere leaves the
      old entries, or the old entries and the new one, with at most one line more
      rejected; unless the cut falls inside a character, which loses the replay. */
  lemma TornAppend<E(!new)>(codec: Codec<E>, bs: Bytes, m: Meaning<E>, e: E, written: nat)
    requires Sound(codec) && Carries(codec, bs, m) && !m.open && m.readable
    requires written <= |codec.write(e)| + 1
    ensures Replayed(codec, bs) == Ok(Report(m.entries, m.spoiled))
    ensures Replayed(codec, bs + (codec.write(e) + [NEWLINE])[..written]) ==
              if written == 0 then Ok(Report(m.entries, m.spoiled))
              else if written == |codec.write(e)| + 1 then Ok(Report(m.entries + [e], m.spoiled))
              else if Utf8.Valid(codec.write(e)[..written]) then Ok(Report(m.entries, m.spoiled + 1))
              else Err(InvalidUtf8)
  {
    var line := codec.write(e);
    if written <= |line| {
      CarriesTorn(codec, bs, m, e, written);
      assert (line + [NEWLINE])[..written] == line[..written];
    } else {
      CarriesAppend(codec, bs, m, e);
      assert bs + (line + [NEWLINE])[..written] == bs + line + [NEWLINE];
    }
  }

  /** Replaying a rewritten journal gives exactly the entries written. */
  lemma RewriteReplays<E(!new)>(codec: Codec<E>, entries: seq<E>)
    requires Sound(codec)
    ensures Replayed(codec, Encoded(codec, entries)) == Ok(Report(entries, 0))
  {
    CarriesEncoded(codec, entries);
  }

  /** Until a rewrite, no event removes or reorders entries, and an unreadable
      journal stays unreadable. */
  lemma {:induction false} EntriesSurvive<E(!new)>(codec: Codec<E>, events: seq<Event<E>>, early: nat, late: nat)
    requires early <= late <= |events|
    requires forall i | early <= i < late :: !events[i].Rewritten?
    ensures MeaningAfter(codec, events, early).entries <= MeaningAfter(codec, events, late).entries
    ensures MeaningAfter(codec, events, late).readable ==> MeaningAfter(codec, events, early).readable
    decreases late - early
  {
    if early < late {
      EntriesSurvive(codec, events, early, late - 1);
    }
  }

  /** When every torn entry is written in ASCII the replay never fails. */
  lemma {:induction false} AsciiAlwaysReadable<E(!new)>(codec: Codec<E>, events: seq<Event<E>>, n: nat)
    requires n <= |events|
    requires forall i | 0 <= i < n && events[i].Torn? :: Utf8.IsAscii(codec.write(events[i].e))
    ensures MeaningAfter(codec, events, n).readable
  {
    if n > 0 {
      AsciiAlwaysReadable(codec, events, n - 1);
      if events[n - 1].Torn? && events[n - 1].written <= |codec.write(events[n - 1].e)| {
        Utf8.AsciiIsValid(codec.write(events[n - 1].e)[..events[n - 1].written], 0);
      }
    }
  }

  /** An entry of which everything but the newline was written is not read, and the
      next one appended is lost with it: together they are one rejected line. */
  lemma MissingNewline<E(!new)>(codec: Codec<E>, bs: Bytes, m: Meaning<E>, e: E, next: E)
    requires Sound(codec) && Carries(codec, bs, m) && !m.open && m.readable
    ensures var cut := bs + codec.write(e);
            && Replayed(codec, cut) == Ok(Report(m.entries, m.spoiled + 1))
            && Replayed(codec, cut + codec.write(next) + [NEWLINE]) == Ok(Report(m.entries, m.spoiled + 1))
  {
    var line := codec.write(e);
    assert IsEntryLine(line);
    assert line[..|line|] == line;
    CarriesTorn(codec, bs, m, e, |line|);
    CarriesAppend(codec, bs + line, Step(codec, m, Torn(e, |line|)), next);
  }

  /** Cutting the entry's write there makes the replay fail. */
  ghost predicate LosesReplay<E>(codec: Codec<E>, bs: Bytes, e: E, written: nat) {
    written <= |codec.write(e)| && Replayed(codec, bs + codec.write(e)[..written]) == Err(InvalidUtf8)
  }

  ghost predicate CanLoseReplay<E>(codec: Codec<E>, bs: Bytes, e: E) {
    exists written: nat :: LosesReplay(codec, bs, e, written)
  }

  /** An entry appended to a clean journal can lose it exactly when it is not ASCII. */
  lemma LosableExactly<E(!new)>(codec: Codec<E>, bs: Bytes, m: Meaning<E>, e: E)
    requires Sound(codec) && Carries(codec, bs, m) && !m.open && m.readable
    ensures CanLoseReplay(codec, bs, e) <==> !Utf8.IsAscii(codec.write(e))
  {
    var line := codec.write(e);
    assert IsEntryLine(line);
    if Utf8.IsAscii(line) {
      forall written: nat | written <= |line|
        ensures !LosesReplay(codec, bs, e, written)
      {
        Utf8.AsciiIsValid(line[..written], 0);
        CarriesTorn(codec, bs, m, e, written);
        CarriesReplays(codec, bs + line[..written], Step(codec, m, Torn(e, written)));
      }
    } else {
      var high :| 0 <= high < |line| && line[high] >= 0x80;
      var lead := Utf8.HasLead(line, 0, high);
      CutCharacterLosesReplay(codec, bs, m, e, lead + 1);
      assert LosesReplay(codec, bs, e, lead + 1);
    }
  }

  lemma LosableAfter<E(!new)>(codec: Codec<E>, earlier: seq<E>, e: E)
    requires Sound(codec)
    ensures CanLoseReplay(codec, Encoded(codec, earlier), e) <==> !Utf8.IsAscii(codec.write(e))
  {
    CarriesEncoded(codec, earlier);
    LosableExactly(codec, Encoded(codec, earlier), Meaning(earlier, 0, false, true), e);
  }

  /** A write torn right after the first byte of a longer character makes the
      whole journal unreadable, the entries before it included. */
  lemma CutCharacterLosesReplay<E(!new)>(codec: Codec<E>, bs: Bytes, m: Meaning<E>, e: E, written: nat)
    requires Sound(codec) && Carries(codec, bs, m)
    requires 0 < written <= |codec.write(e)| && codec.write(e)[written - 1] >= 0xC0
    ensures Replayed(codec, bs + codec.write(e)[..written]) == Err(InvalidUtf8)
  {
    CarriesTorn(codec, bs, m, e, written);
    Utf8.CutCharacterIsInvalid(codec.write(e)[..written], 0);
  }
}
