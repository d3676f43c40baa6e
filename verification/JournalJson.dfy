/** The journal's line format: one JSON object per entry, as the serialiser writes it,
    and what any parser of JSON objects makes of a line that begins with a torn one. */
module JournalJson {
  import opened Prelude
  import Text
  import Decimal
  import Utf8
  import UploadJournal

  const MAX_DIGEST := 0x1000_0000_0000_0000

  /** Any text that fits in memory. */
  type Digest = s: string | |s| < MAX_DIGEST

  datatype JournalEntry = JournalEntry(uploadId: U64, chunksDone: U64, bytes: U64, shaPartial: Option<Digest>)

  // ----- Writing -----

  function HexDigit(n: nat): char
    requires n < 16
  {
    if n < 10 then '0' + n as char else 'a' + (n - 10) as char
  }

  /** One character of a string: quotes, backslashes and controls are escaped. */
  function EscapeChar(c: char): string {
    var n := c as int;
    if c == '\"' then ['\\', '\"']
    else if c == '\\' then ['\\', '\\']
    else if n == 8 then ['\\', 'b']
    else if n == 9 then ['\\', 't']
    else if n == 10 then ['\\', 'n']
    else if n == 12 then ['\\', 'f']
    else if n == 13 then ['\\', 'r']
    else if n < 32 then ['\\', 'u', '0', '0', HexDigit(n / 16), HexDigit(n % 16)]
    else [c]
  }

  function Escape(s: string): string {
    if s == [] then [] else EscapeChar(s[0]) + Escape(s[1..])
  }

  function Key(name: string): string {
    ['\"'] + (name + ['\"', ':'])
  }

  function ShaText(sha: Option<string>): string {
    match sha
    case None => "null"
    case Some(text) => ['\"'] + (Escape(text) + ['\"'])
  }

  function AfterBytes(e: JournalEntry): string {
    [','] + (Key("sha_partial") + (ShaText(e.shaPartial) + ['}']))
  }

  function AfterChunks(e: JournalEntry): string {
    [','] + (Key("bytes") + (Decimal.Print(e.bytes) + AfterBytes(e)))
  }

  function AfterId(e: JournalEntry): string {
    [','] + (Key("chunks_done") + (Decimal.Print(e.chunksDone) + AfterChunks(e)))
  }

  /** Everything after the opening brace. */
  function Body(e: JournalEntry): string {
    Key("upload_id") + (Decimal.Print(e.uploadId) + AfterId(e))
  }

  function Json(e: JournalEntry): string {
    ['{'] + Body(e)
  }

  function Write(e: JournalEntry): Bytes {
    Text.Encode(Json(e))
  }

  // ----- What is written, in full -----

  lemma IdText()
    ensures ['{'] + Key("upload_id") == "{\"upload_id\":"
  {
  }

  lemma ChunksText()
    ensures [','] + Key("chunks_done") == ",\"chunks_done\":"
  {
  }

  lemma BytesText()
    ensures [','] + Key("bytes") == ",\"bytes\":"
  {
  }

  lemma ShaKeyText()
    ensures [','] + Key("sha_partial") == ",\"sha_partial\":"
  {
  }

  /** The four fields in their order, under their names. */
  lemma JsonExactly(e: JournalEntry)
    ensures Json(e) ==
            "{\"upload_id\":" + Decimal.Print(e.uploadId)
            + ",\"chunks_done\":" + Decimal.Print(e.chunksDone)
            + ",\"bytes\":" + Decimal.Print(e.bytes)
            + ",\"sha_partial\":"
            + (if e.shaPartial == None then "null" else "\"" + Escape(e.shaPartial.value) + "\"")
            + "}"
  {
    var sha := ShaText(e.shaPartial);
    var id, chunks, bytes := Decimal.Print(e.uploadId), Decimal.Print(e.chunksDone), Decimal.Print(e.bytes);
    IdText();
    ChunksText();
    BytesText();
    ShaKeyText();
    Regroup([','], Key("sha_partial"), sha, ['}']);
    Regroup([','], Key("bytes"), bytes, AfterBytes(e));
    Regroup([','], Key("chunks_done"), chunks, AfterChunks(e));
    Regroup(['{'], Key("upload_id"), id, AfterId(e));
    Flatten("{\"upload_id\":", id, ",\"chunks_done\":", chunks, ",\"bytes\":", bytes, ",\"sha_partial\":", sha, "}");
  }

  lemma Regroup(a: string, b: string, c: string, d: string)
    ensures a + (b + (c + d)) == (a + b) + c + d
  {
  }

  lemma Flatten(a: string, b: string, c: string, d: string, e: string, f: string, g: string, h: string, i: string)
    ensures a + b + (c + d + (e + f + (g + h + i))) == a + b + c + d + e + f + g + h + i
  {
    assert c + d + (e + f + (g + h + i)) == c + d + e + f + g + h + i;
  }

  /** How a JSON string is read (section 7 of RFC 8259), without surrogate pairs. */
  function Unescape(text: string): Option<string> {
    if text == [] then Some([])
    else if text[0] == '\\' then
      if |text| < 2 then None
      else if text[1] == 'u' then
        if |text| < 6 || HexValue(text[2]) == 16 || HexValue(text[3]) == 16 || HexValue(text[4]) == 16 || HexValue(text[5]) == 16
        then None
        else
          var n := ((HexValue(text[2]) * 16 + HexValue(text[3])) * 16 + HexValue(text[4])) * 16 + HexValue(text[5]);
          if 0xD800 <= n < 0xE000 then None else Prepend(n as char, Unescape(text[6..]))
      else if text[1] in "\"\\/" then Prepend(text[1], Unescape(text[2..]))
      else if text[1] == 'b' then Prepend(8 as char, Unescape(text[2..]))
      else if text[1] == 't' then Prepend('\t', Unescape(text[2..]))
      else if text[1] == 'n' then Prepend('\n', Unescape(text[2..]))
      else if text[1] == 'f' then Prepend(12 as char, Unescape(text[2..]))
      else if text[1] == 'r' then Prepend('\r', Unescape(text[2..]))
      else None
    else if text[0] == '\"' || text[0] < ' ' then None
    else Prepend(text[0], Unescape(text[1..]))
  }

  function Prepend(c: char, rest: Option<string>): Option<string> {
    match rest
    case None => None
    case Some(s) => Some([c] + s)
  }

  /** 0 to 15, or 16 for what is no hexadecimal digit. */
  function HexValue(c: char): (n: nat)
    ensures n <= 16
  {
    if '0' <= c <= '9' then c as int - '0' as int
    else if 'a' <= c <= 'f' then c as int - 'a' as int + 10
    else if 'A' <= c <= 'F' then c as int - 'A' as int + 10
    else 16
  }

  lemma UnescapeChar(c: char, rest: string)
    ensures Unescape(EscapeChar(c) + rest) == Prepend(c, Unescape(rest))
  {
    var x := EscapeChar(c);
    var text := x + rest;
    assert text[|x|..] == rest;
    if |x| == 6 {
      UnescapeCode(c, rest);
    } else if |x| == 2 {
      assert text[0] == x[0] && text[1] == x[1];
    } else {
      assert text[0] == c;
    }
  }

  lemma UnescapeCode(c: char, rest: string)
    requires |EscapeChar(c)| == 6
    ensures Unescape(EscapeChar(c) + rest) == Prepend(c, Unescape(rest))
  {
    var n := c as int;
    var text := ['\\', 'u', '0', '0', HexDigit(n / 16), HexDigit(n % 16)] + rest;
    HexDigitValue(n / 16);
    HexDigitValue(n % 16);
    assert HexValue('0') == 0 && text[6..] == rest;
    assert ((0 * 16 + 0) * 16 + n / 16) * 16 + n % 16 == n;
  }

  lemma HexDigitValue(n: nat)
    requires n < 16
    ensures HexValue(HexDigit(n)) == n
  {
  }

  /** Escaped text is read back as it was. */
  lemma {:induction false} EscapeExactly(s: string)
    ensures Unescape(Escape(s)) == Some(s)
  {
    if s != [] {
      EscapeExactly(s[1..]);
      UnescapeChar(s[0], Escape(s[1..]));
      assert s == [s[0]] + s[1..];
    }
  }

  /** Text without quotes, backslashes and controls stands as it is. */
  lemma {:induction false} PlainStands(s: string)
    requires forall i | 0 <= i < |s| :: s[i] >= ' ' && s[i] != '\"' && s[i] != '\\'
    ensures Escape(s) == s
  {
    if s != [] {
      PlainStands(s[1..]);
      assert s == [s[0]] + s[1..];
    }
  }

  // ----- Different entries are written differently -----

  lemma DropCommon(common: string, s: string, t: string)
    requires common + s == common + t
    ensures s == t
  {
    assert s == (common + s)[|common|..];
    assert t == (common + t)[|common|..];
  }

  /** No escaped character begins another's. */
  lemma EscapeCharThen(c: char, s: string, d: char, t: string)
    requires EscapeChar(c) + s == EscapeChar(d) + t
    ensures c == d && s == t
  {
    var x, y := EscapeChar(c), EscapeChar(d);
    var all := x + s;
    assert all[0] == x[0] == y[0];
    if |x| > 1 {
      assert |y| > 1;
      assert all[1] == x[1] == y[1];
      if |x| == 6 {
        assert |y| == 6;
        assert all[4] == x[4] == y[4] && all[5] == x[5] == y[5];
        HexDigitInjective(c as int / 16, d as int / 16);
        HexDigitInjective(c as int % 16, d as int % 16);
      }
    }
    assert c == d;
    DropCommon(x, s, t);
  }

  lemma HexDigitInjective(m: nat, n: nat)
    requires m < 16 && n < 16
    ensures HexDigit(m) == HexDigit(n) <==> m == n
  {
  }

  /** Escaped text ends at the next quote, and can be read back. */
  lemma {:induction false} EscapeThen(a: string, s: string, b: string, t: string)
    requires Escape(a) + (['\"'] + s) == Escape(b) + (['\"'] + t)
    ensures a == b
  {
    var rest, rest' := ['\"'] + s, ['\"'] + t;
    EscapeFirst(a, s);
    EscapeFirst(b, t);
    if a != [] && b != [] {
      Split(a, rest);
      Split(b, rest');
      EscapeCharThen(a[0], Escape(a[1..]) + rest, b[0], Escape(b[1..]) + rest');
      EscapeThen(a[1..], s, b[1..], t);
      assert a == [a[0]] + a[1..] && b == [b[0]] + b[1..];
    }
  }

  lemma EscapeFirst(a: string, s: string)
    ensures (Escape(a) + (['\"'] + s))[0] == '\"' <==> a == []
  {
    if a != [] {
      assert (Escape(a) + (['\"'] + s))[0] == EscapeChar(a[0])[0] != '\"';
    }
  }

  lemma Split(a: string, rest: string)
    requires a != []
    ensures Escape(a) + rest == EscapeChar(a[0]) + (Escape(a[1..]) + rest)
  {
  }

  lemma ShaReadBack(a: Option<string>, b: Option<string>)
    requires ShaText(a) + ['}'] == ShaText(b) + ['}']
    ensures a == b
  {
    var x, y := ShaText(a) + ['}'], ShaText(b) + ['}'];
    assert x[0] == '\"' <==> a.Some?;
    assert y[0] == '\"' <==> b.Some?;
    if a.Some? {
      var s, t := Escape(a.value), Escape(b.value);
      assert x == ['\"'] + (s + (['\"'] + ['}'])) && y == ['\"'] + (t + (['\"'] + ['}']));
      DropCommon(['\"'], s + (['\"'] + ['}']), t + (['\"'] + ['}']));
      EscapeThen(a.value, ['}'], b.value, ['}']);
    }
  }

  lemma JsonInjective(a: JournalEntry, b: JournalEntry)
    requires Json(a) == Json(b)
    ensures a == b
  {
    DropCommon(['{'], Body(a), Body(b));
    DropCommon(Key("upload_id"), Decimal.Print(a.uploadId) + AfterId(a), Decimal.Print(b.uploadId) + AfterId(b));
    Decimal.PrintThen(a.uploadId, AfterId(a), b.uploadId, AfterId(b));
    AfterIdInjective(a, b);
  }

  lemma AfterIdInjective(a: JournalEntry, b: JournalEntry)
    requires AfterId(a) == AfterId(b)
    ensures a.chunksDone == b.chunksDone && a.bytes == b.bytes && a.shaPartial == b.shaPartial
  {
    var x, y := Decimal.Print(a.chunksDone) + AfterChunks(a), Decimal.Print(b.chunksDone) + AfterChunks(b);
    DropCommon([','], Key("chunks_done") + x, Key("chunks_done") + y);
    DropCommon(Key("chunks_done"), x, y);
    Decimal.PrintThen(a.chunksDone, AfterChunks(a), b.chunksDone, AfterChunks(b));
    AfterChunksInjective(a, b);
  }

  lemma AfterChunksInjective(a: JournalEntry, b: JournalEntry)
    requires AfterChunks(a) == AfterChunks(b)
    ensures a.bytes == b.bytes && a.shaPartial == b.shaPartial
  {
    var x, y := Decimal.Print(a.bytes) + AfterBytes(a), Decimal.Print(b.bytes) + AfterBytes(b);
    DropCommon([','], Key("bytes") + x, Key("bytes") + y);
    DropCommon(Key("bytes"), x, y);
    Decimal.PrintThen(a.bytes, AfterBytes(a), b.bytes, AfterBytes(b));
    var s, t := ShaText(a.shaPartial) + ['}'], ShaText(b.shaPartial) + ['}'];
    DropCommon([','], Key("sha_partial") + s, Key("sha_partial") + t);
    DropCommon(Key("sha_partial"), s, t);
    ShaReadBack(a.shaPartial, b.shaPartial);
  }

  /** Every partial digest is allowed, whatever its characters. */
  lemma WriteInjective(a: JournalEntry, b: JournalEntry)
    requires Write(a) == Write(b)
    ensures a == b
  {
    Utf8.EncodeInjective(Json(a), Json(b));
    JsonInjective(a, b);
  }

  // ----- The outline every JSON object has -----

  /** Where a reader of an object stands: outside strings, in `outer` objects besides
      the outermost, possibly right after a string; inside a string; after a backslash;
      before the last `left` digits of a code; past the end; or nowhere. */
  datatype Mark =
    | Start
    | Outside(outer: nat, afterText: bool)
    | InText(outer: nat)
    | Escaped(outer: nat)
    | InCode(outer: nat, left: nat)
    | Closed
    | Broken

  const QUOTE: Byte := 34
  const BACKSLASH: Byte := 92

  predicate IsSpace(b: Byte) {
    b == 32 || b == 9 || b == 10 || b == 13
  }

  predicate IsHexByte(b: Byte) {
    48 <= b <= 57 || 65 <= b <= 70 || 97 <= b <= 102
  }

  /** What may follow a string: a comma, a colon, a closing bracket or brace, a space. */
  predicate MayFollowText(b: Byte) {
    b == 44 || b == 58 || b == 93 || b == UploadJournal.BRACE_CLOSE || IsSpace(b)
  }

  /** The byte after a backslash, other than the one that begins a code. */
  predicate IsShortEscape(b: Byte) {
    b == QUOTE || b == BACKSLASH || b == 47 || b == 98 || b == 102 || b == 110 || b == 114 || b == 116
  }

  function Next(m: Mark, b: Byte): Mark {
    match m
    case Start =>
      if b == UploadJournal.BRACE_OPEN then Outside(0, false) else if IsSpace(b) then Start else Broken
    case Outside(outer, afterText) =>
      if afterText && !MayFollowText(b) then Broken
      else if b == QUOTE then InText(outer)
      else if b == UploadJournal.BRACE_OPEN then Outside(outer + 1, false)
      else if b == UploadJournal.BRACE_CLOSE then (if outer == 0 then Closed else Outside(outer - 1, false))
      else Outside(outer, afterText && IsSpace(b))
    case InText(outer) =>
      if b < 32 then Broken
      else if b == QUOTE then Outside(outer, true)
      else if b == BACKSLASH then Escaped(outer)
      else m
    case Escaped(outer) =>
      if IsShortEscape(b) then InText(outer) else if b == 117 then InCode(outer, 4) else Broken
    case InCode(outer, left) =>
      if !IsHexByte(b) then Broken else if left <= 1 then InText(outer) else InCode(outer, left - 1)
    case Closed => if IsSpace(b) then Closed else Broken
    case Broken => Broken
  }

  function Scan(m: Mark, bs: Bytes): Mark {
    if bs == [] then m else Next(Scan(m, bs[..|bs| - 1]), bs[|bs| - 1])
  }

  /** The text has the outline of one object: its braces outside strings balance at its
      end and no earlier, and strings are escaped and followed as section 2 to 7 of
      RFC 8259 allow. Every JSON object has it, and much that is none. */
  predicate HasObjectOutline(line: Bytes) {
    Scan(Start, line) == Closed
  }

  /** A parser of entries: it reads back what is written of entries whose numbers fit 64
      bits and whose digest fits memory, and takes a line that begins
      with a brace only if it is a JSON object. */
  ghost predicate Reads(parse: Bytes -> Option<JournalEntry>) {
    && (forall e :: parse(Write(e)) == Some(e))
    && (forall line | parse(line).Some? && line != [] && line[0] == UploadJournal.BRACE_OPEN :: HasObjectOutline(line))
  }

  lemma ScanSnoc(m: Mark, bs: Bytes, b: Byte)
    ensures Scan(m, bs + [b]) == Next(Scan(m, bs), b)
  {
    assert (bs + [b])[..|bs|] == bs;
  }

  lemma {:induction false} ScanConcat(m: Mark, a: Bytes, b: Bytes)
    ensures Scan(m, a + b) == Scan(Scan(m, a), b)
  {
    if b == [] {
      assert a + b == a;
    } else {
      var n := |b| - 1;
      ScanConcat(m, a, b[..n]);
      ScanSnoc(m, a + b[..n], b[n]);
      ScanSnoc(Scan(m, a), b[..n], b[n]);
      assert b == b[..n] + [b[n]];
      assert a + b == (a + b[..n]) + [b[n]];
    }
  }

  lemma ScanOne(m: Mark, b: Byte)
    ensures Scan(m, [b]) == Next(m, b)
  {
    assert [b][..0] == [];
  }

  /** Scanning characters. */
  function ScanText(m: Mark, s: string): Mark {
    Scan(m, Text.Encode(s))
  }

  lemma ScanTextConcat(m: Mark, a: string, b: string)
    ensures ScanText(m, a + b) == ScanText(ScanText(m, a), b)
  {
    Utf8.EncodeConcat(a, b);
    ScanConcat(m, Text.Encode(a), Text.Encode(b));
  }

  lemma ScanAscii(m: Mark, c: char)
    requires c as int < 0x80
    ensures ScanText(m, [c]) == Next(m, c as int)
  {
    assert [c][1..] == [];
    assert Text.Encode([c]) == Text.EncodeChar(c) + [] == [c as int];
    ScanOne(m, c as int);
  }

  lemma ScanCons(m: Mark, c: char, rest: string)
    requires c as int < 0x80
    ensures ScanText(m, [c] + rest) == ScanText(Next(m, c as int), rest)
  {
    ScanTextConcat(m, [c], rest);
    ScanAscii(m, c);
  }

  /** A character needing no escape. */
  predicate IsPlain(c: char) {
    c as int >= 32 && c != '\"' && c != '\\'
  }

  lemma {:induction false} ScanHighBytes(outer: nat, bs: Bytes)
    requires forall b | b in bs :: b >= 0x80
    ensures Scan(InText(outer), bs) == InText(outer)
  {
    if bs != [] {
      var n := |bs| - 1;
      assert forall b | b in bs[..n] :: b in bs;
      ScanHighBytes(outer, bs[..n]);
      assert bs[n] in bs;
    }
  }

  lemma ScanPlainChar(outer: nat, c: char)
    requires IsPlain(c)
    ensures ScanText(InText(outer), [c]) == InText(outer)
  {
    if c as int < 0x80 {
      ScanAscii(InText(outer), c);
    } else {
      assert [c][1..] == [];
      assert Text.Encode([c]) == Text.EncodeChar(c) + [] == Text.EncodeChar(c);
      ScanHighBytes(outer, Text.EncodeChar(c));
    }
  }

  lemma ScanEscapedChar(outer: nat, c: char)
    ensures ScanText(InText(outer), EscapeChar(c)) == InText(outer)
  {
    var x := EscapeChar(c);
    if |x| == 1 {
      ScanPlainChar(outer, c);
    } else {
      assert x == ['\\'] + x[1..];
      ScanCons(InText(outer), '\\', x[1..]);
      if |x| == 2 {
        assert x[1..] == [x[1]];
        ScanAscii(Escaped(outer), x[1]);
      } else {
        assert x[1..] == ['u'] + (['0'] + (['0'] + ([x[4]] + [x[5]])));
        ScanCode(outer, c as int / 16, c as int % 16);
      }
    }
  }

  lemma ScanCode(outer: nat, m: nat, n: nat)
    requires m < 16 && n < 16
    ensures ScanText(Escaped(outer), ['u'] + (['0'] + (['0'] + ([HexDigit(m)] + [HexDigit(n)])))) == InText(outer)
  {
    var x, y := HexDigit(m), HexDigit(n);
    ScanCons(Escaped(outer), 'u', ['0'] + (['0'] + ([x] + [y])));
    ScanCons(InCode(outer, 4), '0', ['0'] + ([x] + [y]));
    ScanCons(InCode(outer, 3), '0', [x] + [y]);
    ScanCons(InCode(outer, 2), x, [y]);
    ScanAscii(InCode(outer, 1), y);
  }

  lemma {:induction false} ScanEscape(outer: nat, s: string)
    ensures ScanText(InText(outer), Escape(s)) == InText(outer)
  {
    if s != [] {
      ScanEscapedChar(outer, s[0]);
      ScanEscape(outer, s[1..]);
      ScanTextConcat(InText(outer), EscapeChar(s[0]), Escape(s[1..]));
    }
  }

  lemma {:induction false} ScanName(outer: nat, name: string)
    requires forall c | c in name :: IsPlain(c)
    ensures ScanText(InText(outer), name) == InText(outer)
  {
    if name != [] {
      assert name == [name[0]] + name[1..] && name[0] in name;
      ScanPlainChar(outer, name[0]);
      ScanName(outer, name[1..]);
      ScanTextConcat(InText(outer), [name[0]], name[1..]);
    }
  }

  lemma ScanKey(outer: nat, name: string)
    requires forall c | c in name :: IsPlain(c)
    ensures ScanText(Outside(outer, false), Key(name)) == Outside(outer, false)
  {
    ScanCons(Outside(outer, false), '\"', name + ['\"', ':']);
    ScanTextConcat(InText(outer), name, ['\"', ':']);
    ScanName(outer, name);
    assert ['\"', ':'] == ['\"'] + [':'];
    ScanCons(InText(outer), '\"', [':']);
    ScanAscii(Outside(outer, true), ':');
  }

  lemma {:induction false} ScanDigits(outer: nat, digits: string)
    requires forall c | c in digits :: Decimal.IsDigit(c)
    ensures ScanText(Outside(outer, false), digits) == Outside(outer, false)
  {
    if digits != [] {
      assert digits == [digits[0]] + digits[1..] && digits[0] in digits;
      ScanDigits(outer, digits[1..]);
      ScanCons(Outside(outer, false), digits[0], digits[1..]);
    }
  }

  /** A field and what follows it. */
  lemma ScanField(outer: nat, name: string, n: nat, rest: string)
    requires forall c | c in name :: IsPlain(c)
    ensures ScanText(Outside(outer, false), Key(name) + (Decimal.Print(n) + rest)) == ScanText(Outside(outer, false), rest)
  {
    var digits := Decimal.Print(n);
    ScanTextConcat(Outside(outer, false), Key(name), digits + rest);
    ScanKey(outer, name);
    ScanTextConcat(Outside(outer, false), digits, rest);
    Decimal.PrintIsDigits(n);
    ScanDigits(outer, digits);
  }

  function Leave(outer: nat): Mark {
    if outer == 0 then Closed else Outside(outer - 1, false)
  }

  lemma ScanSha(outer: nat, sha: Option<string>)
    ensures ScanText(Outside(outer, false), ShaText(sha) + ['}']) == Leave(outer)
  {
    ScanTextConcat(Outside(outer, false), ShaText(sha), ['}']);
    match sha {
      case None =>
        assert "null" == ['n'] + (['u'] + (['l'] + ['l']));
        ScanCons(Outside(outer, false), 'n', ['u'] + (['l'] + ['l']));
        ScanCons(Outside(outer, false), 'u', ['l'] + ['l']);
        ScanCons(Outside(outer, false), 'l', ['l']);
        ScanAscii(Outside(outer, false), 'l');
        ScanAscii(Outside(outer, false), '}');
      case Some(text) =>
        ScanCons(Outside(outer, false), '\"', Escape(text) + ['\"']);
        ScanTextConcat(InText(outer), Escape(text), ['\"']);
        ScanEscape(outer, text);
        ScanAscii(InText(outer), '\"');
        ScanAscii(Outside(outer, true), '}');
    }
  }

  lemma ScanAfterBytes(outer: nat, e: JournalEntry)
    ensures ScanText(Outside(outer, false), AfterBytes(e)) == Leave(outer)
  {
    var rest := ShaText(e.shaPartial) + ['}'];
    ScanCons(Outside(outer, false), ',', Key("sha_partial") + rest);
    ScanShaKey(outer, rest);
    ScanSha(outer, e.shaPartial);
  }

  lemma ScanShaKey(outer: nat, rest: string)
    ensures ScanText(Outside(outer, false), Key("sha_partial") + rest) == ScanText(Outside(outer, false), rest)
  {
    ScanTextConcat(Outside(outer, false), Key("sha_partial"), rest);
    ScanKey(outer, "sha_partial");
  }

  lemma ScanAfterChunks(outer: nat, e: JournalEntry)
    ensures ScanText(Outside(outer, false), AfterChunks(e)) == Leave(outer)
  {
    ScanCons(Outside(outer, false), ',', Key("bytes") + (Decimal.Print(e.bytes) + AfterBytes(e)));
    ScanField(outer, "bytes", e.bytes, AfterBytes(e));
    ScanAfterBytes(outer, e);
  }

  lemma ScanBody(outer: nat, e: JournalEntry)
    ensures ScanText(Outside(outer, false), Body(e)) == Leave(outer)
  {
    ScanField(outer, "upload_id", e.uploadId, AfterId(e));
    ScanCons(Outside(outer, false), ',', Key("chunks_done") + (Decimal.Print(e.chunksDone) + AfterChunks(e)));
    ScanField(outer, "chunks_done", e.chunksDone, AfterChunks(e));
    ScanAfterChunks(outer, e);
  }

  /** A written entry has the outline. */
  lemma ScanWrite(e: JournalEntry)
    ensures HasObjectOutline(Write(e))
  {
    ScanCons(Start, '{', Body(e));
    ScanBody(0, e);
  }

  /** Inside another object it is a nested one. */
  lemma ScanNested(outer: nat, e: JournalEntry)
    ensures Scan(Outside(outer, false), Write(e)) == Outside(outer, false)
  {
    ScanCons(Outside(outer, false), '{', Body(e));
    ScanBody(outer + 1, e);
  }

  lemma {:induction false} StaysBroken(bs: Bytes)
    ensures Scan(Broken, bs) == Broken
  {
    if bs != [] {
      StaysBroken(bs[..|bs| - 1]);
    }
  }

  lemma {:induction false} LeavesStart(line: Bytes)
    requires line != [] && line[0] == UploadJournal.BRACE_OPEN
    ensures Scan(Start, line) != Start
  {
    if |line| == 1 {
      ScanOne(Start, line[0]);
      assert line == [line[0]];
    } else {
      LeavesStart(line[..|line| - 1]);
    }
  }

  /** A written entry begins with a brace, a quote and a letter. */
  lemma WriteBegins(e: JournalEntry) returns (rest: Bytes)
    ensures Write(e) == [UploadJournal.BRACE_OPEN, QUOTE, 117] + rest
  {
    var tail := "pload_id" + ['\"', ':'] + (Decimal.Print(e.uploadId) + AfterId(e));
    assert "upload_id" == ['u'] + "pload_id";
    assert Json(e) == ['{'] + (['\"'] + (['u'] + tail));
    rest := Text.Encode(tail);
    EncodeCons('{', ['\"'] + (['u'] + tail));
    EncodeCons('\"', ['u'] + tail);
    EncodeCons('u', tail);
  }

  lemma EncodeCons(c: char, rest: string)
    requires c as int < 0x80
    ensures Text.Encode([c] + rest) == [c as int] + Text.Encode(rest)
  {
    assert ([c] + rest)[1..] == rest;
  }

  /** Whatever stands on a line in front of an entry, if it begins with a brace the
      line has no object's outline: so no JSON parser reads it. */
  lemma NeverJoined(torn: Bytes, e: JournalEntry)
    requires torn != [] && torn[0] == UploadJournal.BRACE_OPEN
    ensures !HasObjectOutline(torn + Write(e))
  {
    var m := Scan(Start, torn);
    ScanConcat(Start, torn, Write(e));
    LeavesStart(torn);
    if m.Outside? && !m.afterText {
      ScanNested(m.outer, e);
    } else {
      var rest := WriteBegins(e);
      var begin := [UploadJournal.BRACE_OPEN, QUOTE, 117];
      ScanConcat(m, begin, rest);
      ScanThree(m, begin[0], begin[1], begin[2]);
      StaysBroken(rest);
    }
  }

  lemma ScanThree(m: Mark, a: Byte, b: Byte, c: Byte)
    ensures Scan(m, [a, b, c]) == Next(Next(Next(m, a), b), c)
  {
    ScanOne(m, a);
    assert [a, b][..1] == [a];
    assert [a, b, c][..2] == [a, b];
  }

  // ----- The journal's format -----

  /** The characters of a line besides those of the digest. */
  predicate IsOwn(c: char) {
    '0' <= c <= '9' || 'a' <= c <= 'z' || c == '_' || c == '\"' || c == ':' || c == ',' || c == '{' || c == '}'
  }

  ghost predicate HoldsOfOwn(p: char -> bool) {
    forall c | IsOwn(c) :: p(c)
  }

  /** A property of the line's own characters holds of a line iff it holds of the
      written digest. */
  lemma EveryInJson(p: char -> bool, e: JournalEntry)
    requires HoldsOfOwn(p)
    ensures Text.Every(p, Json(e)) <==> Text.Every(p, ShaText(e.shaPartial))
  {
    EveryInField(p, "upload_id", e.uploadId, AfterId(e));
    EveryAfterComma(p, "chunks_done", e.chunksDone, AfterChunks(e));
    EveryAfterComma(p, "bytes", e.bytes, AfterBytes(e));
    EveryAfterBytes(p, e);
    Text.EveryConcat(p, ['{'], Body(e));
    Text.EveryIs(p, ['{']);
  }

  lemma EveryInField(p: char -> bool, name: string, n: nat, rest: string)
    requires HoldsOfOwn(p) && forall c | c in name :: IsOwn(c)
    ensures Text.Every(p, Key(name) + (Decimal.Print(n) + rest)) <==> Text.Every(p, rest)
  {
    Text.EveryConcat(p, Key(name), Decimal.Print(n) + rest);
    Text.EveryConcat(p, Decimal.Print(n), rest);
    Decimal.PrintIsDigits(n);
    Text.EveryIs(p, Decimal.Print(n));
    Text.EveryIs(p, Key(name));
  }

  lemma EveryAfterComma(p: char -> bool, name: string, n: nat, rest: string)
    requires HoldsOfOwn(p) && forall c | c in name :: IsOwn(c)
    ensures Text.Every(p, [','] + (Key(name) + (Decimal.Print(n) + rest))) <==> Text.Every(p, rest)
  {
    EveryInField(p, name, n, rest);
    Text.EveryConcat(p, [','], Key(name) + (Decimal.Print(n) + rest));
    Text.EveryIs(p, [',']);
  }

  lemma EveryAfterBytes(p: char -> bool, e: JournalEntry)
    requires HoldsOfOwn(p)
    ensures Text.Every(p, AfterBytes(e)) <==> Text.Every(p, ShaText(e.shaPartial))
  {
    var sha := ShaText(e.shaPartial);
    Text.EveryConcat(p, sha, ['}']);
    Text.EveryIs(p, ['}']);
    Text.EveryConcat(p, Key("sha_partial"), sha + ['}']);
    Text.EveryIs(p, Key("sha_partial"));
    Text.EveryConcat(p, [','], Key("sha_partial") + (sha + ['}']));
    Text.EveryIs(p, [',']);
  }

  lemma EveryInSha(p: char -> bool, text: string)
    requires HoldsOfOwn(p)
    ensures Text.Every(p, ShaText(Some(text))) <==> Text.Every(p, Escape(text))
  {
    Text.EveryConcat(p, ['\"'], Escape(text) + ['\"']);
    Text.EveryConcat(p, Escape(text), ['\"']);
    Text.EveryIs(p, ['\"']);
  }

  lemma EveryInNull(p: char -> bool)
    requires HoldsOfOwn(p)
    ensures Text.Every(p, ShaText(None))
  {
    Text.EveryIs(p, "null");
  }

  lemma {:induction false} EscapeIsPrintable(s: string)
    ensures Text.Every(Text.IsPrintable, Escape(s))
  {
    if s != [] {
      EscapeIsPrintable(s[1..]);
      Text.EveryConcat(Text.IsPrintable, EscapeChar(s[0]), Escape(s[1..]));
      Text.EveryIs(Text.IsPrintable, EscapeChar(s[0]));
    }
  }

  lemma JsonIsPrintable(e: JournalEntry)
    ensures Text.Every(Text.IsPrintable, Json(e))
  {
    EveryInJson(Text.IsPrintable, e);
    if e.shaPartial.Some? {
      EveryInSha(Text.IsPrintable, e.shaPartial.value);
      EscapeIsPrintable(e.shaPartial.value);
    } else {
      EveryInNull(Text.IsPrintable);
    }
  }

  lemma EntryLine(e: JournalEntry)
    ensures UploadJournal.IsEntryLine(Write(e))
  {
    Utf8.EncodeIsValid(Json(e));
    JsonIsPrintable(e);
    Utf8.EncodeIsPrintable(Json(e));
    var rest := WriteBegins(e);
    assert Write(e)[|Write(e)| - 1] in Write(e);
  }

  ghost function JsonCodec(parse: Bytes -> Option<JournalEntry>): UploadJournal.Codec<JournalEntry> {
    UploadJournal.Codec((e: JournalEntry) => Write(e), parse)
  }

  /** The lines meet everything the journal's recovery relies on, for every entry the
      type admits and every JSON parser: the replay of any run is what its events mean. */
  lemma JsonIsSound(parse: Bytes -> Option<JournalEntry>)
    requires Reads(parse)
    ensures UploadJournal.Sound(JsonCodec(parse))
  {
    var codec := JsonCodec(parse);
    forall e: JournalEntry
      ensures UploadJournal.IsEntryLine(codec.write(e)) && codec.parse(codec.write(e)) == Some(e)
    {
      EntryLine(e);
    }
    forall torn: Bytes, e: JournalEntry | torn != [] && torn[0] == UploadJournal.BRACE_OPEN
      ensures codec.parse(torn + codec.write(e)) == None
    {
      NeverJoined(torn, e);
    }
  }

  /** The entry whose line this is. */
  ghost function Inverse(line: Bytes): Option<JournalEntry> {
    if exists e: JournalEntry :: Write(e) == line then
      var e: JournalEntry :| Write(e) == line;
      Some(e)
    else None
  }

  /** There are such parsers. This one refuses every number over 64 bits: what it reads
      is an entry. */
  lemma SomeParserReads()
    ensures Reads(line => Inverse(line))
    ensures forall line | Inverse(line).Some? ::
              var e := Inverse(line).value; e.uploadId < 0x1_0000_0000_0000_0000 && Write(e) == line
  {
    forall e: JournalEntry
      ensures Inverse(Write(e)) == Some(e)
    {
      var parsed := Inverse(Write(e)).value;
      WriteInjective(e, parsed);
    }
    forall line | Inverse(line).Some?
      ensures HasObjectOutline(line)
    {
      ScanWrite(Inverse(line).value);
    }
  }

  // ----- Digests that are ASCII text, and others -----

  predicate IsAsciiText(s: string) {
    Text.Every(Text.IsAsciiChar, s)
  }

  predicate HasAsciiDigest(e: JournalEntry) {
    e.shaPartial.None? || IsAsciiText(e.shaPartial.value)
  }

  lemma EscapeCharIsAscii(c: char)
    ensures Text.Every(Text.IsAsciiChar, EscapeChar(c)) <==> Text.IsAsciiChar(c)
  {
    Text.EveryIs(Text.IsAsciiChar, EscapeChar(c));
    assert EscapeChar(c)[0] in EscapeChar(c);
  }

  lemma {:induction false} EscapeIsAscii(s: string)
    ensures IsAsciiText(Escape(s)) <==> IsAsciiText(s)
  {
    if s != [] {
      EscapeIsAscii(s[1..]);
      EscapeCharIsAscii(s[0]);
      Text.EveryConcat(Text.IsAsciiChar, EscapeChar(s[0]), Escape(s[1..]));
    }
  }

  /** A line is ASCII exactly when the partial digest is. */
  lemma WriteIsAscii(e: JournalEntry)
    ensures Utf8.IsAscii(Write(e)) <==> HasAsciiDigest(e)
  {
    Utf8.EncodeIsAscii(Json(e));
    EveryInJson(Text.IsAsciiChar, e);
    if e.shaPartial.Some? {
      EveryInSha(Text.IsAsciiChar, e.shaPartial.value);
      EscapeIsAscii(e.shaPartial.value);
    } else {
      EveryInNull(Text.IsAsciiChar);
    }
  }

  /** The digests the client computes are hexadecimal: with ASCII digests every run
      of the journal can be replayed. */
  lemma AsciiDigestsAlwaysReplay(
    parse: Bytes -> Option<JournalEntry>, events: seq<UploadJournal.Event<JournalEntry>>, n: nat)
    requires Reads(parse) && n <= |events|
    requires forall i | 0 <= i < n && events[i].Torn? :: HasAsciiDigest(events[i].e)
    ensures UploadJournal.Replayed(JsonCodec(parse), UploadJournal.FileAfter(JsonCodec(parse), events, n)).Ok?
  {
    var codec := JsonCodec(parse);
    forall i | 0 <= i < n && events[i].Torn?
      ensures Utf8.IsAscii(codec.write(events[i].e))
    {
      WriteIsAscii(events[i].e);
    }
    JsonIsSound(parse);
    UploadJournal.AsciiAlwaysReadable(codec, events, n);
    UploadJournal.RunReplays(
      codec, events, n, UploadJournal.FileAfter(codec, events, n), UploadJournal.MeaningAfter(codec, events, n));
  }

  /** An entry can be torn so that the replay of a clean journal fails exactly when its
      partial digest is not ASCII. */
  lemma DigestThatLosesReplay(parse: Bytes -> Option<JournalEntry>, earlier: seq<JournalEntry>, e: JournalEntry)
    requires Reads(parse)
    ensures UploadJournal.CanLoseReplay(JsonCodec(parse), UploadJournal.Encoded(JsonCodec(parse), earlier), e)
            <==> !HasAsciiDigest(e)
  {
    JsonIsSound(parse);
    WriteIsAscii(e);
    UploadJournal.LosableAfter(JsonCodec(parse), earlier, e);
  }

  /** One such journal: a complete entry, and one with an accented digest torn. */
  lemma AccentLosesReplay(parse: Bytes -> Option<JournalEntry>)
    returns (first: JournalEntry, second: JournalEntry, written: nat)
    requires Reads(parse)
    ensures first.shaPartial == None && second.shaPartial == Some(['\U{E9}'])
    ensures var codec := JsonCodec(parse);
            var bs := UploadJournal.Encoded(codec, [first]);
            && UploadJournal.Replayed(codec, bs) == Ok(UploadJournal.Report([first], 0))
            && UploadJournal.LosesReplay(codec, bs, second, written)
  {
    first, second := JournalEntry(1, 1, 1024, None), JournalEntry(2, 1, 1024, Some(['\U{E9}']));
    JsonIsSound(parse);
    UploadJournal.RewriteReplays(JsonCodec(parse), [first]);
    AccentIsNotAscii(second);
    written := TornWhere(parse, [first], second);
  }

  lemma AccentIsNotAscii(e: JournalEntry)
    requires e.shaPartial == Some(['\U{E9}'])
    ensures !HasAsciiDigest(e)
  {
  }

  lemma TornWhere(parse: Bytes -> Option<JournalEntry>, earlier: seq<JournalEntry>, e: JournalEntry) returns (written: nat)
    requires Reads(parse) && !HasAsciiDigest(e)
    ensures UploadJournal.LosesReplay(JsonCodec(parse), UploadJournal.Encoded(JsonCodec(parse), earlier), e, written)
  {
    DigestThatLosesReplay(parse, earlier, e);
    written :| UploadJournal.LosesReplay(JsonCodec(parse), UploadJournal.Encoded(JsonCodec(parse), earlier), e, written);
  }
}
