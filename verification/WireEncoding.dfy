/** The development encoder of binary responses, and a decoder that shows the
    encoding loses nothing. */
module WireEncoding {
  import opened Prelude

  const NUM8: Byte := 15
  const HASH: Byte := 16
  const ARRAY: Byte := 17
  const BFALSE: Byte := 18
  const BTRUE: Byte := 19
  const SHORT_STR_BASE: Byte := 100
  const SMALL_NUM_BASE: Byte := 200
  const END: Byte := 255

  const MAX_STRING := 49
  const SMALL_NUMBERS := 20

  const TWO_TO_THE_32 := 0x1_0000_0000
  const TWO_TO_THE_64 := 0x1_0000_0000_0000_0000

  datatype Value =
    | Bool(b: bool)
    | Number(n: U64)
    | Text(text: Bytes)
    | Array(items: seq<Value>)
    | Hash(entries: seq<Entry>)

  datatype Entry = Entry(key: Bytes, value: Value)

  datatype EncodeError = StringTooLong

  // ----- Little-endian numbers -----

  function LittleEndian(n: nat, width: nat): (bs: Bytes)
    ensures |bs| == width
  {
    if width == 0 then [] else [n % 256] + LittleEndian(n / 256, width - 1)
  }

  function FromLittleEndian(bs: Bytes, i: nat, width: nat): nat
    requires i + width <= |bs|
    decreases width
  {
    if width == 0 then 0 else bs[i] + 256 * FromLittleEndian(bs, i + 1, width - 1)
  }

  function Pow256(k: nat): (p: nat)
    ensures p >= 1
  {
    if k == 0 then 1 else 256 * Pow256(k - 1)
  }

  // ----- What the encoder writes -----

  predicate Encodable(v: Value) {
    match v
    case Bool(_) => true
    case Number(_) => true
    case Text(text) => |text| <= MAX_STRING
    case Array(items) => forall item | item in items :: Encodable(item)
    case Hash(entries) => forall e | e in entries :: |e.key| <= MAX_STRING && Encodable(e.value)
  }

  function EncodedText(text: Bytes): Bytes {
    [(SHORT_STR_BASE + |text|) % 256] + text
  }

  function EncodedNumber(n: U64): Bytes {
    if n < SMALL_NUMBERS then [SMALL_NUM_BASE + n] else [NUM8] + LittleEndian(n, 8)
  }

  function Encoded(v: Value): Bytes
    decreases v, 0
  {
    match v
    case Bool(b) => [if b then BTRUE else BFALSE]
    case Number(n) => EncodedNumber(n)
    case Text(text) => EncodedText(text)
    case Array(items) => [ARRAY] + EncodedItems(items, 0)
    case Hash(entries) => [HASH] + EncodedEntries(entries, 0)
  }

  /** The items from `i` on, and the end marker. */
  function EncodedItems(items: seq<Value>, i: nat): Bytes
    requires i <= |items|
    decreases items, |items| - i
  {
    if i == |items| then [END] else Encoded(items[i]) + EncodedItems(items, i + 1)
  }

  function EncodedEntries(entries: seq<Entry>, i: nat): Bytes
    requires i <= |entries|
    decreases entries, |entries| - i
  {
    if i == |entries| then [END]
    else EncodedText(entries[i].key) + Encoded(entries[i].value) + EncodedEntries(entries, i + 1)
  }

  /** The length header, truncated to four bytes, and the payload. */
  function Frame(payload: Bytes): Bytes {
    LittleEndian(|payload| % TWO_TO_THE_32, 4) + payload
  }

  // ----- The encoder -----

  class Payload {
    var bytes: Bytes

    constructor (first: Byte)
      ensures bytes == [first]
    {
      bytes := [first];
    }

    method Push(b: Byte)
      modifies this
      ensures bytes == old(bytes) + [b]
    {
      bytes := bytes + [b];
    }

    method Extend(more: Bytes)
      modifies this
      ensures bytes == old(bytes) + more
    {
      bytes := bytes + more;
    }
  }

  method EncodeString(payload: Payload, value: Bytes) returns (ok: bool)
    modifies payload
    ensures ok <==> |value| <= MAX_STRING
    ensures ok ==> payload.bytes == old(payload.bytes) + EncodedText(value)
  {
    if |value| > MAX_STRING {
      return false;
    }
    payload.Push(SHORT_STR_BASE + |value|);
    payload.Extend(value);
    return true;
  }

  method EncodeNumber(payload: Payload, number: U64)
    modifies payload
    ensures payload.bytes == old(payload.bytes) + EncodedNumber(number)
  {
    if number < 20 {
      payload.Push(SMALL_NUM_BASE + number);
    } else {
      payload.Push(NUM8);
      payload.Extend(LittleEndian(number, 8));
    }
  }

  method EncodeValue(payload: Payload, value: Value) returns (ok: bool)
    modifies payload
    ensures ok <==> Encodable(value)
    ensures ok ==> payload.bytes == old(payload.bytes) + Encoded(value)
    decreases value
  {
    ok := true;
    match value {
      case Bool(b) =>
        payload.Push(if b then BTRUE else BFALSE);
      case Number(number) =>
        EncodeNumber(payload, number);
      case Text(text) =>
        ok := EncodeString(payload, text);
      case Array(items) =>
        payload.Push(ARRAY);
        ok := EncodeItems(payload, items);
      case Hash(entries) =>
        payload.Push(HASH);
        ok := EncodeEntries(payload, entries);
    }
  }

  lemma Reassociate(a: Bytes, b: Bytes, c: Bytes)
    ensures (a + b) + c == a + (b + c)
  {
  }

  /** The array arm's loop and its end marker. */
  method EncodeItems(payload: Payload, items: seq<Value>) returns (ok: bool)
    modifies payload
    ensures ok <==> Encodable(Array(items))
    ensures ok ==> payload.bytes == old(payload.bytes) + EncodedItems(items, 0)
    decreases items
  {
    for i := 0 to |items|
      invariant forall j | 0 <= j < i :: Encodable(items[j])
      invariant payload.bytes + EncodedItems(items, i) == old(payload.bytes) + EncodedItems(items, 0)
    {
      ghost var before := payload.bytes;
      ok := EncodeValue(payload, items[i]);
      if !ok {
        return;
      }
      Reassociate(before, Encoded(items[i]), EncodedItems(items, i + 1));
    }
    payload.Push(END);
    return true;
  }

  /** The entry loop and the end marker, as both hash encoders run it. */
  method EncodeEntries(payload: Payload, entries: seq<Entry>) returns (ok: bool)
    modifies payload
    ensures ok <==> Encodable(Hash(entries))
    ensures ok ==> payload.bytes == old(payload.bytes) + EncodedEntries(entries, 0)
    decreases entries
  {
    for i := 0 to |entries|
      invariant forall j | 0 <= j < i :: |entries[j].key| <= MAX_STRING && Encodable(entries[j].value)
      invariant payload.bytes + EncodedEntries(entries, i) == old(payload.bytes) + EncodedEntries(entries, 0)
    {
      ghost var before := payload.bytes;
      ghost var key, value := EncodedText(entries[i].key), Encoded(entries[i].value);
      ok := EncodeString(payload, entries[i].key);
      if !ok {
        return;
      }
      ok := EncodeValue(payload, entries[i].value);
      if !ok {
        return;
      }
      Reassociate(before, key, value);
      Reassociate(before, key + value, EncodedEntries(entries, i + 1));
    }
    payload.Push(END);
    return true;
  }

  method EncodeHashResponse(entries: seq<Entry>) returns (r: Result<Bytes, EncodeError>)
    ensures r == if Encodable(Hash(entries)) then Ok(Frame(Encoded(Hash(entries)))) else Err(StringTooLong)
  {
    var payload := new Payload(HASH);
    var ok := EncodeEntries(payload, entries);
    if !ok {
      return Err(StringTooLong);
    }
    return Ok(LittleEndian(|payload.bytes| % TWO_TO_THE_32, 4) + payload.bytes);
  }

  // ----- The number-only encoder of the crypto backend -----

  datatype NumberEntry = NumberEntry(key: Bytes, n: U64)

  function AsEntries(numbers: seq<NumberEntry>): (entries: seq<Entry>)
    ensures |entries| == |numbers|
    ensures forall i | 0 <= i < |numbers| :: entries[i] == Entry(numbers[i].key, Number(numbers[i].n))
  {
    seq(|numbers|, i requires 0 <= i < |numbers| => Entry(numbers[i].key, Number(numbers[i].n)))
  }

  /** The part of the loop body that writes one key and its number. */
  method AppendEntry(payload: Bytes, key: Bytes, value: U64) returns (r: Bytes)
    requires |key| <= MAX_STRING
    ensures r == payload + EncodedText(key) + EncodedNumber(value)
  {
    r := payload + [SHORT_STR_BASE + |key|];
    r := r + key;
    assert r == payload + EncodedText(key);
    if value < 20 {
      r := r + [SMALL_NUM_BASE + value];
    } else {
      r := r + [NUM8];
      r := r + LittleEndian(value, 8);
    }
  }

  /** The flat encoder gives, byte for byte and error for error, what the general
      one gives for the same entries. */
  method EncodeNumbersResponse(numbers: seq<NumberEntry>) returns (r: Result<Bytes, EncodeError>)
    ensures r == if Encodable(Hash(AsEntries(numbers))) then Ok(Frame(Encoded(Hash(AsEntries(numbers))))) else Err(StringTooLong)
  {
    ghost var entries := AsEntries(numbers);
    var payload: Bytes := [HASH];
    for i := 0 to |numbers|
      invariant forall j | 0 <= j < i :: |entries[j].key| <= MAX_STRING
      invariant payload + EncodedEntries(entries, i) == Encoded(Hash(entries))
    {
      var key, value := numbers[i].key, numbers[i].n;
      if |key| > 49 {
        return Err(StringTooLong);
      }
      ghost var before := payload;
      payload := AppendEntry(payload, key, value);
      Reassociate(before, EncodedText(key), EncodedNumber(value));
      Reassociate(before, EncodedText(key) + EncodedNumber(value), EncodedEntries(entries, i + 1));
    }
    payload := payload + [END];
    return Ok(LittleEndian(|payload| % TWO_TO_THE_32, 4) + payload);
  }

  // ----- The decoder -----

  function DecodeText(bs: Bytes, i: nat): (r: Option<(Bytes, nat)>)
    requires i <= |bs|
    ensures r.Some? ==> i < r.value.1 <= |bs|
  {
    if i == |bs| || !(SHORT_STR_BASE <= bs[i] <= SHORT_STR_BASE + MAX_STRING) then None
    else
      var end := i + 1 + (bs[i] - SHORT_STR_BASE);
      if end <= |bs| then Some((bs[i + 1..end], end)) else None
  }

  /** The value starting at `i`, and where it ends. A number below twenty must be
      written in its short form. */
  function Decode(bs: Bytes, i: nat): (r: Option<(Value, nat)>)
    requires i <= |bs|
    ensures r.Some? ==> i < r.value.1 <= |bs|
    decreases |bs| - i, 0
  {
    if i == |bs| then None
    else if bs[i] == BFALSE then Some((Bool(false), i + 1))
    else if bs[i] == BTRUE then Some((Bool(true), i + 1))
    else if SMALL_NUM_BASE <= bs[i] < SMALL_NUM_BASE + SMALL_NUMBERS then Some((Number(bs[i] - SMALL_NUM_BASE), i + 1))
    else if bs[i] == NUM8 then
      if i + 9 <= |bs| && SMALL_NUMBERS <= FromLittleEndian(bs, i + 1, 8) < TWO_TO_THE_64 then
        Some((Number(FromLittleEndian(bs, i + 1, 8)), i + 9))
      else None
    else if bs[i] == ARRAY then
      match DecodeItems(bs, i + 1)
      case Some((items, end)) => Some((Array(items), end))
      case None => None
    else if bs[i] == HASH then
      match DecodeEntries(bs, i + 1)
      case Some((entries, end)) => Some((Hash(entries), end))
      case None => None
    else
      match DecodeText(bs, i)
      case Some((text, end)) => Some((Text(text), end))
      case None => None
  }

  function DecodeItems(bs: Bytes, i: nat): (r: Option<(seq<Value>, nat)>)
    requires i <= |bs|
    ensures r.Some? ==> i < r.value.1 <= |bs|
    decreases |bs| - i, 1
  {
    if i == |bs| then None
    else if bs[i] == END then Some(([], i + 1))
    else
      match Decode(bs, i)
      case None => None
      case Some((item, next)) =>
        match DecodeItems(bs, next)
        case Some((items, end)) => Some(([item] + items, end))
        case None => None
  }

  function DecodeEntries(bs: Bytes, i: nat): (r: Option<(seq<Entry>, nat)>)
    requires i <= |bs|
    ensures r.Some? ==> i < r.value.1 <= |bs|
    decreases |bs| - i, 1
  {
    if i == |bs| then None
    else if bs[i] == END then Some(([], i + 1))
    else
      match DecodeText(bs, i)
      case None => None
      case Some((key, afterKey)) =>
        match Decode(bs, afterKey)
        case None => None
        case Some((value, next)) =>
          match DecodeEntries(bs, next)
          case Some((entries, end)) => Some(([Entry(key, value)] + entries, end))
          case None => None
  }

  // ----- Decoding undoes encoding -----

  /** `part` stands in `bs` from `i` up to `j`. */
  ghost predicate Spans(bs: Bytes, i: nat, j: nat, part: Bytes) {
    i <= j <= |bs| && bs[i..j] == part
  }

  /** A concatenation spans a stretch exactly when it can be cut there. */
  lemma CutSpan(bs: Bytes, i: nat, j: nat, a: Bytes, b: Bytes) returns (m: nat)
    requires Spans(bs, i, j, a + b)
    ensures m == i + |a| && Spans(bs, i, m, a) && Spans(bs, m, j, b)
  {
    m := i + |a|;
    assert bs[i..m] == (a + b)[..|a|];
    assert bs[m..j] == (a + b)[|a|..];
  }

  lemma JoinSpans(bs: Bytes, i: nat, m: nat, j: nat, a: Bytes, b: Bytes)
    requires Spans(bs, i, m, a) && Spans(bs, m, j, b)
    ensures Spans(bs, i, j, a + b)
  {
    assert bs[i..j] == bs[i..m] + bs[m..j];
  }

  lemma FirstOfSpan(bs: Bytes, i: nat, j: nat, part: Bytes)
    requires Spans(bs, i, j, part) && part != []
    ensures i < j && bs[i] == part[0]
  {
    assert bs[i..j][0] == bs[i];
  }

  lemma {:induction false} NumberRoundTrip(bs: Bytes, i: nat, n: nat, width: nat)
    requires n < Pow256(width) && i + width <= |bs|
    ensures Spans(bs, i, i + width, LittleEndian(n, width)) <==> FromLittleEndian(bs, i, width) == n
    decreases width
  {
    if width > 0 {
      var low, rest := [n % 256], LittleEndian(n / 256, width - 1);
      NumberRoundTrip(bs, i + 1, n / 256, width - 1);
      if Spans(bs, i, i + width, low + rest) {
        var m := CutSpan(bs, i, i + width, low, rest);
        FirstOfSpan(bs, i, m, low);
      }
      if bs[i] == n % 256 && Spans(bs, i + 1, i + width, rest) {
        JoinSpans(bs, i, i + 1, i + width, low, rest);
      }
      var high := FromLittleEndian(bs, i + 1, width - 1);
      assert bs[i] + 256 * high == n <==> bs[i] == n % 256 && high == n / 256;
    }
  }

  lemma Pow256Of8()
    ensures Pow256(8) == TWO_TO_THE_64
  {
  }

  /** A marked number of any width is the marker followed by its digits. */
  lemma MarkedNumber(bs: Bytes, i: nat, mark: Byte, n: nat, width: nat)
    requires n < Pow256(width) && i + 1 + width <= |bs|
    ensures Spans(bs, i, i + 1 + width, [mark] + LittleEndian(n, width))
       <==> bs[i] == mark && FromLittleEndian(bs, i + 1, width) == n
  {
    NumberRoundTrip(bs, i + 1, n, width);
    MarkedSpan(bs, i, mark, LittleEndian(n, width));
  }

  lemma MarkedSpan(bs: Bytes, i: nat, mark: Byte, digits: Bytes)
    requires i + 1 + |digits| <= |bs|
    ensures Spans(bs, i, i + 1 + |digits|, [mark] + digits)
       <==> bs[i] == mark && Spans(bs, i + 1, i + 1 + |digits|, digits)
  {
    var j := i + 1 + |digits|;
    if Spans(bs, i, j, [mark] + digits) {
      var m := CutSpan(bs, i, j, [mark], digits);
      FirstOfSpan(bs, i, m, [mark]);
    }
    if bs[i] == mark && Spans(bs, i + 1, j, digits) {
      JoinSpans(bs, i, i + 1, j, [mark], digits);
    }
  }

  lemma LongNumber(bs: Bytes, i: nat, n: U64)
    requires SMALL_NUMBERS <= n && i + 9 <= |bs|
    ensures Spans(bs, i, i + 9, EncodedNumber(n)) <==> bs[i] == NUM8 && FromLittleEndian(bs, i + 1, 8) == n
  {
    Pow256Of8();
    MarkedNumber(bs, i, NUM8, n, 8);
  }

  lemma DecodeNumber(bs: Bytes, i: nat, j: nat, n: U64)
    requires Spans(bs, i, j, EncodedNumber(n))
    ensures Decode(bs, i) == Some((Number(n), j))
  {
    FirstOfSpan(bs, i, j, EncodedNumber(n));
    if n >= SMALL_NUMBERS {
      assert j == i + 9;
      LongNumber(bs, i, n);
    }
  }

  lemma ReadText(bs: Bytes, i: nat, j: nat, text: Bytes)
    requires i <= |bs| && |text| <= MAX_STRING
    ensures Spans(bs, i, j, EncodedText(text)) <==> DecodeText(bs, i) == Some((text, j))
  {
    if Spans(bs, i, j, EncodedText(text)) {
      var m := CutSpan(bs, i, j, [SHORT_STR_BASE + |text|], text);
      FirstOfSpan(bs, i, m, [SHORT_STR_BASE + |text|]);
    }
    if DecodeText(bs, i) == Some((text, j)) {
      JoinSpans(bs, i, i + 1, j, [SHORT_STR_BASE + |text|], text);
    }
  }

  lemma DecodeTextValue(bs: Bytes, i: nat, j: nat, text: Bytes)
    requires |text| <= MAX_STRING && Spans(bs, i, j, EncodedText(text))
    ensures Decode(bs, i) == Some((Text(text), j))
  {
    FirstOfSpan(bs, i, j, EncodedText(text));
    ReadText(bs, i, j, text);
  }

  /** No value's encoding begins with the end marker. */
  lemma FirstByte(v: Value)
    requires Encodable(v)
    ensures Encoded(v) != [] && Encoded(v)[0] != END
  {
  }

  /** Where a value's encoding stands, the decoder reads that value and stops
      right after it, whatever follows. */
  lemma {:induction false} DecodeEncoded(bs: Bytes, i: nat, j: nat, v: Value)
    requires Encodable(v) && Spans(bs, i, j, Encoded(v))
    ensures Decode(bs, i) == Some((v, j))
    decreases v, 0
  {
    FirstOfSpan(bs, i, j, Encoded(v));
    match v {
      case Bool(b) =>
      case Number(n) =>
        DecodeNumber(bs, i, j, n);
      case Text(text) =>
        DecodeTextValue(bs, i, j, text);
      case Array(items) =>
        var m := CutSpan(bs, i, j, [ARRAY], EncodedItems(items, 0));
        DecodeEncodedItems(bs, m, j, items, 0);
        assert items[0..] == items;
      case Hash(entries) =>
        var m := CutSpan(bs, i, j, [HASH], EncodedEntries(entries, 0));
        DecodeEncodedEntries(bs, m, j, entries, 0);
        assert entries[0..] == entries;
    }
  }

  lemma {:induction false} DecodeEncodedItems(bs: Bytes, i: nat, j: nat, items: seq<Value>, k: nat)
    requires k <= |items| && Encodable(Array(items))
    requires Spans(bs, i, j, EncodedItems(items, k))
    ensures DecodeItems(bs, i) == Some((items[k..], j))
    decreases items, |items| - k
  {
    if k == |items| {
      FirstOfSpan(bs, i, j, [END]);
    } else {
      var m := CutSpan(bs, i, j, Encoded(items[k]), EncodedItems(items, k + 1));
      FirstByte(items[k]);
      FirstOfSpan(bs, i, m, Encoded(items[k]));
      DecodeEncoded(bs, i, m, items[k]);
      DecodeEncodedItems(bs, m, j, items, k + 1);
      assert [items[k]] + items[k + 1..] == items[k..];
    }
  }

  /** An entry is read as an entry: a key never begins like an end marker. */
  lemma DecodeOneEntry(bs: Bytes, i: nat, afterKey: nat, next: nat, j: nat, e: Entry, rest: seq<Entry>)
    requires i <= afterKey <= next <= j <= |bs|
    requires DecodeText(bs, i) == Some((e.key, afterKey))
    requires Decode(bs, afterKey) == Some((e.value, next))
    requires DecodeEntries(bs, next) == Some((rest, j))
    ensures DecodeEntries(bs, i) == Some(([e] + rest, j))
  {
  }

  lemma {:induction false} DecodeEncodedEntries(bs: Bytes, i: nat, j: nat, entries: seq<Entry>, k: nat)
    requires k <= |entries| && Encodable(Hash(entries))
    requires Spans(bs, i, j, EncodedEntries(entries, k))
    ensures DecodeEntries(bs, i) == Some((entries[k..], j))
    decreases entries, |entries| - k
  {
    if k == |entries| {
      FirstOfSpan(bs, i, j, [END]);
    } else {
      var e := entries[k];
      var next := CutSpan(bs, i, j, EncodedText(e.key) + Encoded(e.value), EncodedEntries(entries, k + 1));
      var afterKey := CutSpan(bs, i, next, EncodedText(e.key), Encoded(e.value));
      ReadText(bs, i, afterKey, e.key);
      DecodeEncoded(bs, afterKey, next, e.value);
      DecodeEncodedEntries(bs, next, j, entries, k + 1);
      DecodeOneEntry(bs, i, afterKey, next, j, e, entries[k + 1..]);
      assert [e] + entries[k + 1..] == entries[k..];
    }
  }

  // ----- The decoder accepts nothing but encodings -----

  lemma {:induction false} ItemsShift(first: Value, items: seq<Value>, k: nat)
    requires k <= |items|
    ensures EncodedItems([first] + items, k + 1) == EncodedItems(items, k)
    decreases |items| - k
  {
    if k < |items| {
      assert ([first] + items)[k + 1] == items[k];
      ItemsShift(first, items, k + 1);
    }
  }

  lemma {:induction false} EntriesShift(first: Entry, entries: seq<Entry>, k: nat)
    requires k <= |entries|
    ensures EncodedEntries([first] + entries, k + 1) == EncodedEntries(entries, k)
    decreases |entries| - k
  {
    if k < |entries| {
      assert ([first] + entries)[k + 1] == entries[k];
      EntriesShift(first, entries, k + 1);
    }
  }

  lemma ConsItem(bs: Bytes, i: nat, m: nat, j: nat, first: Value, rest: seq<Value>)
    requires Encodable(first) && Encodable(Array(rest))
    requires Spans(bs, i, m, Encoded(first)) && Spans(bs, m, j, EncodedItems(rest, 0))
    ensures Encodable(Array([first] + rest)) && Spans(bs, i, j, EncodedItems([first] + rest, 0))
  {
    ItemsShift(first, rest, 0);
    JoinSpans(bs, i, m, j, Encoded(first), EncodedItems(rest, 0));
  }

  lemma ConsEntry(bs: Bytes, i: nat, afterKey: nat, m: nat, j: nat, first: Entry, rest: seq<Entry>)
    requires |first.key| <= MAX_STRING && Encodable(first.value) && Encodable(Hash(rest))
    requires Spans(bs, i, afterKey, EncodedText(first.key)) && Spans(bs, afterKey, m, Encoded(first.value))
    requires Spans(bs, m, j, EncodedEntries(rest, 0))
    ensures Encodable(Hash([first] + rest)) && Spans(bs, i, j, EncodedEntries([first] + rest, 0))
  {
    EntriesShift(first, rest, 0);
    JoinSpans(bs, i, afterKey, m, EncodedText(first.key), Encoded(first.value));
    JoinSpans(bs, i, m, j, EncodedText(first.key) + Encoded(first.value), EncodedEntries(rest, 0));
  }

  lemma {:induction false} DecodedIsEncoded(bs: Bytes, i: nat)
    requires i <= |bs| && Decode(bs, i).Some?
    ensures Encodable(Decode(bs, i).value.0)
    ensures Spans(bs, i, Decode(bs, i).value.1, Encoded(Decode(bs, i).value.0))
    decreases |bs| - i, 0
  {
    var (v, end) := Decode(bs, i).value;
    match v {
      case Bool(_) =>
      case Number(n) =>
        if n >= SMALL_NUMBERS {
          LongNumber(bs, i, n);
        }
      case Text(text) =>
        ReadText(bs, i, end, text);
      case Array(items) =>
        DecodedItemsAreEncoded(bs, i + 1);
        JoinSpans(bs, i, i + 1, end, [ARRAY], EncodedItems(items, 0));
      case Hash(entries) =>
        DecodedEntriesAreEncoded(bs, i + 1);
        JoinSpans(bs, i, i + 1, end, [HASH], EncodedEntries(entries, 0));
    }
  }

  lemma {:induction false} DecodedItemsAreEncoded(bs: Bytes, i: nat)
    requires i <= |bs| && DecodeItems(bs, i).Some?
    ensures Encodable(Array(DecodeItems(bs, i).value.0))
    ensures Spans(bs, i, DecodeItems(bs, i).value.1, EncodedItems(DecodeItems(bs, i).value.0, 0))
    decreases |bs| - i, 1
  {
    if bs[i] != END {
      var (item, next) := Decode(bs, i).value;
      var (rest, end) := DecodeItems(bs, next).value;
      DecodedIsEncoded(bs, i);
      DecodedItemsAreEncoded(bs, next);
      ConsItem(bs, i, next, end, item, rest);
    }
  }

  lemma {:induction false} DecodedEntriesAreEncoded(bs: Bytes, i: nat)
    requires i <= |bs| && DecodeEntries(bs, i).Some?
    ensures Encodable(Hash(DecodeEntries(bs, i).value.0))
    ensures Spans(bs, i, DecodeEntries(bs, i).value.1, EncodedEntries(DecodeEntries(bs, i).value.0, 0))
    decreases |bs| - i, 1
  {
    if bs[i] != END {
      var (key, afterKey) := DecodeText(bs, i).value;
      var (value, next) := Decode(bs, afterKey).value;
      var (rest, end) := DecodeEntries(bs, next).value;
      ReadText(bs, i, afterKey, key);
      DecodedIsEncoded(bs, afterKey);
      DecodedEntriesAreEncoded(bs, next);
      ConsEntry(bs, i, afterKey, next, end, Entry(key, value), rest);
    }
  }

  // ----- What follows -----

  /** The decoder reads `v` up to `j` exactly where the encoding of `v` stands:
      it is the inverse of the encoder, no more and no less. */
  lemma DecoderInvertsEncoder(bs: Bytes, i: nat, j: nat, v: Value)
    requires i <= |bs|
    ensures Decode(bs, i) == Some((v, j)) <==> Encodable(v) && Spans(bs, i, j, Encoded(v))
  {
    if Decode(bs, i) == Some((v, j)) {
      DecodedIsEncoded(bs, i);
    }
    if Encodable(v) && Spans(bs, i, j, Encoded(v)) {
      DecodeEncoded(bs, i, j, v);
    }
  }

  /** No encoding is the beginning of another one, so equal bytes mean equal values. */
  lemma PrefixFree(v: Value, w: Value)
    requires Encodable(v) && Encodable(w)
    requires Encoded(v) <= Encoded(w)
    ensures v == w
  {
    var bs := Encoded(w);
    DecodeEncoded(bs, 0, |Encoded(v)|, v);
    assert bs[0..|bs|] == bs;
    DecodeEncoded(bs, 0, |bs|, w);
  }

  /** Frames tell responses apart at every length. */
  lemma FramesAreDistinct(v: Value, w: Value)
    requires Encodable(v) && Encodable(w)
    ensures Frame(Encoded(v)) == Frame(Encoded(w)) <==> v == w
  {
    assert Frame(Encoded(v))[4..] == Encoded(v);
    assert Frame(Encoded(w))[4..] == Encoded(w);
    if Frame(Encoded(v)) == Frame(Encoded(w)) {
      PrefixFree(v, w);
    }
  }

  /** The four-byte header states the payload's length exactly when that is below 2^32. */
  lemma HeaderIsLength(payload: Bytes)
    ensures FromLittleEndian(Frame(payload), 0, 4) == |payload| <==> |payload| < TWO_TO_THE_32
  {
    var n := |payload| % TWO_TO_THE_32;
    assert Frame(payload)[0..4] == LittleEndian(n, 4);
    assert Pow256(4) == TWO_TO_THE_32;
    NumberRoundTrip(Frame(payload), 0, n, 4);
  }

  // ----- The layout, byte by byte -----

  lemma DigitsOf(n: nat)
    ensures LittleEndian(n, 4) == [n % 256, n / 256 % 256, n / 65536 % 256, n / 16777216 % 256]
  {
    assert n / 256 / 256 == n / 65536;
    assert n / 65536 / 256 == n / 16777216;
    FourDigits(n);
  }

  lemma FourDigits(n: nat)
    ensures LittleEndian(n, 4) == [n % 256, n / 256 % 256, n / 256 / 256 % 256, n / 256 / 256 / 256 % 256]
  {
    var m := n / 256 / 256;
    assert LittleEndian(m / 256, 1) == [m / 256 % 256] + LittleEndian(m / 256 / 256, 0);
    assert LittleEndian(m, 2) == [m % 256] + LittleEndian(m / 256, 1);
    assert LittleEndian(n / 256, 3) == [n / 256 % 256] + LittleEndian(m, 2);
  }

  lemma {:induction false} DigitsThen(n: nat, low: nat, high: nat)
    ensures LittleEndian(n, low + high) == LittleEndian(n, low) + LittleEndian(Shifted(n, low), high)
  {
    if low > 0 {
      DigitsThen(n / 256, low - 1, high);
      Reassociate([n % 256], LittleEndian(n / 256, low - 1), LittleEndian(Shifted(n / 256, low - 1), high));
    }
  }

  /** The number without its lowest bytes. */
  function Shifted(n: nat, bytes: nat): nat {
    if bytes == 0 then n else Shifted(n / 256, bytes - 1)
  }

  lemma ShiftedFour(n: nat)
    ensures Shifted(n, 4) == n / 4294967296
  {
    assert Shifted(n / 256 / 256, 2) == Shifted(n / 256 / 256 / 256, 1) == n / 256 / 256 / 256 / 256;
    assert Shifted(n, 4) == Shifted(n / 256, 3) == Shifted(n / 256 / 256, 2);
    assert n / 256 / 256 == n / 65536;
    assert n / 65536 / 256 / 256 == n / 65536 / 65536 == n / 4294967296;
  }

  /** Booleans and numbers. Below twenty a number is one byte; otherwise eight bytes
      follow the marker, the lowest first. */
  lemma ScalarLayout(n: U64)
    ensures Encoded(Bool(false)) == [18] && Encoded(Bool(true)) == [19]
    ensures n < 20 ==> Encoded(Number(n)) == [200 + n]
    ensures n >= 20 ==>
              var m := n / 4294967296;
              Encoded(Number(n)) ==
                [15, n % 256, n / 256 % 256, n / 65536 % 256, n / 16777216 % 256,
                 m % 256, m / 256 % 256, m / 65536 % 256, m / 16777216 % 256]
  {
    DigitsThen(n, 4, 4);
    ShiftedFour(n);
    DigitsOf(n);
    DigitsOf(n / 4294967296);
  }

  /** Texts of up to 49 bytes: the length and the bytes. */
  lemma TextLayout(text: Bytes)
    ensures Encodable(Text(text)) <==> |text| <= 49
    ensures |text| <= 49 ==> Encoded(Text(text)) == [100 + |text|] + text
  {
  }

  /** An array begins with 17 and ends with 255, and each item adds its encoding before
      the end. */
  lemma ArrayLayout(items: seq<Value>, item: Value)
    ensures Encoded(Array([])) == [17, 255]
    ensures var before := Encoded(Array(items));
            && |before| >= 2 && before[0] == 17 && before[|before| - 1] == 255
            && Encoded(Array(items + [item])) == before[..|before| - 1] + Encoded(item) + [255]
  {
    assert EncodedItems([], 0) == [END];
    ItemsSnoc(items, item, 0);
    var tail := EncodedItems(items, 0);
    assert ([ARRAY] + tail)[..|tail|] == [ARRAY] + tail[..|tail| - 1];
    Reassociate([ARRAY] + tail[..|tail| - 1], Encoded(item), [END]);
    Reassociate([ARRAY], tail[..|tail| - 1], Encoded(item) + [END]);
    Reassociate(tail[..|tail| - 1], Encoded(item), [END]);
  }

  lemma {:induction false} ItemsSnoc(items: seq<Value>, item: Value, i: nat)
    requires i <= |items|
    ensures var tail := EncodedItems(items, i);
            && tail != [] && tail[|tail| - 1] == END
            && EncodedItems(items + [item], i) == tail[..|tail| - 1] + Encoded(item) + [END]
    decreases |items| - i
  {
    var longer := items + [item];
    if i == |items| {
      assert EncodedItems(longer, i + 1) == [END] && longer[i] == item;
      assert [END][..0] + Encoded(item) + [END] == Encoded(item) + [END];
    } else {
      ItemsSnoc(items, item, i + 1);
      var first, tail := Encoded(items[i]), EncodedItems(items, i + 1);
      assert longer[i] == items[i];
      CutLast(first, tail);
      Reassociate(first, tail[..|tail| - 1], Encoded(item));
      Reassociate(first, tail[..|tail| - 1] + Encoded(item), [END]);
    }
  }

  lemma CutLast(first: Bytes, tail: Bytes)
    requires tail != []
    ensures (first + tail)[..|first + tail| - 1] == first + tail[..|tail| - 1]
    ensures (first + tail)[|first + tail| - 1] == tail[|tail| - 1]
  {
  }

  /** A hash begins with 16 and ends with 255, and each entry adds its key, as a text,
      and its value. */
  lemma HashLayout(entries: seq<Entry>, key: Bytes, value: Value)
    requires |key| <= 49
    ensures Encoded(Hash([])) == [16, 255]
    ensures var before := Encoded(Hash(entries));
            && |before| >= 2 && before[0] == 16 && before[|before| - 1] == 255
            && Encoded(Hash(entries + [Entry(key, value)]))
               == before[..|before| - 1] + ([100 + |key|] + key + Encoded(value)) + [255]
  {
    assert EncodedEntries([], 0) == [END];
    EntriesSnoc(entries, Entry(key, value), 0);
    var tail := EncodedEntries(entries, 0);
    var more := EncodedText(key) + Encoded(value);
    assert more == [100 + |key|] + key + Encoded(value);
    CutLast([HASH], tail);
    Reassociate([HASH], tail[..|tail| - 1], more);
    Reassociate([HASH], tail[..|tail| - 1] + more, [END]);
  }

  lemma {:induction false} EntriesSnoc(entries: seq<Entry>, e: Entry, i: nat)
    requires i <= |entries|
    ensures var tail := EncodedEntries(entries, i);
            && tail != [] && tail[|tail| - 1] == END
            && EncodedEntries(entries + [e], i) == tail[..|tail| - 1] + (EncodedText(e.key) + Encoded(e.value)) + [END]
    decreases |entries| - i
  {
    var longer := entries + [e];
    var more := EncodedText(e.key) + Encoded(e.value);
    if i == |entries| {
      assert EncodedEntries(longer, i + 1) == [END] && longer[i] == e;
      assert [END][..0] + more + [END] == more + [END];
    } else {
      EntriesSnoc(entries, e, i + 1);
      var first, tail := EncodedText(entries[i].key) + Encoded(entries[i].value), EncodedEntries(entries, i + 1);
      assert longer[i] == entries[i];
      CutLast(first, tail);
      Reassociate(first, tail[..|tail| - 1], more);
      Reassociate(first, tail[..|tail| - 1] + more, [END]);
    }
  }

  /** A frame begins with four bytes for the payload's length, the lowest first. */
  lemma FrameLayout(payload: Bytes)
    requires |payload| < TWO_TO_THE_32
    ensures var n := |payload|;
            Frame(payload) == [n % 256, n / 256 % 256, n / 65536 % 256, n / 16777216 % 256] + payload
  {
    DigitsOf(|payload|);
  }
}
