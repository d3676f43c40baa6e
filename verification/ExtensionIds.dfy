/** Classifying file names by a base-37 number made from their extension. */
module ExtensionIds {
  import opened Prelude

  /** Arithmetic wraps at 32 bits. */
  const WIDTH := 0x1_0000_0000

  /** Other files, pictures, videos, music, documents. */
  const KINDS := 5

  // ----- The number of an extension -----

  /** 1 to 36 for digits and letters of either case, 0 for anything else. */
  function Code(c: char): (n: nat)
    ensures n <= 36
  {
    if '0' <= c <= '9' then c as int - '0' as int + 1
    else if 'A' <= c <= 'Z' then c as int - 'A' as int + 11
    else if 'a' <= c <= 'z' then c as int - 'a' as int + 11
    else 0
  }

  function Symbol(n: nat): char
    requires 0 < n <= 36
  {
    if n <= 10 then (n - 1 + '0' as int) as char else (n - 11 + 'a' as int) as char
  }

  predicate IsWord(ext: string) {
    ext == [] || (Code(ext[|ext| - 1]) != 0 && IsWord(ext[..|ext| - 1]))
  }

  /** The extension as a base-37 number without zero digits. */
  function Value(ext: string): nat {
    if ext == [] then 0 else Value(ext[..|ext| - 1]) * 37 + Code(ext[|ext| - 1])
  }

  /** The same word in lower case. */
  function Fold(ext: string): string
    requires IsWord(ext)
  {
    if ext == [] then [] else Fold(ext[..|ext| - 1]) + [Symbol(Code(ext[|ext| - 1]))]
  }

  /** No base-37 digit of the number is zero. */
  predicate IsSpellable(n: nat) {
    n == 0 || (n % 37 != 0 && IsSpellable(n / 37))
  }

  /** The lower-case word a number stands for. */
  function Spell(n: nat): string
    requires IsSpellable(n)
  {
    if n == 0 then [] else Spell(n / 37) + [Symbol(n % 37)]
  }

  lemma SymbolCode(n: nat)
    requires 0 < n <= 36
    ensures Code(Symbol(n)) == n
  {
  }

  /** A number is read back as the folded word. */
  lemma {:induction false} SpellValue(ext: string)
    requires IsWord(ext)
    ensures IsSpellable(Value(ext)) && Spell(Value(ext)) == Fold(ext)
  {
    if ext != [] {
      SpellValue(ext[..|ext| - 1]);
      assert Value(ext) / 37 == Value(ext[..|ext| - 1]) && Value(ext) % 37 == Code(ext[|ext| - 1]);
    }
  }

  lemma {:induction false} ValueSpell(n: nat)
    requires IsSpellable(n)
    ensures IsWord(Spell(n)) && Value(Spell(n)) == n && Fold(Spell(n)) == Spell(n)
  {
    if n != 0 {
      ValueSpell(n / 37);
      SymbolCode(n % 37);
      var word := Spell(n);
      assert word[..|word| - 1] == Spell(n / 37);
    }
  }

  /** Numbers tell words apart, up to case, whatever their lengths. */
  lemma SameValueSameWord(a: string, b: string)
    requires IsWord(a) && IsWord(b)
    ensures Value(a) == Value(b) <==> Fold(a) == Fold(b)
  {
    SpellValue(a);
    SpellValue(b);
    ValueSpell(Value(a));
    ValueSpell(Value(b));
  }

  function PowerOf37(n: nat): nat {
    if n == 0 then 1 else 37 * PowerOf37(n - 1)
  }

  lemma {:induction false} ValueBelow(ext: string, n: nat)
    requires |ext| <= n
    ensures Value(ext) < PowerOf37(n)
  {
    if n > 0 {
      ValueBelow(if ext == [] then ext else ext[..|ext| - 1], n - 1);
    }
  }

  /** Six characters never overflow 32 bits. */
  lemma ShortIdIsValue(ext: string)
    requires IsWord(ext) && |ext| <= 6
    ensures IdOf(ext) == Value(ext) < WIDTH
  {
    ValueBelow(ext, 6);
    assert PowerOf37(6) == 2_565_726_409;
  }

  /** Short extensions get the same id exactly when they are the same word up to case. */
  lemma ShortIdsAreExact(a: string, b: string)
    requires IsWord(a) && IsWord(b) && |a| <= 6 && |b| <= 6
    ensures IdOf(a) == IdOf(b) <==> Fold(a) == Fold(b)
  {
    ShortIdIsValue(a);
    ShortIdIsValue(b);
    SameValueSameWord(a, b);
  }

  lemma ValueSnoc(word: string, c: char)
    requires IsWord(word) && Code(c) != 0
    ensures IsWord(word + [c]) && Value(word + [c]) == Value(word) * 37 + Code(c)
  {
    assert (word + [c])[..|word|] == word;
  }

  lemma LongWord() returns (word: string)
    ensures |word| == 7 && word == "0nxnyy0" && IsWord(word) && Value(word) == 438 + WIDTH
  {
    word := "";
    ValueSnoc(word, '0');
    word := word + "0";
    ValueSnoc(word, 'n');
    word := word + "n";
    ValueSnoc(word, 'x');
    word := word + "x";
    ValueSnoc(word, 'n');
    word := word + "n";
    ValueSnoc(word, 'y');
    word := word + "y";
    ValueSnoc(word, 'y');
    word := word + "y";
    ValueSnoc(word, '0');
    word := word + "0";
  }

  lemma ShortWord() returns (word: string)
    ensures word == "au" && IsWord(word) && Value(word) == 438
  {
    word := "";
    ValueSnoc(word, 'a');
    word := word + "a";
    ValueSnoc(word, 'u');
    word := word + "u";
  }

  /** Six is the limit: some word of seven has the id of a listed word of two. */
  lemma SevenCharactersCollide() returns (long: string, short: string)
    ensures long == "0nxnyy0" && short == "au" && IsWord(long) && IsWord(short)
    ensures IdOf(long) == IdOf(short) == 438 && Fold(long) != Fold(short)
  {
    long := LongWord();
    short := ShortWord();
    SameValueSameWord(long, short);
  }

  /** The id of an extension: 0 when some character has no code. */
  function IdOf(ext: string): nat {
    if IsWord(ext) then Value(ext) % WIDTH else 0
  }

  lemma {:induction false} NotWordPrefix(ext: string, n: nat)
    requires 0 < n <= |ext| && Code(ext[n - 1]) == 0
    ensures !IsWord(ext)
    decreases |ext|
  {
    if n < |ext| {
      NotWordPrefix(ext[..|ext| - 1], n);
    }
  }

  method GetExtId(ext: string) returns (id: nat)
    ensures id == IdOf(ext)
  {
    id := 0;
    for i := 0 to |ext|
      invariant IsWord(ext[..i]) && id == Value(ext[..i]) % WIDTH
    {
      var c := Code(ext[i]);
      if c == 0 {
        NotWordPrefix(ext, i + 1);
        return 0;
      }
      assert ext[..i + 1][..i] == ext[..i];
      Wrapping(Value(ext[..i]), c);
      id := (id * 37 % WIDTH + c) % WIDTH;
    }
    assert ext[..|ext|] == ext;
  }

  /** Wrapping at every step is wrapping once. */
  lemma Wrapping(v: nat, c: nat)
    ensures (v % WIDTH * 37 % WIDTH + c) % WIDTH == (v * 37 + c) % WIDTH
  {
    var q := v / WIDTH;
    assert v * 37 + c == v % WIDTH * 37 + c + q * 37 * WIDTH;
  }

  // ----- The table -----

  const IDS_0: seq<nat> := [
    438, 540, 550, 651, 1029, 1047, 1059, 1139, 1244, 6131, 15536, 15778, 15938, 16036]
  const IDS_1: seq<nat> := [
    16125, 16145, 16148, 16166, 16262, 16292, 16328, 16349, 17305, 17480, 18220, 18343,
    18345, 18789]
  const IDS_2: seq<nat> := [
    18836, 18866, 18884, 19885, 19938, 20104, 20121, 21587, 22737, 22750, 23992, 24369,
    26517, 26582]
  const IDS_3: seq<nat> := [
    28285, 28357, 28359, 29184, 29739, 29741, 29848, 29984, 30000, 31207, 31225, 31666,
    31683, 32017]
  const IDS_4: seq<nat> := [
    32204, 32296, 32392, 32444, 32452, 32453, 32454, 32464, 32466, 32481, 32626, 32776,
    33427, 34755]
  const IDS_5: seq<nat> := [
    34756, 34762, 34766, 34769, 34772, 34773, 34865, 34871, 34886, 35274, 35277, 35353,
    35361, 35364]
  const IDS_6: seq<nat> := [
    35365, 36031, 36061, 36109, 36128, 36246, 36437, 36499, 36505, 36549, 36579, 36585,
    36586, 36681]
  const IDS_7: seq<nat> := [
    38762, 38768, 38973, 39458, 40207, 40222, 40252, 40352, 40418, 40603, 40697, 40767,
    40844, 40902]
  const IDS_8: seq<nat> := [
    40976, 40992, 41789, 42154, 42175, 42358, 45616, 45618, 46039, 46060, 46062, 46395,
    47013, 47372]
  const IDS_9: seq<nat> := [
    47389, 47390, 47531, 47781, 583799, 583802, 684197, 737737, 743871, 743882, 744500,
    744511, 840986, 1049226]
  const IDS_10: seq<nat> := [
    1170265, 1191567, 1201185, 1201253, 1352336, 1352347, 1353002, 1353668, 1353679,
    1353705, 1353716, 1499596, 1499607, 1513410]
  const IDS_11: seq<nat> := [
    1541413, 1546209, 1688854, 1692551, 1752750, 1753405, 1753416, 1753427, 1753453,
    1753464, 44416554, 44443856]

  const KINDS_0: seq<nat> := [3, 2, 2, 2, 2, 3, 3, 2, 2, 2, 4, 3, 3, 3]
  const KINDS_1: seq<nat> := [1, 4, 2, 2, 2, 3, 3, 2, 1, 4, 3, 1, 1, 1]
  const KINDS_2: seq<nat> := [1, 1, 3, 2, 1, 4, 4, 1, 2, 2, 1, 3, 1, 1]
  const KINDS_3: seq<nat> := [1, 1, 1, 3, 4, 4, 4, 4, 4, 2, 2, 3, 3, 4]
  const KINDS_4: seq<nat> := [3, 2, 2, 2, 3, 3, 2, 2, 2, 2, 2, 2, 1, 4]
  const KINDS_5: seq<nat> := [4, 1, 4, 4, 4, 4, 3, 3, 2, 3, 1, 4, 4, 4]
  const KINDS_6: seq<nat> := [4, 1, 1, 1, 4, 1, 3, 1, 1, 4, 1, 4, 4, 1]
  const KINDS_7: seq<nat> := [3, 1, 1, 4, 3, 3, 4, 4, 3, 3, 3, 4, 4, 1]
  const KINDS_8: seq<nat> := [4, 4, 1, 2, 2, 4, 3, 3, 3, 2, 2, 2, 1, 4]
  const KINDS_9: seq<nat> := [4, 4, 1, 1, 3, 3, 4, 1, 4, 4, 4, 4, 3, 1]
  const KINDS_10: seq<nat> := [2, 3, 2, 3, 4, 4, 4, 4, 4, 4, 4, 4, 4, 1]
  const KINDS_11: seq<nat> := [4, 1, 1, 2, 4, 4, 4, 4, 4, 4, 2, 3]

  const IDS: seq<nat> :=
    IDS_0 + IDS_1 + IDS_2 + IDS_3 + IDS_4 + IDS_5 + IDS_6 + IDS_7 + IDS_8 + IDS_9 + IDS_10 + IDS_11

  const KIND_OF: seq<nat> :=
    KINDS_0 + KINDS_1 + KINDS_2 + KINDS_3 + KINDS_4 + KINDS_5 + KINDS_6 + KINDS_7 + KINDS_8 + KINDS_9 + KINDS_10 + KINDS_11

  ghost predicate AscendsWithin(s: seq<nat>, low: nat, high: nat) {
    && (forall i | 0 <= i < |s| :: low <= s[i] < high)
    && forall i, j | 0 <= i < j < |s| :: s[i] < s[j]
  }

  lemma JoinAscending(a: seq<nat>, b: seq<nat>, low: nat, middle: nat, high: nat)
    requires AscendsWithin(a, low, middle) && AscendsWithin(b, middle, high) && low <= middle <= high
    ensures AscendsWithin(a + b, low, high)
  {
  }

  lemma Row0Ascends()
    ensures AscendsWithin(IDS_0, 438, 16125)
  {
  }

  lemma Row1Ascends()
    ensures AscendsWithin(IDS_1, 16125, 18836)
  {
  }

  lemma Row2Ascends()
    ensures AscendsWithin(IDS_2, 18836, 28285)
  {
  }

  lemma Row3Ascends()
    ensures AscendsWithin(IDS_3, 28285, 32204)
  {
  }

  lemma Row4Ascends()
    ensures AscendsWithin(IDS_4, 32204, 34756)
  {
  }

  lemma Row5Ascends()
    ensures AscendsWithin(IDS_5, 34756, 35365)
  {
  }

  lemma Row6Ascends()
    ensures AscendsWithin(IDS_6, 35365, 38762)
  {
  }

  lemma Row7Ascends()
    ensures AscendsWithin(IDS_7, 38762, 40976)
  {
  }

  lemma Row8Ascends()
    ensures AscendsWithin(IDS_8, 40976, 47389)
  {
  }

  lemma Row9Ascends()
    ensures AscendsWithin(IDS_9, 47389, 1170265)
  {
  }

  lemma Row10Ascends()
    ensures AscendsWithin(IDS_10, 1170265, 1541413)
  {
  }

  lemma Row11Ascends()
    ensures AscendsWithin(IDS_11, 1541413, 44443857)
  {
  }

  lemma TableAscends()
    ensures AscendsWithin(IDS, 438, 44443857)
  {
    Row0Ascends();
    var s := IDS_0;
    Row1Ascends();
    JoinAscending(s, IDS_1, 438, 16125, 18836);
    s := s + IDS_1;
    Row2Ascends();
    JoinAscending(s, IDS_2, 438, 18836, 28285);
    s := s + IDS_2;
    Row3Ascends();
    JoinAscending(s, IDS_3, 438, 28285, 32204);
    s := s + IDS_3;
    Row4Ascends();
    JoinAscending(s, IDS_4, 438, 32204, 34756);
    s := s + IDS_4;
    Row5Ascends();
    JoinAscending(s, IDS_5, 438, 34756, 35365);
    s := s + IDS_5;
    Row6Ascends();
    JoinAscending(s, IDS_6, 438, 35365, 38762);
    s := s + IDS_6;
    Row7Ascends();
    JoinAscending(s, IDS_7, 438, 38762, 40976);
    s := s + IDS_7;
    Row8Ascends();
    JoinAscending(s, IDS_8, 438, 40976, 47389);
    s := s + IDS_8;
    Row9Ascends();
    JoinAscending(s, IDS_9, 438, 47389, 1170265);
    s := s + IDS_9;
    Row10Ascends();
    JoinAscending(s, IDS_10, 438, 1170265, 1541413);
    s := s + IDS_10;
    Row11Ascends();
    JoinAscending(s, IDS_11, 438, 1541413, 44443857);
    s := s + IDS_11;
  }

  lemma TableLengths()
    ensures |IDS| == 166 == |KIND_OF|
  {
  }

  ghost predicate AreListedKinds(kinds: seq<nat>) {
    forall i | 0 <= i < |kinds| :: 1 <= kinds[i] < KINDS
  }

  lemma JoinKinds(a: seq<nat>, b: seq<nat>)
    requires AreListedKinds(a) && AreListedKinds(b)
    ensures AreListedKinds(a + b)
  {
  }

  lemma Row0IsListed()
    ensures AreListedKinds(KINDS_0)
  {
  }

  lemma Row1IsListed()
    ensures AreListedKinds(KINDS_1)
  {
  }

  lemma Row2IsListed()
    ensures AreListedKinds(KINDS_2)
  {
  }

  lemma Row3IsListed()
    ensures AreListedKinds(KINDS_3)
  {
  }

  lemma Row4IsListed()
    ensures AreListedKinds(KINDS_4)
  {
  }

  lemma Row5IsListed()
    ensures AreListedKinds(KINDS_5)
  {
  }

  lemma Row6IsListed()
    ensures AreListedKinds(KINDS_6)
  {
  }

  lemma Row7IsListed()
    ensures AreListedKinds(KINDS_7)
  {
  }

  lemma Row8IsListed()
    ensures AreListedKinds(KINDS_8)
  {
  }

  lemma Row9IsListed()
    ensures AreListedKinds(KINDS_9)
  {
  }

  lemma Row10IsListed()
    ensures AreListedKinds(KINDS_10)
  {
  }

  lemma Row11IsListed()
    ensures AreListedKinds(KINDS_11)
  {
  }

  /** No listed extension has the kind of other files. */
  lemma TableKinds()
    ensures AreListedKinds(KIND_OF)
  {
    Row0IsListed();
    var s := KINDS_0;
    Row1IsListed();
    JoinKinds(s, KINDS_1);
    s := s + KINDS_1;
    Row2IsListed();
    JoinKinds(s, KINDS_2);
    s := s + KINDS_2;
    Row3IsListed();
    JoinKinds(s, KINDS_3);
    s := s + KINDS_3;
    Row4IsListed();
    JoinKinds(s, KINDS_4);
    s := s + KINDS_4;
    Row5IsListed();
    JoinKinds(s, KINDS_5);
    s := s + KINDS_5;
    Row6IsListed();
    JoinKinds(s, KINDS_6);
    s := s + KINDS_6;
    Row7IsListed();
    JoinKinds(s, KINDS_7);
    s := s + KINDS_7;
    Row8IsListed();
    JoinKinds(s, KINDS_8);
    s := s + KINDS_8;
    Row9IsListed();
    JoinKinds(s, KINDS_9);
    s := s + KINDS_9;
    Row10IsListed();
    JoinKinds(s, KINDS_10);
    s := s + KINDS_10;
    Row11IsListed();
    JoinKinds(s, KINDS_11);
    s := s + KINDS_11;
  }

  // ----- Looking up -----

  /** The kind beside the first equal id, or 0. */
  function LookUp(ids: seq<nat>, kinds: seq<nat>, id: nat, i: nat): nat
    requires |ids| == |kinds| && i <= |ids|
    decreases |ids| - i
  {
    if i == |ids| then 0 else if ids[i] == id then kinds[i] else LookUp(ids, kinds, id, i + 1)
  }

  /** The kind beside the first id that spells the word, or 0. */
  function LookUpWord(ids: seq<nat>, kinds: seq<nat>, word: string, i: nat): nat
    requires |ids| == |kinds| && i <= |ids|
    decreases |ids| - i
  {
    if i == |ids| then 0
    else if IsSpellable(ids[i]) && Spell(ids[i]) == word then kinds[i]
    else LookUpWord(ids, kinds, word, i + 1)
  }

  lemma {:induction false} LookUpHit(ids: seq<nat>, kinds: seq<nat>, id: nat, i: nat, at: nat)
    requires |ids| == |kinds| && i <= at < |ids| && ids[at] == id
    requires forall j | i <= j < at :: ids[j] != id
    ensures LookUp(ids, kinds, id, i) == kinds[at]
    decreases at - i
  {
    if i < at {
      LookUpHit(ids, kinds, id, i + 1, at);
    }
  }

  lemma {:induction false} LookUpMiss(ids: seq<nat>, kinds: seq<nat>, id: nat, i: nat)
    requires |ids| == |kinds| && i <= |ids|
    requires forall j | i <= j < |ids| :: ids[j] != id
    ensures LookUp(ids, kinds, id, i) == 0
    decreases |ids| - i
  {
    if i < |ids| {
      LookUpMiss(ids, kinds, id, i + 1);
    }
  }

  method BinarySearch(ids: seq<nat>, id: nat) returns (found: Option<nat>)
    requires forall i, j | 0 <= i < j < |ids| :: ids[i] < ids[j]
    ensures found.Some? ==> found.value < |ids| && ids[found.value] == id
    ensures found.None? ==> id !in ids
  {
    var low, high := 0, |ids|;
    while low < high
      invariant 0 <= low <= high <= |ids|
      invariant forall i | 0 <= i < low :: ids[i] < id
      invariant forall i | high <= i < |ids| :: id < ids[i]
    {
      var middle := low + (high - low) / 2;
      if ids[middle] == id {
        return Some(middle);
      } else if ids[middle] < id {
        low := middle + 1;
      } else {
        high := middle;
      }
    }
    return None;
  }

  /** Binary search in the sorted table classifies as a walk through it does. */
  method KindOfId(ids: seq<nat>, kinds: seq<nat>, id: nat) returns (kind: nat)
    requires |ids| == |kinds|
    requires forall i, j | 0 <= i < j < |ids| :: ids[i] < ids[j]
    ensures kind == if id == 0 then 0 else LookUp(ids, kinds, id, 0)
  {
    if id == 0 {
      return 0;
    }
    var found := BinarySearch(ids, id);
    if found.None? {
      LookUpMiss(ids, kinds, id, 0);
      return 0;
    }
    LookUpHit(ids, kinds, id, 0, found.value);
    return kinds[found.value];
  }

  lemma ValueSpells(ext: string, n: nat)
    requires IsWord(ext)
    ensures Value(ext) == n <==> IsSpellable(n) && Spell(n) == Fold(ext)
  {
    SpellValue(ext);
    ValueSpell(Value(ext));
    if IsSpellable(n) {
      ValueSpell(n);
    }
  }

  /** Looking for the word is looking for its number before wrapping. */
  lemma {:induction false} WordIsByValue(ids: seq<nat>, kinds: seq<nat>, ext: string, i: nat)
    requires |ids| == |kinds| && i <= |ids| && IsWord(ext)
    ensures LookUpWord(ids, kinds, Fold(ext), i) == LookUp(ids, kinds, Value(ext), i)
    decreases |ids| - i
  {
    if i < |ids| {
      WordIsByValue(ids, kinds, ext, i + 1);
      ValueSpells(ext, ids[i]);
    }
  }

  /** Exactly when a word of any length is classified by the word it is: its number
      fits 32 bits, or wraps to an id that is not listed. */
  lemma KindIsByWord(ids: seq<nat>, kinds: seq<nat>, ext: string)
    requires |ids| == |kinds| && IsWord(ext)
    requires forall i, j | 0 <= i < j < |ids| :: ids[i] < ids[j]
    requires forall i | 0 <= i < |ids| :: ids[i] < WIDTH && kinds[i] != 0
    ensures LookUp(ids, kinds, IdOf(ext), 0) == LookUpWord(ids, kinds, Fold(ext), 0)
            <==> Value(ext) < WIDTH || IdOf(ext) !in ids
  {
    WordIsByValue(ids, kinds, ext, 0);
    WrapMatters(ids, kinds, Value(ext));
  }

  /** An id is looked up as nothing exactly when it is not listed. */
  lemma LookUpNothing(ids: seq<nat>, kinds: seq<nat>, id: nat)
    requires |ids| == |kinds|
    requires forall i, j | 0 <= i < j < |ids| :: ids[i] < ids[j]
    requires forall i | 0 <= i < |ids| :: kinds[i] != 0
    ensures LookUp(ids, kinds, id, 0) == 0 <==> id !in ids
  {
    if id in ids {
      var at :| 0 <= at < |ids| && ids[at] == id;
      LookUpHit(ids, kinds, id, 0, at);
    } else {
      LookUpMiss(ids, kinds, id, 0);
    }
  }

  lemma WrapMatters(ids: seq<nat>, kinds: seq<nat>, v: nat)
    requires |ids| == |kinds|
    requires forall i, j | 0 <= i < j < |ids| :: ids[i] < ids[j]
    requires forall i | 0 <= i < |ids| :: ids[i] < WIDTH && kinds[i] != 0
    ensures LookUp(ids, kinds, v % WIDTH, 0) == LookUp(ids, kinds, v, 0) <==> v < WIDTH || v % WIDTH !in ids
  {
    LookUpNothing(ids, kinds, v % WIDTH);
    LookUpNothing(ids, kinds, v);
  }

  // ----- Classifying a file name -----

  /** What follows the last dot. */
  function Extension(name: string): Option<string> {
    if name == [] then None
    else
      var n := |name| - 1;
      if name[n] == '.' then Some([])
      else
        var before := Extension(name[..n]);
        if before.None? then None else Some(before.value + [name[n]])
  }

  lemma {:induction false} ExtensionIs(name: string)
    ensures Extension(name).None? ==> '.' !in name
    ensures Extension(name).Some? ==>
              var ext := Extension(name).value;
              && '.' !in ext && |ext| < |name|
              && name == name[..|name| - |ext| - 1] + "." + ext
  {
    if name != [] {
      var n := |name| - 1;
      ExtensionIs(name[..n]);
      assert name == name[..n] + [name[n]];
      if name[n] == '.' {
        assert name == name[..n] + "." + [];
      }
    }
  }

  /** The kind of a file: other files have kind 0. */
  function KindOf(name: string): nat {
    TableLengths();
    var ext := Extension(name);
    if ext.None? || IdOf(ext.value) == 0 then 0 else LookUp(IDS, KIND_OF, IdOf(ext.value), 0)
  }

  /** There are five kinds. */
  lemma KindIsSmall(name: string)
    ensures KindOf(name) <= 4
  {
    TableLengths();
    TableAscends();
    TableKinds();
    var ext := Extension(name);
    if ext.Some? {
      var id := IdOf(ext.value);
      if id in IDS {
        var at :| 0 <= at < |IDS| && IDS[at] == id;
        LookUpHit(IDS, KIND_OF, id, 0, at);
      } else {
        LookUpMiss(IDS, KIND_OF, id, 0);
      }
    }
  }

  method GetFileType(name: string) returns (kind: nat)
    ensures kind == KindOf(name)
  {
    TableLengths();
    TableAscends();
    var ext := Extension(name);
    if ext.None? {
      return 0;
    }
    var id := GetExtId(ext.value);
    kind := KindOfId(IDS, KIND_OF, id);
  }

  /** The kind listed beside the word the extension is, in either case. */
  function KindByWord(ext: string): nat {
    TableLengths();
    if IsWord(ext) then LookUpWord(IDS, KIND_OF, Fold(ext), 0) else 0
  }

  lemma NoListedZero()
    ensures |IDS| == |KIND_OF| && 0 !in IDS && LookUp(IDS, KIND_OF, 0, 0) == 0
  {
    TableLengths();
    TableAscends();
    LookUpMiss(IDS, KIND_OF, 0, 0);
  }

  /** A file is classified by the word its extension is, unless that word's number
      wraps to a listed id: then, and only then, it is classified as something else. */
  lemma NamesByWord(name: string)
    requires Extension(name).Some?
    ensures var ext := Extension(name).value;
            KindOf(name) == KindByWord(ext)
            <==> !IsWord(ext) || Value(ext) < WIDTH || IdOf(ext) !in IDS
  {
    var ext := Extension(name).value;
    NoListedZero();
    if IsWord(ext) {
      TableAscends();
      TableKinds();
      KindIsByWord(IDS, KIND_OF, ext);
    }
  }

  /** Up to six characters nothing wraps. */
  lemma ShortNamesByWord(name: string)
    requires Extension(name).Some? && |Extension(name).value| <= 6
    ensures KindOf(name) == KindByWord(Extension(name).value)
  {
    NamesByWord(name);
    if IsWord(Extension(name).value) {
      ShortIdIsValue(Extension(name).value);
    }
  }

  // ----- Some known extensions -----

  lemma {:induction false} ExtensionOf(stem: string, ext: string)
    requires '.' !in ext
    ensures Extension(stem + "." + ext) == Some(ext)
  {
    var name := stem + "." + ext;
    var n := |name| - 1;
    if ext == [] {
      assert name[n] == '.';
    } else {
      ExtensionOf(stem, ext[..|ext| - 1]);
      assert name[..n] == stem + "." + ext[..|ext| - 1] && name[n] == ext[|ext| - 1];
      assert ext == ext[..|ext| - 1] + [ext[|ext| - 1]];
    }
  }

  lemma ThreeDigits(a: char, b: char, c: char)
    requires Code(a) != 0 && Code(b) != 0 && Code(c) != 0
    ensures IdOf([a, b, c]) == (Code(a) * 37 + Code(b)) * 37 + Code(c)
  {
    assert [a, b, c][..2] == [a, b] && [a, b][..1] == [a] && [a][..0] == [];
    assert IsWord([a]) && Value([a]) == Code(a);
    assert IsWord([a, b]) && Value([a, b]) == Code(a) * 37 + Code(b);
    assert IsWord([a, b, c]) && Value([a, b, c]) == Value([a, b]) * 37 + Code(c);
  }

  /** A name with this extension is of the kind listed at this place of the table. */
  lemma KindAt(stem: string, a: char, b: char, c: char, at: nat, id: nat, kind: nat)
    requires Code(a) != 0 && Code(b) != 0 && Code(c) != 0 && id == (Code(a) * 37 + Code(b)) * 37 + Code(c)
    requires IsListedAt(at, id, kind) && a != '.' && b != '.' && c != '.'
    ensures KindOf(stem + "." + [a, b, c]) == kind
  {
    ThreeDigits(a, b, c);
    ExtensionOf(stem, [a, b, c]);
    TableLengths();
    TableAscends();
    LookUpHit(IDS, KIND_OF, id, 0, at);
  }

  ghost predicate IsListedAt(at: nat, id: nat, kind: nat) {
    at < |IDS| && at < |KIND_OF| && IDS[at] == id && KIND_OF[at] == kind
  }

  lemma PictureKind(stem: string)
    ensures KindOf(stem + ".jpg") == 1
  {
    assert IsListedAt(44, 28359, 1);
    assert stem + ".jpg" == stem + "." + ['j', 'p', 'g'];
    KindAt(stem, 'j', 'p', 'g', 44, 28359, 1);
  }

  lemma FilmKind(stem: string)
    ensures KindOf(stem + ".mp4") == 2
  {
    assert IsListedAt(62, 32454, 2);
    assert stem + ".mp4" == stem + "." + ['m', 'p', '4'];
    KindAt(stem, 'm', 'p', '4', 62, 32454, 2);
  }

  lemma SongKind(stem: string)
    ensures KindOf(stem + ".mp3") == 3
  {
    assert IsListedAt(61, 32453, 3);
    assert stem + ".mp3" == stem + "." + ['m', 'p', '3'];
    KindAt(stem, 'm', 'p', '3', 61, 32453, 3);
  }

  lemma DocumentKind(stem: string)
    ensures KindOf(stem + ".txt") == 4
  {
    assert IsListedAt(117, 42358, 4);
    assert stem + ".txt" == stem + "." + ['t', 'x', 't'];
    KindAt(stem, 't', 'x', 't', 117, 42358, 4);
  }

  lemma CapitalKind(stem: string)
    ensures KindOf(stem + ".JPG") == 1
  {
    assert IsListedAt(44, 28359, 1);
    assert stem + ".JPG" == stem + "." + ['J', 'P', 'G'];
    KindAt(stem, 'J', 'P', 'G', 44, 28359, 1);
  }

  /** One extension of each kind: pictures are 1, videos 2, music 3 and documents 4, in
      either case and whatever stands before the last dot. */
  lemma KnownKinds(stem: string)
    ensures KindOf(stem + ".jpg") == 1 && KindOf(stem + ".JPG") == 1
    ensures KindOf(stem + ".mp4") == 2 && KindOf(stem + ".mp3") == 3 && KindOf(stem + ".txt") == 4
  {
    PictureKind(stem);
    CapitalKind(stem);
    FilmKind(stem);
    SongKind(stem);
    DocumentKind(stem);
  }
}
