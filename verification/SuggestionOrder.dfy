/** Whether the folders suggested depend on the order in which directories list their
    entries. */
module SuggestionOrder {
  import opened Prelude
  import opened FolderScan
  import opened ScanOrder
  import Decimal
  import ExtensionIds
  import Paths
  import Suggestions

  /** The topmost qualifying folders of a scan with the whole budget. */
  function Suggested(folder: Item, path: Paths.Path): seq<Node>
    requires folder.Folder?
  {
    Suggestions.Topmost(ScanFolder(folder, path, 0, MAX_SCAN_ENTRIES).node)
  }

  /** While nothing that counts is cut short, they do not. */
  lemma StableSuggestsSame(folder: Item, other: Item, path: Paths.Path)
    requires folder.Folder? && IsProper(folder) && IsReordering(folder, other)
    requires IsStable(folder, path, 0, MAX_SCAN_ENTRIES)
    ensures Suggested(folder, path) == Suggested(other, path)
  {
    StableForgetsOrder(folder, other, path, 0, MAX_SCAN_ENTRIES);
  }

  // ----- A folder of songs and of entries that are no files -----

  const MUSIC := 3

  function Song(i: nat): Item {
    File(Decimal.Print(i) + ".au")
  }

  function Device(i: nat): Item {
    Special(Decimal.Print(i))
  }

  function Songs(n: nat): seq<Item> {
    if n == 0 then [] else Songs(n - 1) + [Song(n - 1)]
  }

  function Devices(n: nat): seq<Item> {
    if n == 0 then [] else Devices(n - 1) + [Device(n - 1)]
  }

  lemma SongKind(i: nat)
    ensures Bucket(Song(i).name) == MUSIC && !IsHidden(Song(i).name)
  {
    var digits := Decimal.Print(i);
    var name := Song(i).name;
    ExtensionOfSong(digits);
    AuIsMusic();
    Decimal.PrintIsDigits(i);
    assert name[0] == digits[0] && digits[0] in digits;
  }

  lemma ExtensionOfSong(digits: string)
    ensures ExtensionIds.Extension(digits + ".au") == Some("au")
  {
    var n := |digits|;
    var dotted := digits + ".";
    assert dotted[..n] == digits && dotted[n] == '.';
    assert ExtensionIds.Extension(dotted) == Some([]);
    var partly := digits + ".a";
    assert partly[..n + 1] == dotted && partly[n + 1] == 'a';
    assert ExtensionIds.Extension(partly) == Some([] + ['a']);
    var name := digits + ".au";
    assert name[..n + 2] == partly && name[n + 2] == 'u';
    assert [] + ['a'] + ['u'] == "au";
  }

  lemma AuIsMusic()
    ensures |ExtensionIds.IDS| == |ExtensionIds.KIND_OF|
    ensures ExtensionIds.IdOf("au") == 438
    ensures ExtensionIds.LookUp(ExtensionIds.IDS, ExtensionIds.KIND_OF, 438, 0) == MUSIC
  {
    var _ := ExtensionIds.ShortWord();
    ExtensionIds.TableLengths();
    FirstOfTable();
  }

  lemma FirstOfTable()
    ensures |ExtensionIds.IDS| > 0 && ExtensionIds.IDS[0] == 438
    ensures |ExtensionIds.KIND_OF| > 0 && ExtensionIds.KIND_OF[0] == MUSIC
  {
    assert ExtensionIds.IDS_0[0] == 438 && ExtensionIds.KINDS_0[0] == MUSIC;
  }

  /** Nothing else is counted, and no folder is opened. */
  ghost predicate IsFlat(items: seq<Item>) {
    forall e | e in items :: !e.Folder?
  }

  lemma {:induction false} FlatReadsNothing(items: seq<Item>)
    requires IsFlat(items)
    ensures SumWeight(items, 0, READ) == 0
  {
    if items != [] {
      assert items[0] in items;
      FlatReadsNothing(items[1..]);
    }
  }

  lemma {:induction false} FlatHasNoChildren(entries: seq<Item>, n: nat, path: Paths.Path, budget: nat)
    requires n <= |entries| && IsFlat(entries)
    ensures ScanEntries(entries, n, path, 0, budget).node.children == []
    decreases n
  {
    if n > 0 {
      FlatHasNoChildren(entries, n - 1, path, budget);
      assert entries[n - 1] in entries;
    }
  }

  /** A flat folder is counted as far as the budget lets it be read. */
  lemma FlatScan(folder: Item, path: Paths.Path, budget: nat, k: nat)
    requires folder.Folder? && folder.readable && IsFlat(folder.items) && k < ExtensionIds.KINDS
    ensures var node := ScanFolder(folder, path, 0, budget).node;
            node.children == [] && node.counts[k] == SumWeight(folder.items[..Min(|folder.items|, budget)], 0, k)
  {
    var read := folder.items[..Min(|folder.items|, budget)];
    var entries := Entries(folder, budget);
    forall e | e in entries
      ensures !e.Folder?
    {
      EntriesFrom(folder, budget, e);
    }
    FlatHasNoChildren(entries, |entries|, path, budget - Consumed(folder, budget));
    FlatReadsNothing(entries);
    EntriesAreFull(entries, |entries|, path, 0, budget - Consumed(folder, budget), k);
    assert entries[..|entries|] == entries;
    SumSorted(Typed(read), 0, k);
    SumTyped(read, 0, k);
  }

  lemma {:induction false} SongsWeigh(n: nat, k: nat)
    requires k < ExtensionIds.KINDS
    ensures SumWeight(Songs(n), 0, k) == if k == MUSIC then n else 0
    ensures |Songs(n)| == n && IsFlat(Songs(n))
  {
    if n > 0 {
      SongsWeigh(n - 1, k);
      SongKind(n - 1);
      SumConcat(Songs(n - 1), [Song(n - 1)], 0, k);
      assert [Song(n - 1)][1..] == [];
    }
  }

  lemma {:induction false} DevicesWeigh(n: nat, k: nat)
    requires k < ExtensionIds.KINDS
    ensures SumWeight(Devices(n), 0, k) == 0 && |Devices(n)| == n && IsFlat(Devices(n))
  {
    if n > 0 {
      DevicesWeigh(n - 1, k);
      SumConcat(Devices(n - 1), [Device(n - 1)], 0, k);
      assert [Device(n - 1)][1..] == [];
    }
  }

  lemma {:induction false} DevicesPrefix(n: nat, m: nat)
    requires m <= n
    ensures |Devices(n)| == n && Devices(n)[..m] == Devices(m)
  {
    if n > 0 {
      DevicesPrefix(n - 1, Min(m, n - 1));
      if m == n {
        DevicesPrefix(n - 1, n - 1);
        assert Devices(n)[..n] == Devices(n);
      } else {
        assert Devices(n)[..m] == Devices(n - 1)[..m];
      }
    }
  }

  // The names differ.

  lemma {:induction false} SongsAre(n: nat)
    ensures |Songs(n)| == n && forall i | 0 <= i < n :: Songs(n)[i] == Song(i)
  {
    if n > 0 {
      SongsAre(n - 1);
    }
  }

  lemma {:induction false} DevicesAre(n: nat)
    ensures |Devices(n)| == n && forall i | 0 <= i < n :: Devices(n)[i] == Device(i)
  {
    if n > 0 {
      DevicesAre(n - 1);
    }
  }

  lemma SongsDiffer(i: nat, j: nat)
    requires i != j
    ensures Song(i).name != Song(j).name && Device(i).name != Device(j).name
  {
    if Song(i).name == Song(j).name {
      Decimal.PrintThen(i, ".au", j, ".au");
    }
    if Device(i).name == Device(j).name {
      Decimal.PrintInjective(i, j);
    }
  }

  lemma SongIsNoDevice(i: nat, j: nat)
    ensures Song(i).name != Device(j).name
  {
    var name := Song(i).name;
    Decimal.PrintIsDigits(j);
    assert name[|name| - 3] == '.' && '.' in name;
    assert !Decimal.IsDigit('.');
  }

  lemma AllDiffer(songs: nat, devices: nat)
    ensures DifferentNames(Songs(songs) + Devices(devices))
  {
    SongsAre(songs);
    DevicesAre(devices);
    var items := Songs(songs) + Devices(devices);
    forall i, j | 0 <= i < j < |items|
      ensures items[i].name != items[j].name
    {
      if j < songs {
        SongsDiffer(i, j);
      } else if i < songs {
        SongIsNoDevice(i, j - songs);
      } else {
        SongsDiffer(i - songs, j - songs);
      }
    }
  }

  // The two listings.

  /** All songs before the devices, or one of them behind. */
  function SongsFirst(m: nat, n: nat): Item {
    Folder("music", true, Songs(m + 1) + Devices(n))
  }

  function OneSongLast(m: nat, n: nat): Item {
    Folder("music", true, Songs(m) + Devices(n) + [Song(m)])
  }

  lemma FirstWeighs(m: nat, n: nat, k: nat)
    requires n > 0 && k < ExtensionIds.KINDS
    ensures |SongsFirst(m, n).items| == m + n + 1 && IsFlat(SongsFirst(m, n).items)
    ensures SumWeight(SongsFirst(m, n).items[..m + n], 0, k) == if k == MUSIC then m + 1 else 0
  {
    SongsWeigh(m + 1, k);
    DevicesWeigh(n, k);
    DevicesPrefix(n, n - 1);
    DevicesWeigh(n - 1, k);
    assert (Songs(m + 1) + Devices(n))[..m + n] == Songs(m + 1) + Devices(n)[..n - 1];
    SumConcat(Songs(m + 1), Devices(n - 1), 0, k);
  }

  lemma LastWeighs(m: nat, n: nat, k: nat)
    requires k < ExtensionIds.KINDS
    ensures |OneSongLast(m, n).items| == m + n + 1 && IsFlat(OneSongLast(m, n).items)
    ensures SumWeight(OneSongLast(m, n).items[..m + n], 0, k) == if k == MUSIC then m else 0
  {
    SongsWeigh(m, k);
    DevicesWeigh(n, k);
    assert (Songs(m) + Devices(n) + [Song(m)])[..m + n] == Songs(m) + Devices(n);
    SumConcat(Songs(m), Devices(n), 0, k);
  }

  lemma SameEntries(m: nat, n: nat)
    ensures multiset(OneSongLast(m, n).items) == multiset(SongsFirst(m, n).items)
  {
    assert Songs(m + 1) == Songs(m) + [Song(m)];
    assert multiset(Songs(m) + Devices(n) + [Song(m)]) == multiset(Songs(m)) + multiset(Devices(n)) + multiset{Song(m)};
    assert multiset(Songs(m) + [Song(m)] + Devices(n)) == multiset(Songs(m)) + multiset{Song(m)} + multiset(Devices(n));
  }

  lemma {:induction false} FlatIsProper(items: seq<Item>)
    requires IsFlat(items) && DifferentNames(items)
    ensures IsProper(Folder("music", true, items))
  {
    assert forall i | 0 <= i < |items| :: items[i] in items;
  }

  lemma LastDiffers(m: nat, n: nat)
    ensures DifferentNames(OneSongLast(m, n).items)
  {
    SongsAre(m);
    DevicesAre(n);
    AllDiffer(m, n);
    var front := Songs(m) + Devices(n);
    forall i | 0 <= i < |front|
      ensures front[i].name != Song(m).name
    {
      if i < m {
        SongsDiffer(i, m);
      } else {
        SongIsNoDevice(m, i - m);
      }
    }
  }

  lemma IsReorderingOfFirst(m: nat, n: nat)
    requires n > 0
    ensures IsProper(SongsFirst(m, n)) && IsReordering(SongsFirst(m, n), OneSongLast(m, n))
  {
    FirstWeighs(m, n, 0);
    LastWeighs(m, n, 0);
    AllDiffer(m + 1, n);
    LastDiffers(m, n);
    FlatIsProper(SongsFirst(m, n).items);
    FlatIsProper(OneSongLast(m, n).items);
    SameEntries(m, n);
    RearrangedIsReordered(SongsFirst(m, n), OneSongLast(m, n).items);
  }

  /** A node without children is suggested exactly when it has enough songs. */
  lemma OnlySongs(node: Node, songs: nat)
    requires node.children == [] && songs <= MAX_SCAN_ENTRIES
    requires forall k | 0 <= k < ExtensionIds.KINDS :: node.counts[k] == if k == MUSIC then songs else 0
    ensures Suggestions.Topmost(node) == if songs >= Suggestions.MIN_FILES then [node] else []
  {
    assert node.counts[0] == 0 && node.counts[1] == 0 && node.counts[2] == 0 && node.counts[3] == songs && node.counts[4] == 0;
    Suggestions.PassesMeans(node.counts);
  }

  lemma SongsCounted(folder: Item, path: Paths.Path, songs: nat)
    requires folder.Folder? && folder.readable && IsFlat(folder.items) && |folder.items| > MAX_SCAN_ENTRIES >= songs
    requires forall k | 0 <= k < ExtensionIds.KINDS ::
               SumWeight(folder.items[..MAX_SCAN_ENTRIES], 0, k) == if k == MUSIC then songs else 0
    ensures |Suggested(folder, path)| == if songs >= Suggestions.MIN_FILES then 1 else 0
  {
    var node := ScanFolder(folder, path, 0, MAX_SCAN_ENTRIES).node;
    FlatScan(folder, path, MAX_SCAN_ENTRIES, 0);
    forall k | 0 <= k < ExtensionIds.KINDS
      ensures node.counts[k] == if k == MUSIC then songs else 0
    {
      FlatScan(folder, path, MAX_SCAN_ENTRIES, k);
    }
    OnlySongs(node, songs);
  }

  /** With one song fewer than a suggestion needs in front, `n` devices, and one entry
      more than the budget in all: the folder is suggested with the last song listed
      before the devices, and not with it listed behind them. */
  lemma OrderDecidesSuggestion(m: nat, n: nat, path: Paths.Path)
    requires m + 1 == Suggestions.MIN_FILES && m + n == MAX_SCAN_ENTRIES
    ensures IsProper(SongsFirst(m, n)) && IsReordering(SongsFirst(m, n), OneSongLast(m, n))
    ensures |Suggested(SongsFirst(m, n), path)| == 1 && Suggested(OneSongLast(m, n), path) == []
  {
    IsReorderingOfFirst(m, n);
    FirstWeighs(m, n, 0);
    LastWeighs(m, n, 0);
    forall k | 0 <= k < ExtensionIds.KINDS
      ensures SumWeight(SongsFirst(m, n).items[..MAX_SCAN_ENTRIES], 0, k) == if k == MUSIC then m + 1 else 0
    {
      FirstWeighs(m, n, k);
    }
    SongsCounted(SongsFirst(m, n), path, m + 1);
    forall k | 0 <= k < ExtensionIds.KINDS
      ensures SumWeight(OneSongLast(m, n).items[..MAX_SCAN_ENTRIES], 0, k) == if k == MUSIC then m else 0
    {
      LastWeighs(m, n, k);
    }
    SongsCounted(OneSongLast(m, n), path, m);
  }
}
