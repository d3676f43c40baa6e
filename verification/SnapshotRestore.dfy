/** Snapshots: building the archive and its sidecar, verifying both, and restoring
    the four payload files. Hashes, compression, encryption and the archive format
    are arbitrary functions. */
module SnapshotRestore {
  import opened Prelude
  import Text

  const MANIFEST_NAME := "manifest.json"
  const AUTH_NAME := "auth_token.bin"
  const STORE_NAME := "store.sqlite3"
  const AUDIT_NAME := "audit.ndjson"
  const CONFIG_NAME := "config.toml"
  const PAYLOAD_NAMES := [AUTH_NAME, STORE_NAME, AUDIT_NAME, CONFIG_NAME]
  const FORMAT_VERSION := 1
  const SIDECAR_VERSION := 1
  const MIN_LEVEL := 1
  const MAX_LEVEL := 22

  datatype Error =
    | Io
    | Store
    | SchemaReadFailed
    | Serde
    | MissingFile(which: string)
    | DigestMismatch
    | GpgUnavailable
    | GpgRecipientMissing
    | GpgFailed
    | UnsafePath
    | ZstdFailed
    | InvalidZstdLevel(got: I32)
    | InvalidOutputSuffix
    | SidecarMissing
    | SidecarCorrupt

  const MAX_DATA := 0x8000_0000_0000_0000

  /** What fits a file, and a buffer in memory. */
  type Data = b: Bytes | |b| < MAX_DATA

  datatype Manifest = Manifest(version: U32, createdAt: U64, schemaVersion: U32, sha256: string)

  datatype Sidecar = Sidecar(
    version: U32, fileName: string, size: U64, sha3: string, level: I32, encrypted: bool,
    createdAt: U64, inner: Manifest)

  /** One archive entry. Names may repeat. */
  datatype Entry = Entry(name: string, data: Data)

  /** The libraries and programs the pipeline calls. */
  datatype Tools = Tools(
    sha256: Bytes -> string,
    sha3: Bytes -> string,
    pack: seq<Entry> -> Result<Data, Error>,
    unpack: Bytes -> Option<seq<Entry>>,
    compress: (Bytes, I32) -> Result<Data, Error>,
    decompress: Bytes -> Option<Bytes>,
    encrypt: (Bytes, string) -> Result<Data, Error>,
    decrypt: Bytes -> Result<Data, Error>,
    writeManifest: Manifest -> Result<Data, Error>,
    readManifest: Bytes -> Option<Manifest>,
    writeSidecar: Sidecar -> Result<Data, Error>,
    readSidecar: Bytes -> Option<Sidecar>)

  /** What the disk lets a restore do: prepare the staging area, create a staged
      file, remove a target file, move a staged file into place. */
  datatype Disk = Disk(ready: bool, creates: string -> bool, removes: string -> bool, moves: string -> bool)

  /** The archive file and its sidecar file, where present. */
  datatype Stored = Stored(archive: Option<Data>, sidecar: Option<Data>)

  // ----- Verifying an archive's entries -----

  /** The data of the last of the first `n` entries with a given name. */
  function LastNamed(entries: seq<Entry>, n: nat, name: string): Option<Data>
    requires n <= |entries|
  {
    if n == 0 then None
    else if entries[n - 1].name == name then Some(entries[n - 1].data)
    else LastNamed(entries, n - 1, name)
  }

  function Joined(payloads: seq<Data>): Bytes {
    if payloads == [] then [] else payloads[0] + Joined(payloads[1..])
  }

  /** The last entry of each payload name is the payload. */
  ghost predicate ArePayloads(entries: seq<Entry>, payloads: seq<Data>) {
    && |payloads| == 4
    && forall k | 0 <= k < 4 :: LastNamed(entries, |entries|, PAYLOAD_NAMES[k]) == Some(payloads[k])
  }

  ghost predicate FirstMissing(entries: seq<Entry>, k: nat) {
    && k < 4 && LastNamed(entries, |entries|, PAYLOAD_NAMES[k]).None?
    && forall j | 0 <= j < k :: LastNamed(entries, |entries|, PAYLOAD_NAMES[j]).Some?
  }

  /** The manifest an archive carries: the last entry of that name. */
  function ManifestOf(t: Tools, entries: seq<Entry>): Result<Manifest, Error> {
    var data := LastNamed(entries, |entries|, MANIFEST_NAME);
    if data.None? then Err(MissingFile(MANIFEST_NAME))
    else var m := t.readManifest(data.value);
         if m.None? then Err(Serde) else Ok(m.value)
  }

  /** An archive passes with a manifest and payloads exactly when these are its last
      entries of the five names and the payloads, joined, have the digest recorded. */
  ghost predicate Passes(t: Tools, entries: seq<Entry>, m: Manifest, payloads: seq<Data>) {
    && ManifestOf(t, entries) == Ok(m)
    && ArePayloads(entries, payloads)
    && t.sha256(Joined(payloads)) == m.sha256
  }

  /** The entry at `i` has this name and data, and no later one has the name. */
  ghost predicate IsLastAt(entries: seq<Entry>, name: string, data: Data, i: nat) {
    && i < |entries| && entries[i] == Entry(name, data)
    && forall j | i < j < |entries| :: entries[j].name != name
  }

  lemma {:induction false} LastNamedIs(entries: seq<Entry>, n: nat, name: string, data: Data)
    requires n <= |entries|
    ensures LastNamed(entries, n, name) == Some(data) <==>
            exists i: nat :: i < n && entries[i] == Entry(name, data) && forall j | i < j < n :: entries[j].name != name
    ensures LastNamed(entries, n, name) == None <==> forall j | 0 <= j < n :: entries[j].name != name
  {
    if n > 0 {
      LastNamedIs(entries, n - 1, name, data);
    }
  }

  lemma LastIs(entries: seq<Entry>, name: string, data: Data)
    ensures LastNamed(entries, |entries|, name) == Some(data) <==> exists i: nat :: IsLastAt(entries, name, data, i)
  {
    LastNamedIs(entries, |entries|, name, data);
    if i: nat :| i < |entries| && entries[i] == Entry(name, data) && forall j | i < j < |entries| :: entries[j].name != name {
      assert IsLastAt(entries, name, data, i);
    }
  }

  ghost predicate IsLast(entries: seq<Entry>, name: string, data: Data) {
    exists i: nat :: IsLastAt(entries, name, data, i)
  }

  /** What passing takes, entry by entry: the last of each name, the manifest read from
      its own entry, and the digest over the payloads in this order. */
  lemma PassesExactly(t: Tools, entries: seq<Entry>, m: Manifest, auth: Data, store: Data, audit: Data, config: Data)
    ensures Passes(t, entries, m, [auth, store, audit, config]) <==>
            && (exists data: Data :: IsLast(entries, "manifest.json", data) && t.readManifest(data) == Some(m))
            && IsLast(entries, "auth_token.bin", auth) && IsLast(entries, "store.sqlite3", store)
            && IsLast(entries, "audit.ndjson", audit) && IsLast(entries, "config.toml", config)
            && t.sha256(auth + store + audit + config) == m.sha256
  {
    PayloadsAreLast(entries, auth, store, audit, config);
    JoinedFour(auth, store, audit, config);
    forall data: Data
      ensures LastNamed(entries, |entries|, MANIFEST_NAME) == Some(data) <==> IsLast(entries, "manifest.json", data)
    {
      LastIs(entries, MANIFEST_NAME, data);
    }
  }

  lemma PayloadsAreLast(entries: seq<Entry>, auth: Data, store: Data, audit: Data, config: Data)
    ensures ArePayloads(entries, [auth, store, audit, config]) <==>
            && IsLast(entries, "auth_token.bin", auth) && IsLast(entries, "store.sqlite3", store)
            && IsLast(entries, "audit.ndjson", audit) && IsLast(entries, "config.toml", config)
  {
    assert PAYLOAD_NAMES[0] == "auth_token.bin" && PAYLOAD_NAMES[1] == "store.sqlite3";
    assert PAYLOAD_NAMES[2] == "audit.ndjson" && PAYLOAD_NAMES[3] == "config.toml";
    LastIs(entries, "auth_token.bin", auth);
    LastIs(entries, "store.sqlite3", store);
    LastIs(entries, "audit.ndjson", audit);
    LastIs(entries, "config.toml", config);
  }

  lemma NamesAreDistinct()
    ensures MANIFEST_NAME !in PAYLOAD_NAMES
    ensures forall i, j | 0 <= i < j < 4 :: PAYLOAD_NAMES[i] != PAYLOAD_NAMES[j]
  {
    assert PAYLOAD_NAMES[0][0] == 'a' && PAYLOAD_NAMES[1][0] == 's';
    assert PAYLOAD_NAMES[2][0] == 'a' && PAYLOAD_NAMES[3][0] == 'c';
    assert PAYLOAD_NAMES[0][2] == 't' && PAYLOAD_NAMES[2][2] == 'd';
    assert MANIFEST_NAME[0] == 'm';
  }

  function FindName(name: string, from: nat): (k: nat)
    requires from <= 4
    ensures k <= 4 && (k < 4 ==> PAYLOAD_NAMES[k] == name)
    decreases 4 - from
  {
    if from == 4 then 4 else if PAYLOAD_NAMES[from] == name then from else FindName(name, from + 1)
  }

  lemma {:induction false} FindNameFinds(name: string, from: nat, j: nat)
    requires from <= j < 4 && PAYLOAD_NAMES[j] == name
    ensures FindName(name, from) == j
    decreases 4 - from
  {
    NamesAreDistinct();
    if from < j {
      FindNameFinds(name, from + 1, j);
    }
  }

  datatype Slots = Slots(manifest: Option<Data>, payloads: seq<Option<Data>>)

  /** Each slot holds the last of the first `n` entries of its name. */
  ghost predicate AreFilled(slots: Slots, entries: seq<Entry>, n: nat)
    requires n <= |entries|
  {
    && slots.manifest == LastNamed(entries, n, MANIFEST_NAME)
    && |slots.payloads| == 4
    && forall k | 0 <= k < 4 :: slots.payloads[k] == LastNamed(entries, n, PAYLOAD_NAMES[k])
  }

  /** One pass over the entries fills five slots. */
  method CollectSlots(entries: seq<Entry>) returns (slots: Slots)
    ensures AreFilled(slots, entries, |entries|)
  {
    slots := Slots(None, [None, None, None, None]);
    for n := 0 to |entries|
      invariant AreFilled(slots, entries, n)
    {
      NamesAreDistinct();
      var name := entries[n].name;
      if name == MANIFEST_NAME {
        slots := slots.(manifest := Some(entries[n].data));
      } else {
        var k := FindName(name, 0);
        forall j | 0 <= j < 4 && PAYLOAD_NAMES[j] == name
          ensures j == k
        {
          FindNameFinds(name, 0, j);
        }
        if k < 4 {
          slots := slots.(payloads := slots.payloads[k := Some(entries[n].data)]);
        }
      }
    }
  }

  lemma {:induction false} JoinedSnoc(payloads: seq<Data>, b: Data)
    ensures Joined(payloads + [b]) == Joined(payloads) + b
  {
    if payloads == [] {
      assert [b][1..] == [];
      assert Joined([b]) == b + Joined([]);
    } else {
      JoinedSnoc(payloads[1..], b);
      assert (payloads + [b])[1..] == payloads[1..] + [b];
      assert Joined(payloads) + b == payloads[0] + (Joined(payloads[1..]) + b);
    }
  }

  /** Reads an archive and checks it: it succeeds exactly with the manifest and the
      payloads that pass, and otherwise names the first check that fails. */
  method ReadAndVerify(t: Tools, entries: seq<Entry>) returns (r: Result<(Manifest, seq<Data>), Error>)
    ensures r.Ok? ==> Passes(t, entries, r.value.0, r.value.1)
    ensures forall m, payloads :: Passes(t, entries, m, payloads) ==> r == Ok((m, payloads))
    ensures ManifestOf(t, entries).Err? ==> r == Err(ManifestOf(t, entries).error)
    ensures ManifestOf(t, entries).Ok? ==>
              forall k: nat :: FirstMissing(entries, k) ==> r == Err(MissingFile(PAYLOAD_NAMES[k]))
    ensures ManifestOf(t, entries).Ok? && r.Err? && !(exists k: nat :: FirstMissing(entries, k)) ==>
              r == Err(DigestMismatch)
  {
    var slots := CollectSlots(entries);
    if slots.manifest.None? {
      return Err(MissingFile(MANIFEST_NAME));
    }
    var m := t.readManifest(slots.manifest.value);
    if m.None? {
      return Err(Serde);
    }
    var owned: seq<Data> := [];
    var hashed: Bytes := [];
    for k := 0 to 4
      invariant |owned| == k && hashed == Joined(owned)
      invariant forall j | 0 <= j < k :: slots.payloads[j] == Some(owned[j])
    {
      if slots.payloads[k].None? {
        assert FirstMissing(entries, k);
        return Err(MissingFile(PAYLOAD_NAMES[k]));
      }
      JoinedSnoc(owned, slots.payloads[k].value);
      owned := owned + [slots.payloads[k].value];
      hashed := hashed + slots.payloads[k].value;
    }
    assert ArePayloads(entries, owned);
    forall other, payloads | Passes(t, entries, other, payloads)
      ensures other == m.value && payloads == owned
    {
      assert forall j | 0 <= j < 4 :: payloads[j] == owned[j];
    }
    if t.sha256(hashed) != m.value.sha256 {
      return Err(DigestMismatch);
    }
    return Ok((m.value, owned));
  }

  // ----- The outer seal -----

  /** The compressed archive, once the sidecar's seal over the stored bytes holds. */
  function Unsealed(t: Tools, stored: Stored): Result<(Sidecar, seq<Entry>), Error> {
    if stored.sidecar.None? then Err(SidecarMissing)
    else var sidecar := t.readSidecar(stored.sidecar.value);
         if sidecar.None? || sidecar.value.version != SIDECAR_VERSION then Err(SidecarCorrupt)
         else if stored.archive.None? then Err(Io)
         else if t.sha3(stored.archive.value) != sidecar.value.sha3 then Err(DigestMismatch)
         else Unwrapped(t, sidecar.value, stored.archive.value)
  }

  function Unwrapped(t: Tools, sidecar: Sidecar, archive: Bytes): Result<(Sidecar, seq<Entry>), Error> {
    var compressed := if sidecar.encrypted then t.decrypt(archive) else Ok(archive);
    if compressed.Err? then Err(compressed.error)
    else var packed := t.decompress(compressed.value);
         if packed.None? then Err(ZstdFailed)
         else var entries := t.unpack(packed.value);
              if entries.None? then Err(Io) else Ok((sidecar, entries.value))
  }

  /** What opening a stored snapshot takes: a readable sidecar of the known version, the
      seal over the stored bytes, and the layers undone from the outside in. */
  lemma UnsealedExactly(t: Tools, stored: Stored, sidecar: Sidecar, entries: seq<Entry>)
    ensures Unsealed(t, stored) == Ok((sidecar, entries)) <==>
            && stored.sidecar.Some? && stored.archive.Some?
            && t.readSidecar(stored.sidecar.value) == Some(sidecar) && sidecar.version == 1
            && t.sha3(stored.archive.value) == sidecar.sha3
            && exists compressed: Bytes, packed: Bytes ::
                 && (if sidecar.encrypted then t.decrypt(stored.archive.value) == Ok(compressed)
                     else compressed == stored.archive.value)
                 && t.decompress(compressed) == Some(packed) && t.unpack(packed) == Some(entries)
  {
  }

  /** Why a stored snapshot is refused, in the order of the checks. */
  lemma RefusedAs(t: Tools, stored: Stored)
    ensures var r := Unsealed(t, stored);
            && (stored.sidecar == None ==> r == Err(SidecarMissing))
            && (stored.sidecar.Some? ==>
                  var s := t.readSidecar(stored.sidecar.value);
                  if s == None || s.value.version != 1 then r == Err(SidecarCorrupt)
                  else if stored.archive == None then r == Err(Io)
                  else t.sha3(stored.archive.value) != s.value.sha3 ==> r == Err(DigestMismatch))
  {
  }

  /** The stored pair is intact: sealed from outside and inside, with these payloads. */
  ghost predicate Intact(t: Tools, stored: Stored, sidecar: Sidecar, entries: seq<Entry>, payloads: seq<Data>) {
    && Unsealed(t, stored) == Ok((sidecar, entries))
    && exists m :: Passes(t, entries, m, payloads)
  }

  /** Verifies without restoring. */
  method VerifySnapshot(t: Tools, stored: Stored) returns (r: Result<Sidecar, Error>)
    ensures r.Ok? ==> Unsealed(t, stored).Ok? && r.value == Unsealed(t, stored).value.0
    ensures Unsealed(t, stored).Err? ==> r == Err(Unsealed(t, stored).error)
    ensures r.Ok? <==> exists sidecar, entries, payloads :: Intact(t, stored, sidecar, entries, payloads)
  {
    var unsealed := Unsealed(t, stored);
    if unsealed.Err? {
      return Err(unsealed.error);
    }
    var inner := ReadAndVerify(t, unsealed.value.1);
    if inner.Err? {
      return Err(inner.error);
    }
    assert Intact(t, stored, unsealed.value.0, unsealed.value.1, inner.value.1);
    return Ok(unsealed.value.0);
  }

  // ----- Extracting -----

  /** The name holds two dots in a row, a separator or a NUL. */
  predicate IsUnsafe(name: string) {
    && name != []
    && (|| name[0] == '/' || name[0] == '\\' || name[0] == '\0'
        || (|name| >= 2 && name[0] == '.' && name[1] == '.')
        || IsUnsafe(name[1..]))
  }

  /** Unsafe names are those with a separator, a NUL or two dots in a row somewhere. */
  lemma {:induction false} UnsafeExactly(name: string)
    ensures IsUnsafe(name) <==>
            || '/' in name || '\\' in name || '\0' in name
            || exists i :: 0 < i < |name| && name[i - 1] == '.' && name[i] == '.'
  {
    if name != [] {
      var rest := name[1..];
      UnsafeExactly(rest);
      assert name == [name[0]] + rest;
      if i :| 0 < i < |rest| && rest[i - 1] == '.' && rest[i] == '.' {
        assert name[i + 1 - 1] == '.' && name[i + 1] == '.';
      }
      if i :| 0 < i < |name| && name[i - 1] == '.' && name[i] == '.' && i != 1 {
        assert rest[i - 1 - 1] == '.' && rest[i - 1] == '.';
      }
    }
  }

  /** The staged file can be made: the empty name and "." are the staging directory
      itself. */
  predicate CanStage(disk: Disk, name: string) {
    name == MANIFEST_NAME || (name != "" && name != "." && disk.creates(name))
  }

  ghost predicate Extractable(disk: Disk, entries: seq<Entry>) {
    ExtractableUpTo(disk, entries, |entries|)
  }

  ghost predicate ExtractableUpTo(disk: Disk, entries: seq<Entry>, n: nat)
    requires n <= |entries|
  {
    forall i | 0 <= i < n :: IsExtractable(disk, entries[i])
  }

  /** The first entry that cannot be extracted, and why. */
  ghost predicate IsFirstIssue(disk: Disk, entries: seq<Entry>, i: nat, e: Error) {
    i < |entries| && ExtractableUpTo(disk, entries, i) && IssueOf(disk, entries[i]) == Some(e)
  }

  lemma NotExtractable(disk: Disk, entries: seq<Entry>, i: nat)
    requires i < |entries| && IssueOf(disk, entries[i]).Some?
    ensures !Extractable(disk, entries)
  {
    assert !IsExtractable(disk, entries[i]);
  }

  /** What is wrong with an entry, if anything. */
  function IssueOf(disk: Disk, e: Entry): Option<Error> {
    if IsUnsafe(e.name) then Some(UnsafePath)
    else if !CanStage(disk, e.name) then Some(Io)
    else None
  }

  predicate IsExtractable(disk: Disk, e: Entry) {
    IssueOf(disk, e).None?
  }

  /** Which entries are refused, and as what. The manifest is not staged at all. */
  lemma IssueExactly(disk: Disk, e: Entry)
    ensures var unsafe := || '/' in e.name || '\\' in e.name || '\0' in e.name
                          || exists i :: 0 < i < |e.name| && e.name[i - 1] == '.' && e.name[i] == '.';
            && (IssueOf(disk, e) == Some(UnsafePath) <==> unsafe)
            && (IsExtractable(disk, e) <==>
                !unsafe && (e.name == "manifest.json" || (e.name != "" && e.name != "." && disk.creates(e.name))))
            && (IssueOf(disk, e) == None || IssueOf(disk, e) == Some(UnsafePath) || IssueOf(disk, e) == Some(Io))
  {
    UnsafeExactly(e.name);
  }

  /** Staging holds the last data of every name but the manifest's. */
  ghost predicate Holds(staged: map<string, Data>, entries: seq<Entry>, n: nat)
    requires n <= |entries|
  {
    forall name :: Look(staged, name) == if name == MANIFEST_NAME then None else LastNamed(entries, n, name)
  }

  ghost function Look(staged: map<string, Data>, name: string): Option<Data> {
    if name in staged then Some(staged[name]) else None
  }

  function Stage(staged: map<string, Data>, e: Entry): map<string, Data> {
    if e.name == MANIFEST_NAME then staged else staged[e.name := e.data]
  }

  lemma HoldsNext(staged: map<string, Data>, entries: seq<Entry>, n: nat)
    requires n < |entries| && Holds(staged, entries, n)
    ensures Holds(Stage(staged, entries[n]), entries, n + 1)
  {
    var after := Stage(staged, entries[n]);
    forall name
      ensures Look(after, name) == if name == MANIFEST_NAME then None else LastNamed(entries, n + 1, name)
    {
      assert Look(staged, name) == if name == MANIFEST_NAME then None else LastNamed(entries, n, name);
    }
  }

  /** Extraction succeeds exactly when every name is safe and can be made; a later
      entry replaces an earlier one of the same name. */
  method Extract(disk: Disk, entries: seq<Entry>) returns (r: Result<map<string, Data>, Error>)
    ensures r.Ok? <==> Extractable(disk, entries)
    ensures r.Ok? ==> Holds(r.value, entries, |entries|)
    ensures r.Err? ==> exists i: nat :: IsFirstIssue(disk, entries, i, r.error)
  {
    var staged: map<string, Data> := map[];
    for n := 0 to |entries|
      invariant Holds(staged, entries, n)
      invariant ExtractableUpTo(disk, entries, n)
    {
      var issue := IssueOf(disk, entries[n]);
      if issue.Some? {
        assert IsFirstIssue(disk, entries, n, issue.value);
        NotExtractable(disk, entries, n);
        return Err(issue.value);
      }
      HoldsNext(staged, entries, n);
      staged := Stage(staged, entries[n]);
    }
    return Ok(staged);
  }

  // ----- Installing -----

  function Installed(before: map<string, Data>, payloads: seq<Data>, k: nat): map<string, Data>
    requires k <= 4 && k <= |payloads|
  {
    if k == 0 then before else Installed(before, payloads, k - 1)[PAYLOAD_NAMES[k - 1] := payloads[k - 1]]
  }

  /** Installing replaces exactly the payload files and touches nothing else. */
  lemma {:induction false} InstalledHas(before: map<string, Data>, payloads: seq<Data>, k: nat)
    requires k <= 4 && k <= |payloads|
    ensures var after := Installed(before, payloads, k);
            && (forall j | 0 <= j < k :: PAYLOAD_NAMES[j] in after && after[PAYLOAD_NAMES[j]] == payloads[j])
            && (forall name | name !in PAYLOAD_NAMES[..k] ::
                  (name in after <==> name in before) && (name in before ==> after[name] == before[name]))
  {
    if k > 0 {
      InstalledHas(before, payloads, k - 1);
      NamesAreDistinct();
      assert PAYLOAD_NAMES[..k] == PAYLOAD_NAMES[..k - 1] + [PAYLOAD_NAMES[k - 1]];
    }
  }

  /** The disk lets a payload be replaced: the old file, if any, can be removed, and the
      new one moved into place. */
  ghost predicate CanReplace(disk: Disk, before: map<string, Data>, k: nat)
    requires k < 4
  {
    (PAYLOAD_NAMES[k] in before ==> disk.removes(PAYLOAD_NAMES[k])) && disk.moves(PAYLOAD_NAMES[k])
  }

  /** The first payload that the disk does not let be replaced. */
  ghost predicate FirstStuck(disk: Disk, before: map<string, Data>, k: nat) {
    k < 4 && !CanReplace(disk, before, k) && forall j | 0 <= j < k :: CanReplace(disk, before, j)
  }

  /** The old file of a payload is removed before the new one turns out not to move. */
  ghost predicate LosesOld(disk: Disk, before: map<string, Data>, k: nat)
    requires k < 4
  {
    PAYLOAD_NAMES[k] in before && disk.removes(PAYLOAD_NAMES[k])
  }

  /** Where a failed installation stops: the payloads before the first stuck one are in
      place, and the old file of that one is either untouched or gone. */
  ghost predicate StoppedAt(disk: Disk, before: map<string, Data>, payloads: seq<Data>, k: nat, after: map<string, Data>) {
    && k < |payloads| && FirstStuck(disk, before, k)
    && var reached := Installed(before, payloads, k);
       after == if LosesOld(disk, before, k) then reached - {PAYLOAD_NAMES[k]} else reached
  }

  /** The disk lets every payload be replaced. */
  ghost predicate Replaceable(disk: Disk, before: map<string, Data>) {
    forall k | 0 <= k < 4 :: CanReplace(disk, before, k)
  }

  ghost predicate StagedPayloads(staged: map<string, Data>, payloads: seq<Data>) {
    && |payloads| == 4
    && forall k | 0 <= k < 4 :: PAYLOAD_NAMES[k] in staged && staged[PAYLOAD_NAMES[k]] == payloads[k]
  }

  class Folder {
    var files: map<string, Data>

    constructor (files: map<string, Data>)
      ensures this.files == files
    {
      this.files := files;
    }

    /** Replaces one file. */
    method Replace(disk: Disk, name: string, data: Data) returns (ok: bool)
      modifies this
      ensures ok <==> (name in old(files) ==> disk.removes(name)) && disk.moves(name)
      ensures ok ==> files == old(files)[name := data]
      ensures !ok ==> files == if name in old(files) && !disk.removes(name) then old(files) else old(files) - {name}
    {
      if name in files {
        if !disk.removes(name) {
          return false;
        }
        files := files - {name};
      }
      if !disk.moves(name) {
        return false;
      }
      files := files[name := data];
      return true;
    }

    /** Moves the staged payloads into place, one by one. A missing one is reported
        where the loop meets it. */
    method Install(disk: Disk, staged: map<string, Data>, ghost payloads: seq<Data>) returns (r: Result<(), Error>)
      modifies this
      ensures StagedPayloads(staged, payloads) ==> (r.Ok? <==> Replaceable(disk, old(files)))
      ensures StagedPayloads(staged, payloads) && r.Ok? ==> files == Installed(old(files), payloads, 4)
      ensures StagedPayloads(staged, payloads) && r.Err? ==>
                r.error == Io && exists k: nat :: StoppedAt(disk, old(files), payloads, k, files)
    {
      for k := 0 to 4
        invariant StagedPayloads(staged, payloads) ==>
                    && files == Installed(old(files), payloads, k)
                    && forall j | 0 <= j < k :: CanReplace(disk, old(files), j)
      {
        var name := PAYLOAD_NAMES[k];
        if name !in staged {
          return Err(MissingFile(name));
        }
        if StagedPayloads(staged, payloads) {
          InstalledHas(old(files), payloads, k);
          NamesAreDistinct();
        }
        var ok := Replace(disk, name, staged[name]);
        if !ok {
          assert StagedPayloads(staged, payloads) ==> StoppedAt(disk, old(files), payloads, k, files);
          return Err(Io);
        }
      }
      return Ok(());
    }
  }

  lemma PayloadsAreStaged(entries: seq<Entry>, staged: map<string, Data>, payloads: seq<Data>)
    requires ArePayloads(entries, payloads) && Holds(staged, entries, |entries|)
    ensures StagedPayloads(staged, payloads)
  {
    NamesAreDistinct();
    forall k | 0 <= k < 4
      ensures PAYLOAD_NAMES[k] in staged && staged[PAYLOAD_NAMES[k]] == payloads[k]
    {
      var name := PAYLOAD_NAMES[k];
      assert Look(staged, name) == LastNamed(entries, |entries|, name);
    }
  }

  /** What restoring an intact snapshot comes to. Anything wrong with the entries or the
      staging area leaves the target alone. After that only the target's disk can stop it,
      and then the payloads before the stuck one are in place. */
  ghost predicate IsOutcome(
    disk: Disk, sidecar: Sidecar, entries: seq<Entry>, payloads: seq<Data>,
    before: map<string, Data>, after: map<string, Data>, r: Result<Sidecar, Error>)
    requires |payloads| == 4
  {
    if !disk.ready || !Extractable(disk, entries) then r.Err? && !r.error.MissingFile? && after == before
    else if Replaceable(disk, before) then r == Ok(sidecar) && after == Installed(before, payloads, 4)
    else r == Err(Io) && exists k: nat :: StoppedAt(disk, before, payloads, k, after)
  }

  /** Restores a snapshot. One that is not intact is refused and leaves the target alone;
      for one that is, the outcome is determined by what the disk allows. The
      missing-payload error of the install loop never comes out. */
  method RestoreSnapshot(t: Tools, stored: Stored, disk: Disk, target: Folder) returns (r: Result<Sidecar, Error>)
    modifies target
    ensures Unsealed(t, stored).Err? ==> r == Err(Unsealed(t, stored).error)
    ensures (forall sidecar, entries, payloads :: !Intact(t, stored, sidecar, entries, payloads)) ==>
              r.Err? && target.files == old(target.files)
    ensures forall sidecar, entries, payloads :: Intact(t, stored, sidecar, entries, payloads) ==>
              IsOutcome(disk, sidecar, entries, payloads, old(target.files), target.files, r)
  {
    var unsealed := Unsealed(t, stored);
    if unsealed.Err? {
      return Err(unsealed.error);
    }
    var sidecar, entries := unsealed.value.0, unsealed.value.1;
    if !disk.ready {
      return Err(Io);
    }
    var inner := ReadAndVerify(t, entries);
    if inner.Err? {
      return Err(inner.error);
    }
    ghost var payloads := inner.value.1;
    assert Intact(t, stored, sidecar, entries, payloads);
    forall s, e, p | Intact(t, stored, s, e, p)
      ensures s == sidecar && e == entries && p == payloads
    {
      SamePayloads(t, stored, s, e, p, sidecar, entries, payloads);
    }
    var staged := Extract(disk, entries);
    if staged.Err? {
      return Err(staged.error);
    }
    PayloadsAreStaged(entries, staged.value, payloads);
    var done := target.Install(disk, staged.value, payloads);
    if done.Err? {
      return Err(done.error);
    }
    return Ok(sidecar);
  }

  // ----- What a stopped installation leaves -----

  /** It stops in one place, and leaves one thing. */
  lemma StopIsDetermined(
    disk: Disk, before: map<string, Data>, payloads: seq<Data>, k: nat, after: map<string, Data>, k': nat, after': map<string, Data>)
    requires StoppedAt(disk, before, payloads, k, after) && StoppedAt(disk, before, payloads, k', after')
    ensures k == k' && after == after'
  {
  }

  /** The file of a payload is the old one, or absent as before, or the new one. */
  ghost predicate IsOldOrNew(before: map<string, Data>, payloads: seq<Data>, after: map<string, Data>, j: nat)
    requires j < 4 && j < |payloads|
  {
    Look(after, PAYLOAD_NAMES[j]) == Look(before, PAYLOAD_NAMES[j]) || Look(after, PAYLOAD_NAMES[j]) == Some(payloads[j])
  }

  lemma StoppedLook(disk: Disk, before: map<string, Data>, payloads: seq<Data>, k: nat, after: map<string, Data>, j: nat)
    requires |payloads| == 4 && StoppedAt(disk, before, payloads, k, after) && j < 4
    ensures Look(after, PAYLOAD_NAMES[j]) ==
              if j < k then Some(payloads[j])
              else if j == k && LosesOld(disk, before, k) then None
              else Look(before, PAYLOAD_NAMES[j])
  {
    InstalledHas(before, payloads, k);
    NamesAreDistinct();
    if j >= k {
      assert PAYLOAD_NAMES[j] !in PAYLOAD_NAMES[..k];
    }
  }

  /** Each payload file is replaced atomically exactly when the stuck one's old file
      could not be removed or was not there: removed first, it is lost. */
  lemma EachIsAtomicUnlessRemoved(
    disk: Disk, before: map<string, Data>, payloads: seq<Data>, k: nat, after: map<string, Data>)
    requires |payloads| == 4 && StoppedAt(disk, before, payloads, k, after)
    ensures (forall j | 0 <= j < 4 :: IsOldOrNew(before, payloads, after, j)) <==> !LosesOld(disk, before, k)
  {
    forall j | 0 <= j < 4
      ensures IsOldOrNew(before, payloads, after, j) <==> !(j == k && LosesOld(disk, before, k))
    {
      StoppedLook(disk, before, payloads, k, after, j);
    }
    if LosesOld(disk, before, k) {
      assert !IsOldOrNew(before, payloads, after, k);
    }
  }

  /** A failed restore leaves the target as it was exactly when the stuck file's old one
      stays and the files already replaced were the same before. */
  lemma StopLeavesAllExactly(
    disk: Disk, before: map<string, Data>, payloads: seq<Data>, k: nat, after: map<string, Data>)
    requires |payloads| == 4 && StoppedAt(disk, before, payloads, k, after)
    ensures after == before
            <==> !LosesOld(disk, before, k) && forall j | 0 <= j < k :: Look(before, PAYLOAD_NAMES[j]) == Some(payloads[j])
  {
    forall j | 0 <= j < 4
      ensures Look(after, PAYLOAD_NAMES[j]) ==
                if j < k then Some(payloads[j])
                else if j == k && LosesOld(disk, before, k) then None
                else Look(before, PAYLOAD_NAMES[j])
    {
      StoppedLook(disk, before, payloads, k, after, j);
    }
    if after == before {
      assert Look(after, PAYLOAD_NAMES[k]) == Look(before, PAYLOAD_NAMES[k]);
      assert forall j | 0 <= j < k :: Look(after, PAYLOAD_NAMES[j]) == Look(before, PAYLOAD_NAMES[j]);
    } else if !LosesOld(disk, before, k) && forall j | 0 <= j < k :: Look(before, PAYLOAD_NAMES[j]) == Some(payloads[j]) {
      ReinstalledIsSame(before, payloads, k);
    }
  }

  lemma {:induction false} ReinstalledIsSame(before: map<string, Data>, payloads: seq<Data>, k: nat)
    requires k <= 4 && k <= |payloads|
    requires forall j | 0 <= j < k :: Look(before, PAYLOAD_NAMES[j]) == Some(payloads[j])
    ensures Installed(before, payloads, k) == before
  {
    if k > 0 {
      ReinstalledIsSame(before, payloads, k - 1);
      assert Look(before, PAYLOAD_NAMES[k - 1]) == Some(payloads[k - 1]);
    }
  }

  /** A disk that removes files but moves none into place: the first payload that was
      there is lost. */
  lemma OldPayloadIsLost(kept: Data, payloads: seq<Data>)
    returns (disk: Disk, before: map<string, Data>, after: map<string, Data>)
    requires |payloads| == 4
    ensures before == map[AUTH_NAME := kept] && StoppedAt(disk, before, payloads, 0, after)
    ensures AUTH_NAME !in after && !Replaceable(disk, before)
  {
    disk := Disk(true, _ => true, _ => true, _ => false);
    before := map[AUTH_NAME := kept];
    after := Installed(before, payloads, 0) - {PAYLOAD_NAMES[0]};
    assert !CanReplace(disk, before, 0);
  }

  // ----- Creating -----

  /** The files to bundle, where present, and what backing up the database and reading
      its schema version gives. */
  datatype Inputs = Inputs(
    auth: Option<Data>, audit: Option<Data>, store: Result<Data, Error>, config: Data, schemaVersion: Result<U32, Error>)

  /** Whether the two files of a new snapshot can be written. */
  datatype Room = Room(archive: bool, sidecar: bool)

  predicate AreReadable(inputs: Inputs) {
    inputs.auth.Some? && inputs.audit.Some? && inputs.store.Ok? && inputs.schemaVersion.Ok?
  }

  function Payloads(inputs: Inputs): (payloads: seq<Data>)
    requires AreReadable(inputs)
    ensures |payloads| == 4
  {
    [inputs.auth.value, inputs.store.value, inputs.audit.value, inputs.config]
  }

  datatype Options = Options(level: I32, recipient: Option<string>)

  predicate SuffixFits(fileName: string, encrypted: bool) {
    if encrypted then Text.EndsWith(fileName, ".tar.zst.gpg")
    else Text.EndsWith(fileName, ".tar.zst") && !Text.EndsWith(fileName, ".tar.zst.gpg")
  }

  /** An archive is named for what it is: compressed, or compressed and encrypted. */
  lemma SuffixExactly(fileName: string)
    ensures SuffixFits(fileName, false) <==> exists stem: string :: fileName == stem + ".tar.zst"
    ensures SuffixFits(fileName, true) <==> exists stem: string :: fileName == stem + ".tar.zst.gpg"
  {
    var n := |fileName|;
    if SuffixFits(fileName, false) {
      assert fileName == fileName[..n - 8] + ".tar.zst";
    }
    if SuffixFits(fileName, true) {
      assert fileName == fileName[..n - 12] + ".tar.zst.gpg";
    }
    if Text.EndsWith(fileName, ".tar.zst") {
      assert fileName[n - 8..][7] == 't' == fileName[n - 1];
    }
    if Text.EndsWith(fileName, ".tar.zst.gpg") {
      assert fileName[n - 12..][11] == 'g' == fileName[n - 1];
    }
  }

  /** The entries of a fresh archive. */
  function EntriesFor(manifest: Data, payloads: seq<Data>): seq<Entry>
    requires |payloads| == 4
  {
    [Entry(MANIFEST_NAME, manifest),
     Entry(AUTH_NAME, payloads[0]), Entry(STORE_NAME, payloads[1]),
     Entry(AUDIT_NAME, payloads[2]), Entry(CONFIG_NAME, payloads[3])]
  }

  ghost predicate HasOwnNames(entries: seq<Entry>) {
    forall e | e in entries :: e.name == MANIFEST_NAME || e.name in PAYLOAD_NAMES
  }

  /** What the pipeline's libraries promise each other: what they manage to write they
      read back. The archiver is asked for it only on the client's own file names. */
  ghost predicate Faithful(t: Tools) {
    && (forall entries | HasOwnNames(entries) && t.pack(entries).Ok? :: t.unpack(t.pack(entries).value) == Some(entries))
    && (forall b, level | t.compress(b, level).Ok? :: t.decompress(t.compress(b, level).value) == Some(b))
    && (forall b, who | t.encrypt(b, who).Ok? :: t.decrypt(t.encrypt(b, who).value) == Ok(b))
    && (forall m | t.writeManifest(m).Ok? :: t.readManifest(t.writeManifest(m).value) == Some(m))
    && (forall s | t.writeSidecar(s).Ok? :: t.readSidecar(t.writeSidecar(s).value) == Some(s))
  }

  function ManifestFor(t: Tools, inputs: Inputs, time: U64): Manifest
    requires AreReadable(inputs)
  {
    Manifest(FORMAT_VERSION, time, inputs.schemaVersion.value, t.sha256(Joined(Payloads(inputs))))
  }

  /** The archive file's bytes: manifest, archive, compression and encryption in turn. */
  function ArchiveOf(t: Tools, inputs: Inputs, options: Options, time: U64): Result<Data, Error>
    requires AreReadable(inputs)
  {
    var manifest := t.writeManifest(ManifestFor(t, inputs, time));
    if manifest.Err? then manifest
    else
      var packed := t.pack(EntriesFor(manifest.value, Payloads(inputs)));
      if packed.Err? then packed
      else
        var compressed := t.compress(packed.value, options.level);
        if compressed.Err? || options.recipient.None? then compressed
        else t.encrypt(compressed.value, options.recipient.value)
  }

  function SidecarOf(t: Tools, fileName: string, archive: Data, options: Options, time: U64, m: Manifest): Sidecar {
    Sidecar(SIDECAR_VERSION, fileName, |archive|, t.sha3(archive), options.level, options.recipient.Some?, time, m)
  }

  /** The four payloads as the manifest's digest takes them. */
  function InOrder(inputs: Inputs): Bytes
    requires AreReadable(inputs)
  {
    inputs.auth.value + inputs.store.value + inputs.audit.value + inputs.config
  }

  /** The entries of the archive: each file name with the input it holds. */
  ghost predicate HoldInputs(entries: seq<Entry>, inputs: Inputs)
    requires AreReadable(inputs)
  {
    && |entries| == 5 && entries[0].name == "manifest.json"
    && entries[1] == Entry("auth_token.bin", inputs.auth.value)
    && entries[2] == Entry("store.sqlite3", inputs.store.value)
    && entries[3] == Entry("audit.ndjson", inputs.audit.value)
    && entries[4] == Entry("config.toml", inputs.config)
  }

  /** How an archive comes about: a manifest over the payloads, the five entries
      packed, compressed, and encrypted last where there is a recipient. */
  ghost predicate BuiltAs(t: Tools, inputs: Inputs, options: Options, m: Manifest, entries: seq<Entry>, packed: Data, compressed: Data, archive: Data)
    requires AreReadable(inputs)
  {
    && HoldInputs(entries, inputs) && t.writeManifest(m) == Ok(entries[0].data)
    && t.pack(entries) == Ok(packed) && t.compress(packed, options.level) == Ok(compressed)
    && (if options.recipient.None? then archive == compressed
        else t.encrypt(compressed, options.recipient.value) == Ok(archive))
  }

  lemma ArchiveExactly(t: Tools, inputs: Inputs, options: Options, time: U64, archive: Data)
    requires AreReadable(inputs)
    ensures ArchiveOf(t, inputs, options, time) == Ok(archive) <==>
            exists entries, packed, compressed ::
              BuiltAs(t, inputs, options, Manifest(1, time, inputs.schemaVersion.value, t.sha256(InOrder(inputs))),
                entries, packed, compressed, archive)
  {
    var p := Payloads(inputs);
    JoinedFour(p[0], p[1], p[2], p[3]);
    var m := ManifestFor(t, inputs, time);
    assert m == Manifest(1, time, inputs.schemaVersion.value, t.sha256(InOrder(inputs)));
    if ArchiveOf(t, inputs, options, time) == Ok(archive) {
      var entries := EntriesFor(t.writeManifest(m).value, p);
      EntriesHoldInputs(inputs, t.writeManifest(m).value, entries);
      var packed := t.pack(entries).value;
      assert BuiltAs(t, inputs, options, m, entries, packed, t.compress(packed, options.level).value, archive);
    }
    if entries, packed, compressed :| BuiltAs(t, inputs, options, m, entries, packed, compressed, archive) {
      EntriesHoldInputs(inputs, t.writeManifest(m).value, entries);
    }
  }

  lemma EntriesHoldInputs(inputs: Inputs, manifest: Data, entries: seq<Entry>)
    requires AreReadable(inputs)
    ensures entries == EntriesFor(manifest, Payloads(inputs))
            <==> HoldInputs(entries, inputs) && entries[0].data == manifest
  {
  }

  /** What creating a snapshot leaves: the archive with the sidecar that describes it. */
  ghost predicate CreatedAs(
    t: Tools, inputs: Inputs, fileName: string, options: Options, innerTime: U64, outerTime: U64,
    stored: Stored, sidecar: Sidecar)
    requires AreReadable(inputs)
  {
    var m := Manifest(1, innerTime, inputs.schemaVersion.value, t.sha256(InOrder(inputs)));
    && stored.archive.Some? && stored.sidecar.Some?
    && var archive := stored.archive.value;
    && (exists entries, packed, compressed :: BuiltAs(t, inputs, options, m, entries, packed, compressed, archive))
    && sidecar == Sidecar(1, fileName, |archive|, t.sha3(archive), options.level, options.recipient.Some?, outerTime, m)
    && t.writeSidecar(sidecar) == Ok(stored.sidecar.value)
  }

  /** Builds the archive and its sidecar. With faithful tools the result is intact and
      each file of the archive holds the input it is named for. */
  method CreateSnapshot(
    t: Tools, inputs: Inputs, fileName: string, options: Options, innerTime: U64, outerTime: U64, room: Room)
    returns (r: Result<(Stored, Sidecar), Error>)
    ensures r.Ok? <==>
            && 1 <= options.level <= 22
            && SuffixFits(fileName, options.recipient.Some?)
            && AreReadable(inputs) && room.archive && room.sidecar
            && exists stored, sidecar :: CreatedAs(t, inputs, fileName, options, innerTime, outerTime, stored, sidecar)
    ensures r.Ok? ==>
              && CreatedAs(t, inputs, fileName, options, innerTime, outerTime, r.value.0, r.value.1)
              && (Faithful(t) ==> exists entries ::
                    && HoldInputs(entries, inputs)
                    && Intact(t, r.value.0, r.value.1, entries,
                         [inputs.auth.value, inputs.store.value, inputs.audit.value, inputs.config]))
    ensures !(1 <= options.level <= 22) ==> r == Err(InvalidZstdLevel(options.level))
    ensures 1 <= options.level <= 22 ==>
              if !SuffixFits(fileName, options.recipient.Some?) then r == Err(InvalidOutputSuffix)
              else if inputs.auth.None? then r == Err(MissingFile("auth_token.bin"))
              else if inputs.audit.None? then r == Err(MissingFile("audit.ndjson"))
              else if inputs.store.Err? then r == Err(inputs.store.error)
              else inputs.schemaVersion.Err? ==> r == Err(inputs.schemaVersion.error)
  {
    if !(MIN_LEVEL <= options.level <= MAX_LEVEL) {
      return Err(InvalidZstdLevel(options.level));
    }
    if !SuffixFits(fileName, options.recipient.Some?) {
      return Err(InvalidOutputSuffix);
    }
    if inputs.auth.None? {
      return Err(MissingFile(PAYLOAD_NAMES[0]));
    }
    if inputs.audit.None? {
      return Err(MissingFile(PAYLOAD_NAMES[2]));
    }
    if inputs.store.Err? {
      return Err(inputs.store.error);
    }
    if inputs.schemaVersion.Err? {
      return Err(inputs.schemaVersion.error);
    }
    CreatedExactly(t, inputs, fileName, options, innerTime, outerTime);
    var archive := ArchiveOf(t, inputs, options, innerTime);
    if archive.Err? {
      return Err(archive.error);
    }
    if !room.archive {
      return Err(Io);
    }
    var m := ManifestFor(t, inputs, innerTime);
    var sidecar := SidecarOf(t, fileName, archive.value, options, outerTime, m);
    var written := t.writeSidecar(sidecar);
    if written.Err? {
      return Err(written.error);
    }
    if !room.sidecar {
      return Err(Io);
    }
    if Faithful(t) {
      FreshSnapshotIsIntact(t, inputs, fileName, options, innerTime, outerTime, written.value);
      EntriesHoldInputs(inputs, t.writeManifest(m).value, EntriesFor(t.writeManifest(m).value, Payloads(inputs)));
    }
    var stored := Stored(Some(archive.value), Some(written.value));
    assert CreatedAs(t, inputs, fileName, options, innerTime, outerTime, stored, sidecar);
    return Ok((stored, sidecar));
  }

  /** There is one way to create a snapshot. */
  lemma CreatedExactly(t: Tools, inputs: Inputs, fileName: string, options: Options, innerTime: U64, outerTime: U64)
    requires AreReadable(inputs)
    ensures forall stored, sidecar :: CreatedAs(t, inputs, fileName, options, innerTime, outerTime, stored, sidecar) <==>
              var archive, m := ArchiveOf(t, inputs, options, innerTime), ManifestFor(t, inputs, innerTime);
              && archive.Ok?
              && sidecar == SidecarOf(t, fileName, archive.value, options, outerTime, m)
              && t.writeSidecar(sidecar).Ok?
              && stored == Stored(Some(archive.value), Some(t.writeSidecar(sidecar).value))
  {
    var p := Payloads(inputs);
    JoinedFour(p[0], p[1], p[2], p[3]);
    forall archive
      ensures ArchiveOf(t, inputs, options, innerTime) == Ok(archive) <==>
              exists entries, packed, compressed ::
                BuiltAs(t, inputs, options, Manifest(1, innerTime, inputs.schemaVersion.value, t.sha256(InOrder(inputs))),
                  entries, packed, compressed, archive)
    {
      ArchiveExactly(t, inputs, options, innerTime, archive);
    }
  }

  lemma FreshSnapshotIsIntact(
    t: Tools, inputs: Inputs, fileName: string, options: Options, innerTime: U64, outerTime: U64, written: Data)
    requires Faithful(t) && AreReadable(inputs) && ArchiveOf(t, inputs, options, innerTime).Ok?
    requires var archive := ArchiveOf(t, inputs, options, innerTime).value;
             t.writeSidecar(SidecarOf(t, fileName, archive, options, outerTime, ManifestFor(t, inputs, innerTime))) == Ok(written)
    ensures var archive := ArchiveOf(t, inputs, options, innerTime).value;
            var m := ManifestFor(t, inputs, innerTime);
            t.writeManifest(m).Ok?
            && Intact(t, Stored(Some(archive), Some(written)), SidecarOf(t, fileName, archive, options, outerTime, m),
                 EntriesFor(t.writeManifest(m).value, Payloads(inputs)), Payloads(inputs))
  {
    var m := ManifestFor(t, inputs, innerTime);
    var entries := EntriesFor(t.writeManifest(m).value, Payloads(inputs));
    FreshArchivePasses(t, m, t.writeManifest(m).value, Payloads(inputs));
    assert HasOwnNames(entries);
    assert t.unpack(t.pack(entries).value) == Some(entries);
  }

  lemma FreshArchivePasses(t: Tools, m: Manifest, manifest: Data, payloads: seq<Data>)
    requires Faithful(t) && t.writeManifest(m) == Ok(manifest)
    requires |payloads| == 4 && m.sha256 == t.sha256(Joined(payloads))
    ensures Passes(t, EntriesFor(manifest, payloads), m, payloads)
  {
    NamesAreDistinct();
    var entries := EntriesFor(manifest, payloads);
    forall k | 0 <= k < 4
      ensures LastNamed(entries, 5, PAYLOAD_NAMES[k]) == Some(payloads[k])
    {
      LastAt(entries, 5, k + 1);
    }
    LastAt(entries, 5, 0);
  }

  /** An entry with no later namesake is the last of its name. */
  lemma {:induction false} LastAt(entries: seq<Entry>, n: nat, i: nat)
    requires i < n <= |entries|
    requires forall j | i < j < n :: entries[j].name != entries[i].name
    ensures LastNamed(entries, n, entries[i].name) == Some(entries[i].data)
  {
    if i < n - 1 {
      LastAt(entries, n - 1, i);
    }
  }

  /** A fresh archive can be extracted wherever the payload files can be made. */
  lemma FreshArchiveExtracts(manifest: Data, payloads: seq<Data>, disk: Disk)
    requires |payloads| == 4
    requires disk.creates(AUTH_NAME) && disk.creates(STORE_NAME) && disk.creates(AUDIT_NAME) && disk.creates(CONFIG_NAME)
    ensures Extractable(disk, EntriesFor(manifest, payloads))
  {
    ManifestExtracts(disk, manifest);
    AuthExtracts(disk, payloads[0]);
    StoreExtracts(disk, payloads[1]);
    AuditExtracts(disk, payloads[2]);
    ConfigExtracts(disk, payloads[3]);
    AllOfFive(
      (e: Entry) => IsExtractable(disk, e), Entry(MANIFEST_NAME, manifest), Entry(AUTH_NAME, payloads[0]),
      Entry(STORE_NAME, payloads[1]), Entry(AUDIT_NAME, payloads[2]), Entry(CONFIG_NAME, payloads[3]));
  }

  lemma AllOfFive(good: Entry -> bool, a: Entry, b: Entry, c: Entry, d: Entry, e: Entry)
    requires good(a) && good(b) && good(c) && good(d) && good(e)
    ensures forall i | 0 <= i < 5 :: good([a, b, c, d, e][i])
  {
  }

  lemma ManifestExtracts(disk: Disk, data: Data)
    ensures IsExtractable(disk, Entry(MANIFEST_NAME, data))
  {
    SafeText(MANIFEST_NAME, 8);
    assert |MANIFEST_NAME| > 1;
  }

  lemma AuthExtracts(disk: Disk, data: Data)
    requires disk.creates(AUTH_NAME)
    ensures IsExtractable(disk, Entry(AUTH_NAME, data))
  {
    SafeText(AUTH_NAME, 10);
    assert |AUTH_NAME| > 1;
  }

  lemma StoreExtracts(disk: Disk, data: Data)
    requires disk.creates(STORE_NAME)
    ensures IsExtractable(disk, Entry(STORE_NAME, data))
  {
    SafeText(STORE_NAME, 5);
    assert |STORE_NAME| > 1;
  }

  lemma AuditExtracts(disk: Disk, data: Data)
    requires disk.creates(AUDIT_NAME)
    ensures IsExtractable(disk, Entry(AUDIT_NAME, data))
  {
    SafeText(AUDIT_NAME, 5);
    assert |AUDIT_NAME| > 1;
  }

  lemma ConfigExtracts(disk: Disk, data: Data)
    requires disk.creates(CONFIG_NAME)
    ensures IsExtractable(disk, Entry(CONFIG_NAME, data))
  {
    SafeText(CONFIG_NAME, 6);
    assert |CONFIG_NAME| > 1;
  }

  predicate IsWordText(s: string, dot: int) {
    forall i | 0 <= i < |s| && i != dot :: s[i] == '_' || s[i] == '3' || 'a' <= s[i] <= 'z'
  }

  lemma {:induction false} SafeText(s: string, dot: int)
    requires IsWordText(s, dot) && (0 <= dot < |s| ==> s[dot] == '.')
    ensures !IsUnsafe(s)
  {
    if s != [] {
      SafeText(s[1..], dot - 1);
    }
  }

  /** Restoring a freshly created snapshot puts the inputs back, wherever the disk
      allows it. */
  method CreateThenRestore(
    t: Tools, inputs: Inputs, fileName: string, options: Options, innerTime: U64, outerTime: U64, room: Room,
    disk: Disk, target: Folder)
    returns (created: bool)
    requires Faithful(t)
    requires disk.ready && Replaceable(disk, target.files)
    requires disk.creates(AUTH_NAME) && disk.creates(STORE_NAME) && disk.creates(AUDIT_NAME) && disk.creates(CONFIG_NAME)
    modifies target
    ensures created ==> AreReadable(inputs) && AreRestored(inputs, old(target.files), target.files)
    ensures !created ==> target.files == old(target.files)
  {
    var made := CreateSnapshot(t, inputs, fileName, options, innerTime, outerTime, room);
    if made.Err? {
      return false;
    }
    ghost var payloads := [inputs.auth.value, inputs.store.value, inputs.audit.value, inputs.config];
    ghost var entries :| HoldInputs(entries, inputs) && Intact(t, made.value.0, made.value.1, entries, payloads);
    CreatedExtracts(inputs, entries, disk);
    RestoreIntact(t, made.value.0, disk, target, made.value.1, entries, payloads);
    InstalledByName(old(target.files), payloads[0], payloads[1], payloads[2], payloads[3]);
    return true;
  }

  /** Restoring an intact snapshot where the disk allows everything. */
  method RestoreIntact(
    t: Tools, stored: Stored, disk: Disk, target: Folder, ghost sidecar: Sidecar, ghost entries: seq<Entry>,
    ghost payloads: seq<Data>)
    requires |payloads| == 4 && Intact(t, stored, sidecar, entries, payloads)
    requires disk.ready && Extractable(disk, entries) && Replaceable(disk, target.files)
    modifies target
    ensures target.files == Installed(old(target.files), payloads, 4)
  {
    var r := RestoreSnapshot(t, stored, disk, target);
    assert IsOutcome(disk, sidecar, entries, payloads, old(target.files), target.files, r);
  }

  /** Each payload file holds its input, and every other file is as before. */
  ghost predicate AreRestored(inputs: Inputs, before: map<string, Data>, after: map<string, Data>)
    requires AreReadable(inputs)
  {
    && Look(after, "auth_token.bin") == inputs.auth
    && Look(after, "store.sqlite3") == Some(inputs.store.value)
    && Look(after, "audit.ndjson") == inputs.audit
    && Look(after, "config.toml") == Some(inputs.config)
    && forall name | name != "auth_token.bin" && name != "store.sqlite3" && name != "audit.ndjson" && name != "config.toml" ::
         Look(after, name) == Look(before, name)
  }

  lemma CreatedExtracts(inputs: Inputs, entries: seq<Entry>, disk: Disk)
    requires AreReadable(inputs) && HoldInputs(entries, inputs)
    requires disk.creates(AUTH_NAME) && disk.creates(STORE_NAME) && disk.creates(AUDIT_NAME) && disk.creates(CONFIG_NAME)
    ensures Extractable(disk, entries)
  {
    EntriesHoldInputs(inputs, entries[0].data, entries);
    FreshArchiveExtracts(entries[0].data, Payloads(inputs), disk);
  }

  /** Which payload goes into which file. */
  lemma InstalledByName(before: map<string, Data>, auth: Data, store: Data, audit: Data, config: Data)
    ensures var after := Installed(before, [auth, store, audit, config], 4);
            && Look(after, "auth_token.bin") == Some(auth)
            && Look(after, "store.sqlite3") == Some(store)
            && Look(after, "audit.ndjson") == Some(audit)
            && Look(after, "config.toml") == Some(config)
            && forall name | name != "auth_token.bin" && name != "store.sqlite3" && name != "audit.ndjson" && name != "config.toml" ::
                 Look(after, name) == Look(before, name)
  {
    InstalledHas(before, [auth, store, audit, config], 4);
    assert PAYLOAD_NAMES[0] == "auth_token.bin" && PAYLOAD_NAMES[1] == "store.sqlite3";
    assert PAYLOAD_NAMES[2] == "audit.ndjson" && PAYLOAD_NAMES[3] == "config.toml";
  }

  /** An intact snapshot determines what it restores. */
  lemma SamePayloads(
    t: Tools, stored: Stored, s1: Sidecar, e1: seq<Entry>, p1: seq<Data>, s2: Sidecar, e2: seq<Entry>, p2: seq<Data>)
    requires Intact(t, stored, s1, e1, p1) && Intact(t, stored, s2, e2, p2)
    ensures s1 == s2 && e1 == e2 && p1 == p2
  {
    forall k | 0 <= k < 4
      ensures p1[k] == p2[k]
    {
      assert LastNamed(e1, |e1|, PAYLOAD_NAMES[k]) == Some(p1[k]);
    }
  }

  // ----- What the inner digest seals -----

  lemma {:induction false} SameLengthsSamePieces(p: seq<Data>, q: seq<Data>)
    requires |p| == |q| && Joined(p) == Joined(q)
    requires forall k | 0 <= k < |p| :: |p[k]| == |q[k]|
    ensures p == q
  {
    if p != [] {
      var n := |p[0]|;
      assert Joined(p)[..n] == p[0] && Joined(q)[..n] == q[0];
      assert Joined(p)[n..] == Joined(p[1..]) && Joined(q)[n..] == Joined(q[1..]);
      SameLengthsSamePieces(p[1..], q[1..]);
      assert p == [p[0]] + p[1..] && q == [q[0]] + q[1..];
    }
  }

  /** Unless the two joined payloads collide, the recorded digest fixes them, and the
      payloads themselves exactly when their lengths agree as well. */
  lemma DigestFixesPayloads(t: Tools, e1: seq<Entry>, e2: seq<Entry>, m1: Manifest, m2: Manifest, p1: seq<Data>, p2: seq<Data>)
    requires t.sha256(Joined(p1)) == t.sha256(Joined(p2)) ==> Joined(p1) == Joined(p2)
    requires Passes(t, e1, m1, p1) && Passes(t, e2, m2, p2) && m1.sha256 == m2.sha256
    ensures Joined(p1) == Joined(p2)
    ensures p1 == p2 <==> forall k | 0 <= k < 4 :: |p1[k]| == |p2[k]|
  {
    if forall k | 0 <= k < 4 :: |p1[k]| == |p2[k]| {
      SameLengthsSamePieces(p1, p2);
    }
  }

  /** The outer seal does fix the payloads: unless the two archives collide, the same
      recorded seal, read under the same encryption flag, restores the same. */
  lemma SealFixesPayloads(
    t: Tools, a: Stored, b: Stored, s1: Sidecar, e1: seq<Entry>, p1: seq<Data>, s2: Sidecar, e2: seq<Entry>, p2: seq<Data>)
    requires Intact(t, a, s1, e1, p1) && Intact(t, b, s2, e2, p2)
    requires s1.sha3 == s2.sha3 && s1.encrypted == s2.encrypted
    requires t.sha3(a.archive.value) == t.sha3(b.archive.value) ==> a.archive == b.archive
    ensures e1 == e2 && p1 == p2
  {
    assert Unwrapped(t, s1, a.archive.value).value.1 == e1;
    assert Unwrapped(t, s2, b.archive.value).value.1 == e2;
    forall k | 0 <= k < 4
      ensures p1[k] == p2[k]
    {
      assert LastNamed(e1, |e1|, PAYLOAD_NAMES[k]) == Some(p1[k]);
    }
  }

  /** The lengths are not sealed inside: a manifest that passes with some payloads
      also passes with the boundary between the first two moved. */
  lemma BoundaryMayMove(t: Tools, m: Manifest, manifest: Data, a: Data, b: Data, c: Data, d: Data, moved: Data)
    requires |a + moved| < MAX_DATA && |moved + b| < MAX_DATA
    requires Faithful(t) && t.writeManifest(m) == Ok(manifest) && m.sha256 == t.sha256(Joined([a, moved + b, c, d]))
    ensures Passes(t, EntriesFor(manifest, [a, moved + b, c, d]), m, [a, moved + b, c, d])
    ensures Passes(t, EntriesFor(manifest, [a + moved, b, c, d]), m, [a + moved, b, c, d])
  {
    JoinedFour(a, moved + b, c, d);
    JoinedFour(a + moved, b, c, d);
    assert a + (moved + b) == (a + moved) + b;
    FreshArchivePasses(t, m, manifest, [a, moved + b, c, d]);
    FreshArchivePasses(t, m, manifest, [a + moved, b, c, d]);
  }

  lemma JoinedFour(a: Data, b: Data, c: Data, d: Data)
    ensures Joined([a, b, c, d]) == a + b + c + d
  {
    JoinedSnoc([], a);
    JoinedSnoc([a], b);
    JoinedSnoc([a, b], c);
    JoinedSnoc([a, b, c], d);
    assert [] + [a] == [a];
    assert [a] + [b] == [a, b];
    assert [a, b] + [c] == [a, b, c];
    assert [a, b, c] + [d] == [a, b, c, d];
  }
}
