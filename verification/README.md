# A verified model of the pCloud client's core

This project models, in Dafny, the self-contained algorithms and state machines of a
Rust pCloud client, and proves what they promise. One module stands for one part of the
client; `Prelude`, `Text`, `Utf8`, `Decimal` and `Paths` hold shared vocabulary.

| part | modules |
|---|---|
| glob matching of ignore patterns | `Glob`, `GlobLaws`, `IgnorePatterns` |
| path normalisation and resolution through a bounded TTL cache | `PathText`, `PathResolver` |
| sync roots: admission and path status | `SyncRoots` |
| diff polling, dispatch and the persisted cursor, with crashes | `DiffWorker` |
| the upload journal as bytes, with torn writes | `UploadJournal`, `JournalLines`, `JournalJson`, `Utf8` |
| the wire encoder and a decoder for it | `WireEncoding` |
| snapshots: retention, verification, restore | `Retention`, `SnapshotRestore` |
| the buffer of staged writes | `StagingCache` |
| suggestion of sync folders | `ExtensionIds`, `FolderScan`, `FolderVisits`, `ScanOrder`, `Suggestions`, `SuggestionOrder` |
| upload sessions and unique names | `UploadSessions` |
| the local tree walk | `TreeWalk` |
| the auth session, its flows and its refresh | `AuthSession`, `AuthFlows`, `AuthRefresh` |

Objects that the client updates in place are classes whose methods are proved against
functions of their old state; the properties of whole runs are lemmas about those
functions. What such a function means is said once more without its helpers, by
positions, names and literal values: in `GlobLaws`, `JournalLines` and `FolderVisits`,
and in the lemmas whose names end in `Exactly` or `Layout`. Servers, clocks, disks and
libraries are parameters: a server is any function (or any sequence of replies), a clock
reading is an argument, a disk says which of its operations work, and hashing,
compression, encryption and parsing are arbitrary functions with, where a result needs
it, a stated inverse.

## Where the code and its documentation part

The model follows the code. The members named say what holds instead.

- Journal: the module says every append goes through a temporary file and that earlier
  lines are honoured after a partial flush. `append` writes in place, and `replay` fails
  as a whole when a torn write cut a character in two (`CutCharacterLosesReplay`). That
  can happen exactly to entries whose partial digest is not ASCII
  (`DigestThatLosesReplay`, with `AccentLosesReplay` for an input); the hexadecimal
  digests the field is meant for never do it (`AsciiDigestsAlwaysReplay`). An entry that
  lacks only its newline is rejected, and takes the next one with it (`MissingNewline`).
- The two path normalisers agree on an absolute path exactly when it does not end in
  whitespace (`NormalisersAgree`).
- `path_within` puts no path but the root itself inside the root `/`
  (`WithinIsPrefix` states the test exactly).
- An empty sync root is nested with every candidate, and no other relative one is nested
  with any (`RelativeRoots`).
- Extension ids wrap at 32 bits. Classification is by the word an extension is exactly
  unless the word's number wraps to a listed id (`NamesByWord`); six characters never
  wrap, and seven can (`ShortNamesByWord`, `SevenCharactersCollide`).
- A suggested folder may hold slightly less than 80 percent of listed kinds, since the
  threshold is rounded down; `ShareAgrees` says exactly when that matters and
  `LessCanSuffice` gives an input.
- Suggestions are said not to depend on the file system's order. A listing is cut by the
  budget before it is sorted. What a scan sees depends on the order exactly when a listing
  of something that counts is cut (`OrderForgottenExactly`); otherwise the suggestions do
  not either (`StableSuggestsSame`), and it never happens while the entries fit the budget
  (`EnoughIsStable`). `OrderDecidesSuggestion` is a folder that one order suggests and
  another does not.
- A refused upload request is to name the requested state. It does exactly when the
  session is in that state already (`RefusalNamesGoal`).
- The diagram of upload states is not the code's. Five changes are accepted that it does
  not draw: pending to paused, completed and failed, in progress to cancelled, and paused
  to in progress. The arrow it draws from paused to pending is never taken
  (`DiagramDiffers`).
- After a code is softly rejected, a comment says the session stays in
  `TwoFactorRequired`; it is in `AuthenticatingWithPassword` (`SoftFailureCanBeRetried`).
  After a submitted code the session is in that state exactly when the server asks for another one
  (`CodeLeavesFactorRequired`).
- A login that ends in a protocol error has failed the session, with one exception: when
  the user of an accepted token cannot be looked up, the password and code flows leave the
  login under way and keep the previous token, if there was one (`ConcludedErrors`,
  `LookupFailureKeepsToken`). The login with a token fails there too (`TokenLoginFails`).
- The inner digest of a snapshot is taken over the joined payloads, so it does not fix
  their boundaries (`DigestFixesPayloads`, `BoundaryMayMove`); the outer seal does, given
  the encryption flag (`SealFixesPayloads`).
- A restore is documented to write each payload atomically. It removes the old file before
  it moves the new one: a payload is lost exactly when the first file that cannot be
  replaced is there and can be removed (`EachIsAtomicUnlessRemoved`, with `OldPayloadIsLost` for an
  input). `StopLeavesAllExactly` says when a failed restore as a whole changed nothing, and
  `RestoreSnapshot` with `StopIsDetermined` what it leaves otherwise.
- Retention with zero days keeps a daily file exactly when some file is dated in the
  future (`DailyWithoutDays`). An archive that cannot be removed ends the pruning with
  the ones before it gone and not reported (`PruneExecute`).
- The diff worker gives up in its answer, not in its state: the next due tick polls again
  (`Tick`). Its cursor is documented as the last persisted one; it is that exactly when
  the last productive tick of the worker's life was saved or there was none, and ahead of
  it otherwise (`CursorIsSaved`).
- Diff event numbers follow the code's table of 27, not the 26 of its header comment.

## Model

| member | source | states |
|---|---|---|
| Glob.MatchPattern | crates/pcloud-backends/src/ignore_patterns.rs:62-129 | true exactly when the declarative glob read from the pattern accepts the name; at most (name length + 1)(pattern length + 1) turns |
| Glob.TryCharClass | crates/pcloud-backends/src/ignore_patterns.rs:135-168 | whether a class is well formed and where it ends do not depend on the tested byte; membership is that of the class read from the pattern |
| Glob.TryByte | crates/pcloud-backends/src/ignore_patterns.rs:73-113 | one byte of the name against one token: where the pattern continues, or a mismatch; a malformed class is a literal bracket |
| Glob.AcceptsByCutting | crates/pcloud-backends/src/ignore_patterns.rs:62-129 | the matcher's reference meaning: a name is accepted iff it can be cut into pieces, one per token, each fitting its token |
| Glob.StarAbsorbs | crates/pcloud-backends/src/ignore_patterns.rs:115-123 | what an earlier star could still do, the latest star can do as well, so forgetting all but the last is sound |
| Glob.TracksMismatch | crates/pcloud-backends/src/ignore_patterns.rs:115-123 | backtracking to the saved star loses no match, and without a star a mismatch is final |
| Glob.TurnsLeftDrops | crates/pcloud-backends/src/ignore_patterns.rs:73-123 | the measure of star position, name position and pattern position drops on every turn |
| GlobLaws.PlainByte | crates/pcloud-backends/src/ignore_patterns.rs:106-112 | a pattern beginning with any byte but `*`, `?` and `[` takes names beginning with that byte |
| GlobLaws.QuestionMark | crates/pcloud-backends/src/ignore_patterns.rs:83-87 | `?` takes any one byte |
| GlobLaws.Asterisk | crates/pcloud-backends/src/ignore_patterns.rs:77-82 | `*` takes any stretch of the name, the empty one included |
| GlobLaws.OpenBracket | crates/pcloud-backends/src/ignore_patterns.rs:96-104 | `[` takes itself exactly when no class follows: nothing closes it, or nothing stands before the closing bracket |
| GlobLaws.ClassTakes | crates/pcloud-backends/src/ignore_patterns.rs:135-168 | a class before any rest takes one byte: one written in its body, or after `!` or `^` one that is not; members are single bytes and spans `x-y`, read from the left |
| GlobLaws.ClassAlone | crates/pcloud-backends/src/ignore_patterns.rs:135-168 | `[body]` accepts exactly the one-byte names of which some written member holds the byte |
| GlobLaws.NegatedAlone | crates/pcloud-backends/src/ignore_patterns.rs:138-168 | `[!body]` and `[^body]` accept exactly the one-byte names that `[body]` rejects |
| GlobLaws.OneByteClass | crates/pcloud-backends/src/ignore_patterns.rs:153-158 | `[x]` accepts the name `x` only |
| GlobLaws.SpanClass | crates/pcloud-backends/src/ignore_patterns.rs:146-152 | `[lo-hi]` accepts exactly the bytes between its ends, in either order |
| GlobLaws.PlainBody | crates/pcloud-backends/src/ignore_patterns.rs:153-158 | a body without a dash holds the bytes it consists of |
| GlobLaws.PlainPattern | crates/pcloud-backends/src/ignore_patterns.rs:106-112 | a pattern without wildcards accepts exactly the name it spells |
| GlobLaws.StarBetween | crates/pcloud-backends/src/ignore_patterns.rs:77-82 | a star between two plain stretches accepts the names that begin with the one and go on to end with the other |
| IgnorePatterns.IsNameIgnored | crates/pcloud-backends/src/ignore_patterns.rs:192-205 | true exactly when some non-blank entry of the setting matches the lower-cased name |
| IgnorePatterns.SettingsCombine | crates/pcloud-backends/src/ignore_patterns.rs:172-205 | joining two settings with `;` ignores exactly what either ignores |
| IgnorePatterns.CaseDoesNotMatter | crates/pcloud-backends/src/ignore_patterns.rs:192-205 | ASCII case of name and entry changes nothing |
| IgnorePatterns.PlainEntry | crates/pcloud-backends/src/ignore_patterns.rs:192-205 | an entry without wildcards matches exactly the names that spell it, character by character, up to ASCII case |
| IgnorePatterns.OneEntry | crates/pcloud-backends/src/ignore_patterns.rs:192-205 | a setting without `;` is one entry without the whitespace around it; a blank one ignores nothing |
| IgnorePatterns.WithoutBrackets | crates/pcloud-backends/src/ignore_patterns.rs:62-129 | a pattern without `[` means what it means to the matcher without classes |
| PathText.NormalizePath | crates/pcloud-backends/src/path_resolver.rs:533-557 | the streaming normaliser refuses exactly what is not absolute, and otherwise writes the rendered list of non-empty segments |
| PathText.NormalForm | crates/pcloud-backends/src/path_resolver.rs:533-557 | a normalised path is its own normal form, has no empty segment and no trailing slash but the root's, and every such path is one |
| PathText.SegmentsExactly | crates/pcloud-backends/src/path_resolver.rs:533-557 | segments are what stands between slashes: texts without a slash, and the two sides of a slash put together |
| PathText.RenderExactly | crates/pcloud-backends/src/path_resolver.rs:533-557 | the root is one slash, and each further segment stands after one more |
| PathText.SegmentsOfRender | crates/pcloud-backends/src/path_resolver.rs:533-557 | reading the segments of a rendered list gives the list back |
| PathText.RemoteRendersTrimmed | crates/pcloud-backends/src/sync_backend.rs:555-570 | the split/filter/join normaliser renders the segments of the trimmed path |
| PathText.NormalisersAgree | crates/pcloud-backends/src/sync_backend.rs:555-570 | the two normalisers agree on an absolute path iff its last character is not whitespace |
| PathText.SplitParentRejoins | crates/pcloud-backends/src/path_resolver.rs:559-574 | joining the two halves restores every normalised path but the root |
| PathText.SplitParentOf | crates/pcloud-backends/src/path_resolver.rs:559-574 | the halves are the path of all segments but the last, and the last segment |
| PathResolver.ResolvesWhenUnique | crates/pcloud-backends/src/path_resolver.rs:246-294 | a path resolves to an id iff one index of the parent's listing, and only one, has the last segment as its name, is of the expected kind and carries that id |
| PathResolver.NotFoundAndAmbiguousExactly | crates/pcloud-backends/src/path_resolver.rs:251-268 | the last segment is reported missing iff the listing is there and no index has that name; a count is reported iff it is the number of indices with that name, and more than one |
| PathResolver.UnusableExactly | crates/pcloud-backends/src/path_resolver.rs:271-294 | the only entry of that name has no id for its kind, or is of the other kind: each error exactly then |
| PathResolver.RefusedExactly | crates/pcloud-backends/src/path_resolver.rs:576-591 | a refused listing says not found exactly for code 2005, and is handed on otherwise |
| PathResolver.RootExactly | crates/pcloud-backends/src/path_resolver.rs:228-244 | the root is a folder with the listing's own id, and never a file |
| PathResolver.RemotePathResolver.Resolve | crates/pcloud-backends/src/path_resolver.rs:220-295 | the answer is what resolution without a cache gives now, or gave for a listing whose answer was stored less than one TTL before; the cache stays within capacity |
| PathResolver.RemotePathResolver.ResolveAll | crates/pcloud-backends/src/path_resolver.rs:220-295 | over any run of lookups against an unchanging drive every answer, id or typed error, is that of a resolver without a cache |
| PathResolver.RemotePathResolver.CacheLookup | crates/pcloud-backends/src/path_resolver.rs:189-202 | a hit is an unexpired entry for the path; an expired one is dropped |
| PathResolver.RemotePathResolver.CacheStore | crates/pcloud-backends/src/path_resolver.rs:204-218 | stores the entry within capacity, evicting only an entry soonest to expire |
| PathResolver.RemotePathResolver.Fetch | crates/pcloud-backends/src/path_resolver.rs:229-294 | one listing answers the lookup and what it locates is remembered |
| PathResolver.MomentDoesNotMatter | crates/pcloud-backends/src/path_resolver.rs:220-295 | against an unchanging drive the moment of asking does not matter |
| SyncRoots.FilesystemStatus | crates/pcloud-backends/src/path_resolver.rs:452-485 | the verdict is that of a deepest root containing the path, or outside/without sync when there is none |
| SyncRoots.StatusExactly | crates/pcloud-backends/src/path_resolver.rs:472-484 | a root is without sync iff paused, listed as paused or in error; in progress iff queued and none of these; in sync otherwise |
| SyncRoots.OrderDoesNotMatter | crates/pcloud-backends/src/path_resolver.rs:452-485 | for roots with distinct paths the verdict does not depend on their order |
| SyncRoots.WithinIsPrefix | crates/pcloud-backends/src/path_resolver.rs:487-499 | the textual test is component prefix, except that the root directory contains only itself |
| SyncRoots.Classify | crates/pcloud-backends/src/sync_backend.rs:232-287 | accepted exactly when the candidate is a directory colliding with nothing; otherwise the first root, then mount, then ignored folder it collides with decides the error |
| SyncRoots.FreeExactly | crates/pcloud-backends/src/sync_backend.rs:246-275 | for canonical paths, names compared one by one: free iff neither in nor around a root, in no mounted drive and in no ignored folder |
| SyncRoots.IgnoredExactly | crates/pcloud-backends/src/mount_discovery.rs:325-339 | an ignored folder, whatever separators end it, holds itself and what follows it after a slash or a backslash |
| SyncRoots.DotIsSkipped | crates/pcloud-backends/src/sync_backend.rs:246-256 | a name `.` counts for nothing in an absolute path |
| SyncRoots.RelativeRoots | crates/pcloud-backends/src/sync_backend.rs:246-256 | a relative root collides with no candidate, except that the empty one collides with all |
| SyncRoots.PartsOfRender | crates/pcloud-backends/src/sync_backend.rs:246-256 | a printed canonical path is read back as it was |
| SyncRoots.RootsStaySeparate | crates/pcloud-backends/src/sync_backend.rs:246-256 | over every run of admitted adds and removals the roots are pairwise not nested |
| SyncRoots.AtMostOneRoot | crates/pcloud-backends/src/sync_backend.rs:246-256 | at most one of separate roots contains any path |
| DiffWorker.DiffWorker.Tick | crates/pcloud-backends/src/sync_backend.rs:811-884 | one iteration: waits, dispatches in order, advances, then persists; the wait stays within its bound and errors count up to giving up |
| DiffWorker.Dispatcher.DispatchBatch | crates/pcloud-engine/src/diff_events.rs:363-390 | hands over every tagged entry of the batch in order to its family, and counts them |
| DiffWorker.DeliveryStandsAt | crates/pcloud-engine/src/diff_events.rs:363-390 | each tagged entry is handed over behind those of the entries before it |
| DiffWorker.DeliveriesCounted | crates/pcloud-engine/src/diff_events.rs:363-390 | as many deliveries as entries that carry an event number |
| DiffWorker.FamilyExactly | crates/pcloud-engine/src/diff_events.rs:283-312 | 1 to 6 go to the file system, 8 to 25 to shares, 26 to crypto, 7 and 27 to the account, every other number to the handler of unknown ones |
| DiffWorker.KindExactly | crates/pcloud-engine/src/diff_events.rs:239-271 | a number is read as the kind documented for it, and an unknown one is kept |
| DiffWorker.DueExactly | crates/pcloud-backends/src/sync_backend.rs:811-829 | a tick asks the server iff it is the first or the wait since the last attempt is over |
| DiffWorker.AnswerStartsAtCursor | crates/pcloud-backends/src/sync_backend.rs:830-851 | a server answer to a cursor is the stretch of the log right after it, and the new cursor stands at its end |
| DiffWorker.RunExplained | crates/pcloud-backends/src/sync_backend.rs:790-884 | after every run with crashes, restarts and failed saves the deliveries are a chain of log stretches, each life starting at a cursor saved within the life before |
| DiffWorker.NothingSkipped | crates/pcloud-backends/src/sync_backend.rs:790-884 | over every such run no tagged entry before the current cursor is missing from what was delivered |
| DiffWorker.ExactlyOnceWithoutCrash | crates/pcloud-backends/src/sync_backend.rs:811-884 | without a crash the deliveries are the log from the start to the cursor, in order, without gap or repeat |
| DiffWorker.OnlyAfterSaved | crates/pcloud-backends/src/sync_backend.rs:790-884 | what is delivered after a cursor was saved lies after that cursor in the log |
| DiffWorker.CursorIsSaved | crates/pcloud-backends/src/sync_backend.rs:800-884 | over every run the worker's cursor is the saved one iff the last productive tick of this life was saved or there was none; otherwise it is ahead |
| UploadJournal.UploadJournal.Append | crates/pcloud-backends/src/upload_journal.rs:127-143 | adds the entry's line at the end of the file |
| UploadJournal.UploadJournal.RewriteAtomic | crates/pcloud-backends/src/upload_journal.rs:148-167 | replaces the file by the lines of the given entries |
| UploadJournal.UploadJournal.Clear | crates/pcloud-backends/src/upload_journal.rs:171-173 | leaves an empty journal |
| UploadJournal.UploadJournal.Replay | crates/pcloud-backends/src/upload_journal.rs:182-223 | reads the file line by line into entries and rejected lines, as the replay function on its bytes says; a missing file is empty |
| UploadJournal.TornAppend | crates/pcloud-backends/src/upload_journal.rs:127-223 | every truncation of an append to a clean journal replays to the old entries or those and the new one, with at most one rejected line, unless the cut splits a character: then the replay fails |
| UploadJournal.RunReplays | crates/pcloud-backends/src/upload_journal.rs:127-223 | after every run of appends, torn appends, rewrites and clears the replay is what the run means in terms of complete lines |
| UploadJournal.EntriesSurvive | crates/pcloud-backends/src/upload_journal.rs:127-223 | entries on complete lines keep their order and survive every later append and crash until a rewrite or clear |
| UploadJournal.RewriteReplays | crates/pcloud-backends/src/upload_journal.rs:148-223 | replaying after a rewrite gives exactly the entries written |
| JournalLines.LineExactly | crates/pcloud-backends/src/upload_journal.rs:197-221 | one more line of any text in a clean journal: a blank one adds nothing, one that parses its entry, any other one rejected line, with either line ending |
| JournalLines.UnfinishedExactly | crates/pcloud-backends/src/upload_journal.rs:197-208 | a last line without newline is rejected, whatever it holds |
| JournalLines.FailsExactly | crates/pcloud-backends/src/upload_journal.rs:197-200 | the replay of any file fails iff its bytes are not the encoding of some text |
| JournalLines.BlankExactly | crates/pcloud-backends/src/upload_journal.rs:209-211 | a line is blank iff all its characters are White_Space |
| UploadJournal.AsciiAlwaysReadable | crates/pcloud-backends/src/upload_journal.rs:182-223 | when every torn entry was written in ASCII the journal always replays |
| UploadJournal.MissingNewline | crates/pcloud-backends/src/upload_journal.rs:194-207 | an entry complete but for its newline is rejected, and the next one appended is lost with it |
| UploadJournal.CutCharacterLosesReplay | crates/pcloud-backends/src/upload_journal.rs:182-223 | a write torn inside a character makes the whole replay fail, for all entries |
| UploadJournal.LosableExactly | crates/pcloud-backends/src/upload_journal.rs:127-223 | an append to a clean journal can be torn so that the replay fails iff its line is not ASCII |
| JournalJson.JsonIsSound | crates/pcloud-backends/src/upload_journal.rs:53-66 | for every entry of 64-bit numbers and any text, and every JSON parser that reads such entries back, the lines meet all that recovery relies on |
| JournalJson.SomeParserReads | crates/pcloud-backends/src/upload_journal.rs:212-218 | there are such parsers, one of them refusing every number over 64 bits |
| JournalJson.ScanWrite | crates/pcloud-backends/src/upload_journal.rs:127-129 | a written entry has the outline of a JSON object, with its strings escaped |
| JournalJson.JsonExactly | crates/pcloud-backends/src/upload_journal.rs:53-66 | the line in full: four fields in their order under their names, numbers in decimal, the digest quoted or `null` |
| JournalJson.EscapeExactly | crates/pcloud-backends/src/upload_journal.rs:127-129 | a written string, read as RFC 8259 says, is the string |
| JournalJson.PlainStands | crates/pcloud-backends/src/upload_journal.rs:127-129 | text without quotes, backslashes and controls is written as it is |
| Decimal.PrintExactly | crates/pcloud-backends/src/upload_journal.rs:53-66 | a number is printed as the digits that stand for it, without a leading zero |
| JournalJson.NeverJoined | crates/pcloud-backends/src/upload_journal.rs:127-143 | whatever begins with a brace and stands before an entry on its line, the joined line is no JSON object, so every JSON parser rejects it |
| JournalJson.AsciiDigestsAlwaysReplay | crates/pcloud-backends/src/upload_journal.rs:62-66 | with ASCII partial digests, hexadecimal ones among them, every run of the journal replays |
| JournalJson.DigestThatLosesReplay | crates/pcloud-backends/src/upload_journal.rs:127-223 | after any complete entries, an append can be torn so that the replay fails iff its partial digest is not ASCII |
| JournalJson.AccentLosesReplay | crates/pcloud-backends/src/upload_journal.rs:127-223 | one such journal: a complete entry and a torn one with an accented digest |
| JournalJson.WriteInjective | crates/pcloud-backends/src/upload_journal.rs:53-66 | different entries are written differently, whatever characters the partial digest holds |
| Utf8.CutCharacterIsInvalid | crates/pcloud-backends/src/upload_journal.rs:182-223 | text cut inside a character is not valid UTF-8 |
| Utf8.EncodeIsValid | crates/pcloud-backends/src/upload_journal.rs:127-135 | what is written is valid UTF-8 |
| Utf8.ValidExactly | crates/pcloud-backends/src/upload_journal.rs:182-223 | bytes pass iff they are the encoding of some text |
| WireEncoding.EncodeValue | crates/pcloud-backends/src/account_backend.rs:398-427 | appends the value's encoding, refusing exactly the values with a text over 49 bytes |
| WireEncoding.EncodeString | crates/pcloud-backends/src/account_backend.rs:442-453 | appends a text of up to 49 bytes, and refuses a longer one |
| WireEncoding.EncodeHashResponse | crates/pcloud-backends/src/account_backend.rs:389-440 | a frame holding the encoding of the hash, or an error exactly when some text is too long |
| WireEncoding.DecodeEncoded | crates/pcloud-backends/src/account_backend.rs:398-453 | the decoder reads every encoded value back from wherever it stands |
| WireEncoding.DecodedIsEncoded | crates/pcloud-backends/src/account_backend.rs:398-453 | whatever the decoder accepts is the encoding of what it read, so decoding is one to one |
| WireEncoding.DecoderInvertsEncoder | crates/pcloud-backends/src/account_backend.rs:398-453 | a stretch decodes to a value iff it is that value's encoding |
| WireEncoding.PrefixFree | crates/pcloud-backends/src/account_backend.rs:398-453 | no encoding is a prefix of another value's encoding |
| WireEncoding.FramesAreDistinct | crates/pcloud-backends/src/account_backend.rs:389-440 | different values have different frames |
| WireEncoding.HeaderIsLength | crates/pcloud-backends/src/account_backend.rs:436-439 | the four header bytes are the payload length exactly below 2^32 |
| WireEncoding.ScalarLayout | crates/pcloud-backends/src/account_backend.rs:389-408 | the bytes of a boolean and of a number: one byte below twenty, else a marker and eight bytes, the lowest first |
| WireEncoding.TextLayout | crates/pcloud-backends/src/account_backend.rs:442-453 | a text of up to 49 bytes is its length on a base of 100, and its bytes; a longer one cannot be encoded |
| WireEncoding.ArrayLayout | crates/pcloud-backends/src/account_backend.rs:410-416 | an array begins with 17 and ends with 255, with its items between in order |
| WireEncoding.HashLayout | crates/pcloud-backends/src/account_backend.rs:389-427 | a hash begins with 16 and ends with 255, with each key, as a text, before its value |
| WireEncoding.FrameLayout | crates/pcloud-backends/src/account_backend.rs:436-439 | four bytes of length, the lowest first, and the payload |
| WireEncoding.EncodeNumbersResponse | crates/pcloud-backends/src/crypto_backend.rs:105-135 | the flat encoder gives the bytes, and the errors, of the general one on number-only hashes |
| Retention.GfsKeepSet | crates/pcloud-backends/src/snapshot.rs:752-813 | sorted; holds a path exactly when its file is the newest of some day, week or month counted in seconds, the first listed of those equally new; at most max(1, retention days) + 14 of them |
| Retention.Directory.PruneExecute | crates/pcloud-backends/src/snapshot.rs:728-750 | removes exactly the listed archives that are not the newest of a day, week or month, and reports them; an archive that cannot be removed ends it with those before gone and those after in place |
| Retention.SidecarOutcome | crates/pcloud-backends/src/snapshot.rs:740-746 | the sidecar of a listed archive goes with it, unless the archive is kept or the sidecar cannot be removed |
| Retention.PruneOutcome | crates/pcloud-backends/src/snapshot.rs:728-750 | kept and removed archives partition the listing |
| Retention.DailyWithoutDays | crates/pcloud-backends/src/snapshot.rs:770-776 | with no retention days a daily file is kept iff some file is dated in the future |
| Retention.PruningTwice | crates/pcloud-backends/src/snapshot.rs:728-813 | pruning again at the same instant keeps every file that was kept, in whatever order it is listed |
| Retention.BucketExactly | crates/pcloud-backends/src/snapshot.rs:762-790 | day d is the age from d to d + 1 times 86400 seconds, for d below the retention days; eight weeks of seven days and six months of thirty follow; a future date is day 0 |
| Retention.KeptByAge | crates/pcloud-backends/src/snapshot.rs:752-813 | the leader of its bucket is the newest of its day, week or month |
| SnapshotRestore.CollectSlots | crates/pcloud-backends/src/snapshot.rs:330-346 | one pass leaves in each slot the last entry of its name |
| SnapshotRestore.ReadAndVerify | crates/pcloud-backends/src/snapshot.rs:321-368 | succeeds exactly with the manifest and payloads that pass the digest; otherwise reports the first failing check, in order |
| SnapshotRestore.PassesExactly | crates/pcloud-backends/src/snapshot.rs:321-368 | an archive passes with four payloads iff each is the last entry of its own file name, the manifest is read from the last of its, and the digest is that of the four in this order |
| SnapshotRestore.VerifySnapshot | crates/pcloud-backends/src/snapshot.rs:1169-1191 | succeeds exactly on a snapshot intact outside and inside |
| SnapshotRestore.UnsealedExactly | crates/pcloud-backends/src/snapshot.rs:1140-1191 | a stored pair opens iff its sidecar is read with version 1, its seal is that of the archive's bytes, and decryption, decompression and unpacking succeed in turn |
| SnapshotRestore.RefusedAs | crates/pcloud-backends/src/snapshot.rs:1140-1174 | which check refuses a stored pair, in order |
| SnapshotRestore.Extract | crates/pcloud-backends/src/snapshot.rs:1242-1265 | succeeds exactly when every name is safe and can be made, keeping the last entry of each name; otherwise the first bad entry gives the error |
| SnapshotRestore.IssueExactly | crates/pcloud-backends/src/snapshot.rs:1246-1264 | an entry is refused as unsafe iff its name has a separator, a NUL or two dots in a row |
| SnapshotRestore.Folder.Install | crates/pcloud-backends/src/snapshot.rs:1267-1279 | with the payloads staged, installs all four or stops at a disk failure with the first ones in place and the next one untouched or removed |
| SnapshotRestore.InstalledHas | crates/pcloud-backends/src/snapshot.rs:1267-1279 | installing replaces exactly the payload files and touches no other |
| SnapshotRestore.InstalledByName | crates/pcloud-backends/src/snapshot.rs:1267-1279 | which payload goes into which of the four files, and that every other file stays |
| SnapshotRestore.RestoreSnapshot | crates/pcloud-backends/src/snapshot.rs:1210-1281 | a snapshot that is not intact is refused and the target untouched; for one that is, the outcome is determined: a failed extraction leaves the target alone, a disk that lets every file be replaced gets exactly the verified payloads, and any other stops with those before the stuck one in place; the missing-payload error never comes out |
| SnapshotRestore.StopIsDetermined | crates/pcloud-backends/src/snapshot.rs:1267-1279 | where a failed installation stops and what it leaves follow from the disk and the old files |
| SnapshotRestore.EachIsAtomicUnlessRemoved | crates/pcloud-backends/src/snapshot.rs:1193-1195 | after a failed installation every payload file is the old or the new one, iff the stuck file's old one was not removed first |
| SnapshotRestore.StopLeavesAllExactly | crates/pcloud-backends/src/snapshot.rs:1267-1279 | a failed installation leaves the target as it was iff the stuck file's old one stays and the files replaced before it were the same already |
| SnapshotRestore.OldPayloadIsLost | crates/pcloud-backends/src/snapshot.rs:1274-1278 | a disk that removes files and moves none: the old payload is lost |
| SnapshotRestore.CreateSnapshot | crates/pcloud-backends/src/snapshot.rs:1074-1138 | succeeds exactly on a valid level, a fitting suffix, readable inputs, working libraries and a disk that takes both files; each entry of the archive holds the input it is named for, the sidecar describes the archive, and the result is intact |
| SnapshotRestore.ArchiveExactly | crates/pcloud-backends/src/snapshot.rs:1074-1138 | the archive is the manifest and the four inputs under their names, packed, compressed, and encrypted last where there is a recipient |
| SnapshotRestore.SuffixExactly | crates/pcloud-backends/src/snapshot.rs:987-996 | an archive's name ends with `.tar.zst`, or with `.tar.zst.gpg` exactly when it is encrypted |
| SnapshotRestore.CreateThenRestore | crates/pcloud-backends/src/snapshot.rs:1074-1281 | restoring a freshly created snapshot leaves each input in the file of its own name, and every other file as it was |
| SnapshotRestore.FreshArchivePasses | crates/pcloud-backends/src/snapshot.rs:249-292 | the archive written for four payloads passes with exactly them |
| SnapshotRestore.SamePayloads | crates/pcloud-backends/src/snapshot.rs:1210-1281 | an intact snapshot determines what it restores |
| SnapshotRestore.DigestFixesPayloads | crates/pcloud-backends/src/snapshot.rs:356-365 | unless the joined payloads collide the recorded digest fixes them, and the payloads iff their lengths agree |
| SnapshotRestore.SealFixesPayloads | crates/pcloud-backends/src/snapshot.rs:1215-1228 | unless the archives collide, the recorded outer seal and the encryption flag fix the payloads |
| SnapshotRestore.BoundaryMayMove | crates/pcloud-backends/src/snapshot.rs:356-365 | the digest does not fix where one payload ends and the next begins |
| StagingCache.StagingCache.Stage | crates/pcloud-cache/src/staging.rs:52-60 | after any sequence of writes the buffer holds exactly the most recently staged distinct paths within the limit, each with its last bytes, listed once, oldest first |
| StagingCache.StagingCache.EvictIfNeeded | crates/pcloud-cache/src/staging.rs:95-102 | keeps the last paths of the order, with their bytes |
| StagingCache.StagingCache.Get | crates/pcloud-cache/src/staging.rs:74-76 | the bytes of the path's last write, if fewer than the limit of other paths were written after it, and nothing otherwise |
| StagingCache.StagingCache.StagedCount | crates/pcloud-cache/src/staging.rs:91-93 | the number of distinct paths ever staged, or the limit if that is less |
| StagingCache.RecentMeans | crates/pcloud-cache/src/staging.rs:52-102 | a path is resident iff fewer than the limit of other paths were staged after its last write |
| StagingCache.RecentSnoc | crates/pcloud-cache/src/staging.rs:52-60 | a write moves its path to the end, and over the limit the oldest goes |
| ExtensionIds.GetExtId | crates/pcloud-backends/src/sync_suggest.rs:157-168 | the wrapped base-37 number of a word, 0 for anything else |
| ExtensionIds.ShortIdIsValue | crates/pcloud-backends/src/sync_suggest.rs:157-168 | six characters never overflow 32 bits |
| ExtensionIds.ShortIdsAreExact | crates/pcloud-backends/src/sync_suggest.rs:157-168 | ids of short extensions are equal iff the extensions are equal up to case |
| ExtensionIds.SevenCharactersCollide | crates/pcloud-backends/src/sync_suggest.rs:157-168 | with seven characters that fails: a seven-character word has the id of a listed extension |
| ExtensionIds.SameValueSameWord | crates/pcloud-backends/src/sync_suggest.rs:93-168 | before wrapping, equal numbers mean equal words up to case at any length |
| ExtensionIds.TableAscends | crates/pcloud-backends/src/sync_suggest.rs:125-140 | the id table is strictly ascending |
| ExtensionIds.KindOfId | crates/pcloud-backends/src/sync_suggest.rs:172-180 | binary search classifies as a walk through the table does |
| ExtensionIds.NamesByWord | crates/pcloud-backends/src/sync_suggest.rs:157-189 | a file is classified by the word its extension is iff that is no word, its number fits 32 bits, or it wraps to an id that is not listed |
| ExtensionIds.KindIsByWord | crates/pcloud-backends/src/sync_suggest.rs:172-180 | the same for every ascending table with ids below 2^32 and no listed kind of other files |
| ExtensionIds.ShortNamesByWord | crates/pcloud-backends/src/sync_suggest.rs:157-189 | up to six characters the classification is by word, in either case |
| ExtensionIds.TableKinds | crates/pcloud-backends/src/sync_suggest.rs:145-152 | every listed kind is one of pictures, videos, music and documents |
| ExtensionIds.GetFileType | crates/pcloud-backends/src/sync_suggest.rs:184-189 | the kind of what follows the last dot |
| ExtensionIds.ExtensionIs | crates/pcloud-backends/src/sync_suggest.rs:184-189 | the extension is what follows the last dot, absent iff there is no dot |
| ExtensionIds.KnownKinds | crates/pcloud-backends/src/sync_suggest.rs:125-189 | whatever stands before the last dot, one known extension of each kind, in either case |
| ExtensionIds.ExtensionOf | crates/pcloud-backends/src/sync_suggest.rs:184-189 | a text without a dot, behind a dot, is the extension |
| FolderScan.ScanRecursive | crates/pcloud-backends/src/sync_suggest.rs:219-264 | computes the exact counts: with a budget below 2^32 no counter ever saturates |
| FolderScan.ReadEntries | crates/pcloud-backends/src/sync_suggest.rs:226-238 | reads entries until the budget is spent, one unit each, and sorts those with a known type |
| FolderScan.ScanBudget.Tick | crates/pcloud-backends/src/sync_suggest.rs:210-216 | takes a unit exactly when the budget is not spent |
| FolderScan.ScanCountsVisited | crates/pcloud-backends/src/sync_suggest.rs:219-264 | the counts are those of the files visited, kind by kind, and every visited file used up budget |
| FolderScan.VisitedAreFiles | crates/pcloud-backends/src/sync_suggest.rs:219-264 | every visited path leads to a regular file below the root, at most sixteen names deep, through readable folders, no name beginning with a dot |
| FolderVisits.VisitedExactly | crates/pcloud-backends/src/sync_suggest.rs:219-264 | with enough budget these are exactly the paths visited |
| FolderVisits.VisitedOnce | crates/pcloud-backends/src/sync_suggest.rs:219-264 | no file is visited twice |
| FolderVisits.CountsExactly | crates/pcloud-backends/src/sync_suggest.rs:219-264 | with enough budget each counter is the number of reachable files in its bucket |
| FolderVisits.BucketIsKind | crates/pcloud-backends/src/sync_suggest.rs:255-260 | a file is counted for the kind its name has |
| FolderVisits.EntriesExactly | crates/pcloud-backends/src/sync_suggest.rs:226-238 | of a listing as many entries as the budget allows are taken, without those of unreadable type, in ascending order of names |
| FolderVisits.FoldersAreNodes | crates/pcloud-backends/src/sync_suggest.rs:245-254 | with enough budget every folder the scan can reach has its node in the tree |
| FolderVisits.NodesAreFolders | crates/pcloud-backends/src/sync_suggest.rs:245-254 | every node of the tree is that of a folder the scan can reach |
| FolderScan.ScanIsFull | crates/pcloud-backends/src/sync_suggest.rs:219-264 | no scan counts more than the tree holds within the depth limit; with enough budget it counts all of it |
| ScanOrder.OrderForgottenExactly | crates/pcloud-backends/src/sync_suggest.rs:219-264 | a scan gives the same node, visits the same files and leaves the same budget in every order of listing, iff no listing of anything that counts is cut short by the budget left for it after something of it was read |
| ScanOrder.UnstableDepends | crates/pcloud-backends/src/sync_suggest.rs:226-238 | for every other tree and budget, an order in which the scan sees something else |
| ScanOrder.EnoughIsStable | crates/pcloud-backends/src/sync_suggest.rs:219-264 | a budget for all the entries of the tree is always enough for that |
| SuggestionOrder.StableSuggestsSame | crates/pcloud-backends/src/sync_suggest.rs:345-365 | while no listing of anything that counts is cut short the folders suggested are the same in every order |
| SuggestionOrder.OrderDecidesSuggestion | crates/pcloud-backends/src/sync_suggest.rs:345-365 | with the real budget: 25 songs and one entry too many, the folder is suggested with all songs listed first and not with one listed last |
| FolderScan.ScanIsSound | crates/pcloud-backends/src/sync_suggest.rs:219-264 | children lie below their parent in different places and are counted in it |
| Suggestions.CollectSuggestions | crates/pcloud-backends/src/sync_suggest.rs:277-288 | appends the topmost qualifying folders in walking order |
| Suggestions.NonOtherSum | crates/pcloud-backends/src/sync_suggest.rs:266-272 | the saturating sum of the four kinds |
| Suggestions.PassesMeans | crates/pcloud-backends/src/sync_suggest.rs:277-281 | on counts a scan can reach: 25 files that are not other, and 80 times all files is less than 100 times one more than these |
| Suggestions.ShareAgrees | crates/pcloud-backends/src/sync_suggest.rs:277-281 | with enough files the test is that of 80 percent, except when the share falls short by less than one file |
| Suggestions.LessCanSuffice | crates/pcloud-backends/src/sync_suggest.rs:279-280 | the share is rounded down: 25 of 32 files pass |
| Suggestions.SuggestedQualify | crates/pcloud-backends/src/sync_suggest.rs:277-288 | every suggestion qualifies and lies in the tree |
| Suggestions.QualifyingAreCovered | crates/pcloud-backends/src/sync_suggest.rs:277-288 | every qualifying folder lies at or below a suggestion |
| Suggestions.SuggestedAreApart | crates/pcloud-backends/src/sync_suggest.rs:277-288 | no two suggestions are nested |
| Suggestions.SuggestedFitInRoot | crates/pcloud-backends/src/sync_suggest.rs:277-288 | the suggestions' file counts add up to at most the root's |
| Suggestions.ScanFolderWithLimit | crates/pcloud-backends/src/sync_suggest.rs:345-365 | at most max(1, limit) suggestions; their file counts do not increase, and equal counts stand in the order of paths, by prefix or the first character that differs; every one left out has no more files than every one shown |
| Suggestions.RanksExactly | crates/pcloud-backends/src/sync_suggest.rs:355-359 | which of two suggestions comes first, by counts and characters |
| Paths.TextOrder | crates/pcloud-backends/src/sync_suggest.rs:355-359 | the order of texts: one begins the other, or the first characters that differ decide |
| UploadSessions.TargetsAreEdges | crates/pcloud-backends/src/upload_sessions.rs:299-381 | the accepted changes of state are exactly these: nothing leaves a terminal state or returns to pending, and a paused upload does not complete |
| UploadSessions.AcceptedExactly | crates/pcloud-backends/src/upload_sessions.rs:299-381 | from which states each request is accepted; a refusal tells the state |
| UploadSessions.DiagramDiffers | crates/pcloud-backends/src/upload_sessions.rs:29-47 | which accepted changes the documented diagram does not draw, and that of the drawn ones only the way from paused back to pending is never taken |
| UploadSessions.SessionRegistry.Create | crates/pcloud-backends/src/upload_sessions.rs:252-283 | a fresh id and a pending session, every other session unchanged; ids stay unique for the first 2^64 - 1 sessions |
| UploadSessions.SessionRegistry.Transition | crates/pcloud-backends/src/upload_sessions.rs:396-420 | an accepted change of state is logged, everything else leaves the registry as it was, and every log stays one walk along the edges |
| UploadSessions.SessionRegistry.RecordProgress | crates/pcloud-backends/src/upload_sessions.rs:385-394 | progress never exceeds the length; no state refuses it |
| UploadSessions.WalkEnds | crates/pcloud-backends/src/upload_sessions.rs:396-420 | a log is pending only at its start and terminal only at its end |
| UploadSessions.TerminalIsFinal | crates/pcloud-backends/src/upload_sessions.rs:299-381 | whatever is requested, the first terminal state reached is the outcome |
| UploadSessions.CompletedFrom | crates/pcloud-backends/src/upload_sessions.rs:355-363 | a completed upload was completed out of pending or in progress |
| UploadSessions.RefusalNamesGoal | crates/pcloud-backends/src/upload_sessions.rs:299-407 | an accepted request leads to its goal; a refusal names the requested state exactly for resuming what is in progress, completing what is complete and failing what has failed, and a wrong one otherwise |
| UploadSessions.PickUniqueName | crates/pcloud-backends/src/upload_sessions.rs:444-469 | the name if free, else the free numbered name with the smallest number, at most one above the number of existing names; free for fewer than 2^64 - 2 names |
| UploadSessions.TakenCount | crates/pcloud-backends/src/upload_sessions.rs:459-465 | numbers that are all taken are no more than the names that exist |
| UploadSessions.BoundIsMet | crates/pcloud-backends/src/upload_sessions.rs:459-465 | the bound on the number is attained |
| UploadSessions.NumberedInjective | crates/pcloud-backends/src/upload_sessions.rs:460-461 | different numbers make different names |
| UploadSessions.NumberedExactly | crates/pcloud-backends/src/upload_sessions.rs:454-461 | the number stands in brackets before the last dot, or at the end of a name without one |
| UploadSessions.SplitsAtLastDot | crates/pcloud-backends/src/upload_sessions.rs:454-457 | the name is split at its last dot |
| TreeWalk.WalkLocalTree | crates/pcloud-backends/src/folder_backend.rs:826-868 | the sorted list of exactly the regular files below the directory, once each; a file itself; nothing for other entries |
| TreeWalk.WalkDirectory | crates/pcloud-backends/src/folder_backend.rs:843-865 | the explicit stack finds what the recursive definition finds |
| TreeWalk.FilesInAre | crates/pcloud-backends/src/folder_backend.rs:826-868 | the recursive definition has each file the names can lead to exactly once |
| Paths.PathOrder | crates/pcloud-backends/src/folder_backend.rs:867 | the order of paths: one begins the other, or the first components that differ decide |
| TreeWalk.OrderDoesNotMatter | crates/pcloud-backends/src/folder_backend.rs:826-868 | walks of one tree give the same list, in whatever order each of its directories is listed each time |
| TreeWalk.ReorderedLeads | crates/pcloud-backends/src/folder_backend.rs:826-868 | reordering the listings of a tree changes no path that leads to a file |
| AuthSession.SessionManager.Apply | crates/pcloud-auth/src/manager.rs:258-340 | each command's effect and answer; a sound session stays sound |
| AuthSession.SessionManager.RecordRefresh | crates/pcloud-auth/src/manager.rs:182-198 | new token and timers when authenticated, else refused without change |
| AuthSession.SessionManager.UpdateUserinfo | crates/pcloud-auth/src/manager.rs:217-232 | new user data when authenticated, else refused without change |
| AuthSession.SessionManager.ReplaceAuthToken | crates/pcloud-auth/src/manager.rs:237-248 | new token when authenticated, else refused without change |
| AuthSession.SessionManager.IssueTwoFactorChallenge | crates/pcloud-auth/src/manager.rs:344-356 | the session requires the second factor and holds the challenge |
| AuthSession.SessionManager.Revoke | crates/pcloud-auth/src/manager.rs:202-212 | nothing is left of the session |
| AuthSession.CommandsKeepSound | crates/pcloud-auth/src/manager.rs:258-340 | every command keeps the session sound, and a refused one changes nothing |
| AuthSession.CommandAuthenticates | crates/pcloud-auth/src/manager.rs:291-309 | exactly the mark, out of a login under way, authenticates |
| AuthSession.CredentialsExactly | crates/pcloud-auth/src/manager.rs:258-340 | token, user, address and timing after every command: only signing in brings, only the end of a session takes away |
| AuthSession.ChallengeExactly | crates/pcloud-auth/src/manager.rs:258-340 | open challenge and last error after every command |
| AuthSession.StateExactly | crates/pcloud-auth/src/manager.rs:258-340 | the state after every command, and exactly which commands are refused |
| AuthSession.RecordExactly | crates/pcloud-auth/src/manager.rs:182-198 | a recorded refresh starts the timing anew with the policy's whole seconds and keeps whether credentials are retained |
| AuthSession.UpdatesExactly | crates/pcloud-auth/src/manager.rs:217-248 | an unknown user leaves the known one, an unknown address does not; a new token changes nothing else |
| AuthFlows.ProtocolAuthFlow.LoginWithToken | crates/pcloud-auth/src/orchestrator.rs:188-213 | revalidates a token: authenticated with it, or failed |
| AuthFlows.ProtocolAuthFlow.LoginWithPassword | crates/pcloud-auth/src/orchestrator.rs:219-265 | a password login for every server reply |
| AuthFlows.ProtocolAuthFlow.SubmitCode | crates/pcloud-auth/src/orchestrator.rs:324-395 | a submitted code for every server reply; a soft rejection keeps the challenge |
| AuthFlows.ProtocolAuthFlow.SubmitCodeWithPassword | crates/pcloud-auth/src/orchestrator.rs:400-454 | password and code in one request, for every server reply |
| AuthFlows.ProtocolAuthFlow.RefreshToken | crates/pcloud-auth/src/orchestrator.rs:482-511 | a new token, a revoked session, or no change, by the server's reply |
| AuthFlows.PasswordLoginExactly | crates/pcloud-auth/src/orchestrator.rs:219-265 | how a password login ends for each reply, field by field: the user is the look-up's, or else the reply's |
| AuthFlows.CodeSubmissionExactly | crates/pcloud-auth/src/orchestrator.rs:324-395 | how a submitted code ends for each reply, field by field; the server is told the open challenge |
| AuthFlows.CodeWithPasswordExactly | crates/pcloud-auth/src/orchestrator.rs:400-454 | how a login with password and code ends for each reply, field by field |
| AuthFlows.TokenLoginExactly | crates/pcloud-auth/src/orchestrator.rs:188-213 | how a login with a token ends, field by field |
| AuthFlows.TokenRefreshExactly | crates/pcloud-auth/src/orchestrator.rs:482-511 | how a refresh of the token ends, field by field |
| AuthFlows.RunIsSound | crates/pcloud-auth/src/orchestrator.rs:188-511 | over every interleaving of commands, flows with arbitrary replies and refreshes: authenticated means a token and no challenge, a required factor means a challenge, logged out or failed means no token, user, email or challenge |
| AuthFlows.TokenHasOrigin | crates/pcloud-auth/src/orchestrator.rs:188-511 | a token held was brought by an earlier action, by a flow only when the server vouched for it, and the session was not logged out or failed since |
| AuthFlows.StepToken | crates/pcloud-auth/src/orchestrator.rs:188-511 | a session becomes authenticated only with a token the step brings |
| AuthFlows.ReportsAreTrue | crates/pcloud-auth/src/orchestrator.rs:188-511 | success is reported only by, and by every, step that signs the session in |
| AuthFlows.SoftFailureCanBeRetried | crates/pcloud-auth/src/orchestrator.rs:378-392 | after a soft rejection the same challenge can be answered again; the state in between is that of a password login under way |
| AuthFlows.CodeLeavesFactorRequired | crates/pcloud-auth/src/orchestrator.rs:324-395 | a submitted code leaves the factor required iff the server asks for another one |
| AuthFlows.ConcludedErrors | crates/pcloud-auth/src/orchestrator.rs:219-454 | every login flow that ends in an error has failed the session, or stands where it stood when the server was asked, because the accepted token's user could not be looked up |
| AuthFlows.LookupFailureKeepsToken | crates/pcloud-auth/src/orchestrator.rs:219-454 | for the password flow and both code flows: a failed look-up leaves the login under way, with the token held before and, for the code flows, the challenge |
| AuthFlows.TokenLoginFails | crates/pcloud-auth/src/orchestrator.rs:188-213 | the login with a token ends in an error exactly when the look-up fails, and then fails the session |
| AuthRefresh.RefreshCoordinator.Evaluate | crates/pcloud-auth/src/refresh.rs:88-103 | the timing decision for the session |
| AuthRefresh.DecisionExactly | crates/pcloud-auth/src/lifecycle.rs:119-192 | each decision iff its moment has come: expired before idle, idle before due; due from the last whole second of the share of the lifetime |
| AuthRefresh.RefreshCoordinator.RunRefresh | crates/pcloud-auth/src/refresh.rs:111-133 | every way out, a panic of the caller's function included, leaves the guard as found; while another refresh runs nothing happens |
| AuthRefresh.RefreshCoordinator.HandleAuthExpired | crates/pcloud-auth/src/refresh.rs:140-161 | one more attempt with retained credentials, or the session is revoked |
| AuthRefresh.RefreshRenews | crates/pcloud-auth/src/refresh.rs:111-133 | when a refresh succeeds, what it renews, and when the renewed session is healthy; otherwise nothing changes |
| AuthRefresh.ExpiryEnds | crates/pcloud-auth/src/refresh.rs:140-161 | the session ends exactly without retained credentials or without a function to use them |
| AuthRefresh.DecisionsAreMonotone | crates/pcloud-auth/src/refresh.rs:88-103 | left alone a session only gets worse |
| AuthRefresh.RefreshWindow | crates/pcloud-auth/src/lifecycle.rs:109-192 | after a refresh: healthy up to the threshold, due up to the lifetime's end, then expired |
| AuthRefresh.Sanitized | crates/pcloud-auth/src/lifecycle.rs:109-117 | exactly a threshold outside 0 to 1 and a lifetime of zero are replaced, by 0.8 and an hour; a lifetime under one second is kept and counts as none |
| AuthRefresh.RefreshGuard.TryBegin | crates/pcloud-auth/src/lifecycle.rs:251-261 | the slot is taken by exactly one caller while it is free |
| AuthRefresh.AtMostOneTicket | crates/pcloud-auth/src/lifecycle.rs:234-288 | over every interleaving the slot is taken iff some caller holds the ticket, and never two do |
| AuthRefresh.MoveKeepsOne | crates/pcloud-auth/src/lifecycle.rs:251-288 | a caller gets the ticket exactly when nobody holds it, and any way out frees it |

## Left out

- Transports, TLS, HTTP download, development mock replies, and the API wrappers for
  shares, public links, notifications and accounts: plumbing around the parts modelled.
- SQLite, tar, zstd, gpg and serde: arbitrary functions here, which may fail. The JSON
  parser is any that reads entries back and takes a line beginning with a brace only if
  it is a JSON object.
- SnapshotRestore.CreateSnapshot: what a failed creation leaves at the two paths is not modelled.
- SuggestionOrder.StableSuggestsSame: sufficient, not necessary: a scan that sees other
  files in another order may still suggest the same folders.
- The older encrypted snapshot pipeline (`create_encrypted_snapshot` and its verify and
  restore) and `verify_unencrypted_snapshot_with_schema`: the same steps, and one comparison.
- The chunked upload driver: the loop that drives it is not part of this model.
- Backoff waits of the retry policy: a parameter of at most 60 seconds, with its limit of six attempts.
- Path names that are not valid Unicode, symbolic links inside canonical paths and
  case-insensitive file systems.
- File modes, fsync, secret zeroisation, redaction and mutex poisoning: not functional behaviour.
- File system trees are fixed during a scan or a walk, and list no name twice in a directory.
- Floating point in the refresh threshold: a real number between 0 and 1; a threshold that
  is not a number is not modelled.
- `build_description` of a suggestion, `check_and_create_folder`, the region resolver, the
  backup cascade and mount discovery: they would only add easy members.
- The SHA-256 fingerprint of the token in cache keys: a constant of the resolver.
- UploadJournal.UploadJournal.Append: the interrupted write is an event of a run, not of this method.
- AuthRefresh.RefreshCoordinator.RunRefresh: the caller's function is represented by its reply.
- StagingCache.StagingCache.Stage: changing the public limit between writes is not modelled.
- UploadSessions.SessionRegistry.Transition: the log keeps states rather than their labels.
