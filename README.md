# fontorrent core in Dafny

fontorrent is a browser BitTorrent client built on WebTorrent. This project
models its core in Dafny and proves properties of that model:

- the `TorrentManager` service, which covers:
  - its tracker list: the WebRTC defaults, sanitising, persisting to and reloading from storage, and merging into each torrent's announce list;
  - the registry of torrents by info hash;
  - collecting peers from the wires;
  - turning torrents into the records the interface shows;
  - removing torrents;
  - exporting a torrent's files into a folder the user picks, with its progress reports;
- three interface helpers:
  - the tracker settings panel's text-to-list parsing;
  - the peer list's de-duplication by peer id;
  - the torrent list's `HH:MM:SS` remaining-time label;
- the browser polyfills the client is bundled with:
  - `path`, `events`, the `Buffer` replacement, the two `crypto` mocks and `util`;
  - the mock DHT and tracker discovery objects.

## Organisation

One module per source file or component:

| module | models |
|---|---|
| `Manager` | the `TorrentManager` class |
| `Trackers` | its tracker-list logic |
| `FolderExport` | its `saveTorrentToFolder` pipeline |
| `Engine` | the engine's torrent objects and `client.get` |
| `TorrentTypes` | the records shown in the interface |
| `TrackersSettings`, `PeerList`, `TorrentList` | the three components |
| `PathPolyfill`, `Events`, `Buffers`, `Crypto`, `CryptoBrowserify`, `Util`, `BittorrentDht`, `TorrentDiscovery` | the polyfills |
| `MockEmitter` | the event emitter that the DHT and discovery mocks share |
| `Text`, `Lists`, `Dedup`, `Wrappers` | the JavaScript built-ins the code relies on (`trim`, `split`, `join`, `padStart`, `toString(16)`, `map`, `filter`, first-occurrence de-duplication) and the `Option`/`Result` types |

The modelling follows the code's own form:

- Objects whose fields the code updates in place are classes:
  - the manager;
  - engine torrents, whose `announce` is overwritten;
  - the event emitters;
  - hashes, signers and verifiers;
  - the DHT client and the discovery object;
  - the deprecation wrapper.
- Their methods are proved against state functions (`State()`, `Valid()`).
- Loops become methods with invariants, each proved equal to a recursive specification function:
  - the announce update;
  - the export's directory walk, stream loop and file loop;
  - the buffer copy in `concat`;
  - the `util.format` replacement.

Host facilities are parameters:

- Stored data is a value `Stored`: nothing stored, text that does not parse, a value that is not an array, or an array of items.
- The directory the picker grants is a value map from paths to entries.
- A file's content is an oracle: a blob, a stream of chunks, an unreadable object, or a failing writable.
- Random peer ids and addresses are functions of the wire's position.
- Whether a listener throws is a predicate.
- `String()`, `Number()` and `JSON.stringify` are a host function.

## Model

| member | source | states |
|---|---|---|
| Trackers.SanitizeValid | src/services/torrentManager.ts:78-82 | the sanitised list holds only trimmed `ws://`/`wss://` URLs, each once |
| Trackers.SanitizeMembers | src/services/torrentManager.ts:78-82 | a URL is kept exactly when it is a WebSocket URL and some input entry trims to it |
| Trackers.SanitizeOrder | src/services/torrentManager.ts:81 | kept URLs appear in the order of their first occurrence in the input |
| Trackers.SanitizeOfSanitized | src/services/torrentManager.ts:78-82 | an already sanitised list is returned unchanged |
| Trackers.SanitizeIdempotent | src/services/torrentManager.ts:78-82 | sanitising twice equals sanitising once |
| Trackers.WssUrl | src/services/torrentManager.ts:14-19 | a `wss://` URL ending in a lower-case letter is a trimmed WebSocket URL, so the filter keeps it as it is |
| Trackers.DefaultsSanitized | src/services/torrentManager.ts:14-19 | the built-in WebRTC tracker list is already sanitised |
| Trackers.SanitizeMerge | src/services/torrentManager.ts:268-270 | merging the sanitised trackers in front of an announce list keeps the trackers intact at the front and holds exactly the trackers and the announce list's own sanitised URLs |
| Trackers.SanitizeKeepsBothSchemes | src/services/torrentManager.ts:79 | both `ws://host` and `wss://host` survive: the filter does not prefer the secure scheme |
| Trackers.DedupRepeat | src/services/torrentManager.ts:81 | a repeated URL keeps only its first position |
| Trackers.PersistedStrings | src/services/torrentManager.ts:69-75 | persisting a list stores an array whose items are exactly that list's strings |
| Trackers.LoadPersisted | src/services/torrentManager.ts:53-75 | loading a persisted sanitised list gives it back |
| Trackers.LoadTrackersSanitized | src/services/torrentManager.ts:53-66 | whatever is stored, the loaded list is sanitised |
| Trackers.LoadTrackersSources | src/services/torrentManager.ts:53-66 | every loaded URL is a default or the trimmed text of a stored string; from an array of strings, only trimmed stored WebSocket URLs are loaded |
| Trackers.LoadTrackersMayBeEmpty | src/services/torrentManager.ts:56-59 | a stored array with no WebSocket URL loads as the empty list, not the defaults |
| Trackers.LoadTrackersNonString | src/services/torrentManager.ts:57-65 | a non-string item anywhere in the stored array makes loading fall back to the defaults, whatever the other items are |
| Engine.Torrent.constructor | src/services/torrentManager.ts:212-233 | a fresh engine torrent has the given hash, name, files and announce list, no wires and no pending metadata wait |
| Engine.EngineGet | src/services/torrentManager.ts:296 | `client.get` finds a torrent exactly when the key is non-empty and some torrent has that exact info hash, and returns that torrent |
| Manager.WithoutMembers | src/services/torrentManager.ts:304 | removal from the engine drops exactly that torrent |
| Manager.PeerOfShape | src/services/torrentManager.ts:190-196 | a wire's peer uses the wire's id, address and type when present, otherwise the fallbacks |
| Manager.AllWiresAppend | src/services/torrentManager.ts:185-202 | the wires of two torrent lists are the wires of each, in order |
| Manager.TorrentWires | src/services/torrentManager.ts:187-201 | a torrent without a wires list contributes nothing; one with wires contributes all of them, in place |
| Manager.PeersSnoc | src/services/torrentManager.ts:190-197 | each wire adds exactly one peer, at the end |
| Manager.FileInfoOf | src/services/torrentManager.ts:217-222 | a file record copies the file's name, length (a number or not) and downloaded count |
| Manager.TorrentToInfo | src/services/torrentManager.ts:212-234 | the record keeps the info hash and one file record per file, in order; its name is never empty and is the torrent's own when it has one |
| Manager.Infos | src/services/torrentManager.ts:174-178 | one record per engine torrent, in order, each the torrent's `torrentToInfo`, so with its hash and (when it has one) its name |
| Manager.FindLower | src/services/torrentManager.ts:365 | a torrent found ignoring case is an engine torrent whose lower-cased hash equals the lower-cased key |
| Manager.FindLowerFinds | src/services/torrentManager.ts:365 | such a torrent is found whenever one exists |
| Manager.FirstWithFiles | src/services/torrentManager.ts:366 | the fallback choice is an engine torrent with at least one file |
| Manager.FirstWithFilesFinds | src/services/torrentManager.ts:366 | it is found whenever one exists |
| Manager.ResolveChooses | src/services/torrentManager.ts:363-369 | the export picks some torrent exactly when the engine has one, and picks an engine torrent |
| Manager.ResolveExact | src/services/torrentManager.ts:363-364 | when some torrent's info hash is the key, a torrent with that info hash is chosen |
| Manager.ResolveIgnoringCase | src/services/torrentManager.ts:365 | otherwise a torrent whose hash matches ignoring case is chosen |
| Manager.ResolveFallback | src/services/torrentManager.ts:366-367 | otherwise the first torrent with files, otherwise the first torrent |
| Manager.UpdateAnnounces | src/services/torrentManager.ts:566-572 | every torrent's announce list becomes the merge of the new list with its old one; every other field of the torrents (hash, name, length, files, wires, magnet URI, peer count, byte counts, done flag, metadata wait) keeps its value |
| Manager.RegistryKept | src/services/torrentManager.ts:11 | the registry invariant survives a step that changes only announce lists |
| Manager.ExportOf | src/services/torrentManager.ts:363-369 | with no torrent to export the result is `false` with no progress report and no change to the folder |
| Manager.ExportTorrent | src/services/torrentManager.ts:363-369 | the export of a chosen torrent is the folder export of its files |
| Manager.TorrentManager.constructor | src/services/torrentManager.ts:22-24 | the tracker list starts as what storage loads to (so sanitised); no torrents, empty registry |
| Manager.TorrentManager.GetTrackers | src/services/torrentManager.ts:555-557 | returns the current list, which is sanitised |
| Manager.TorrentManager.SetCustomTrackers | src/services/torrentManager.ts:559-573 | an input that sanitises to nothing changes nothing; otherwise the sanitised list becomes current, is persisted when the write succeeds (storage unchanged when it fails) and is merged into every torrent's announce list |
| Manager.TorrentManager.UseTrackers | src/services/torrentManager.ts:562-572 | a non-empty sanitised list is installed, persisted when the write succeeds, and merged |
| Manager.TorrentManager.PersistTrackers | src/services/torrentManager.ts:69-75 | the list becomes current; a successful write stores exactly it, so that loading gives it back; a failed write is swallowed and leaves storage as it was |
| Manager.TorrentManager.MergeAnnounces | src/services/torrentManager.ts:566-572 | every engine torrent's announce list becomes the merge of the current trackers with its old list; every other field keeps its value |
| Manager.TorrentManager.Register | src/services/torrentManager.ts:92-97 | a torrent with an info hash is registered under it; without one the registry is unchanged and a metadata wait is armed; no other field of the torrent changes |
| Manager.TorrentManager.OnTorrent | src/services/torrentManager.ts:89-100 | the engine's new torrent is appended and registered as above; no other field of the torrent changes |
| Manager.TorrentManager.OnAdded | src/services/torrentManager.ts:253-273 | the added torrent is registered and its announce list is re-sanitised with the current trackers in front; its other fields keep their values |
| Manager.TorrentManager.OnMetadata | src/services/torrentManager.ts:95-96 | when the metadata arrives the torrent is registered under its new hash, once; its other fields, announce list included, keep their values |
| Manager.TorrentManager.RemoveTorrent | src/services/torrentManager.ts:295-320 | an unknown hash changes nothing; a known one is removed from the engine and from the registry |
| Manager.TorrentManager.UpdatePeers | src/services/torrentManager.ts:181-206 | the reported peers are one per wire over all torrents, in order |
| Manager.TorrentManager.SaveTorrentToFolder | src/services/torrentManager.ts:350-369 | the outcome is the export of the torrent the lookup chain resolves to |
| FolderExport.NonEmptyMembers | src/services/torrentManager.ts:453 | `filter(Boolean)` keeps exactly the non-empty segments |
| FolderExport.MakeDirsOk | src/services/torrentManager.ts:455-458 | creating the directories fails exactly when some prefix is already a file |
| FolderExport.MakeDirsKeeps | src/services/torrentManager.ts:455-458 | existing entries are never removed or changed |
| FolderExport.MakeDirsAdds | src/services/torrentManager.ts:455-458 | only prefixes of the path are added, and they are added as directories |
| FolderExport.MakeDirsPath | src/services/torrentManager.ts:455-458 | on success every prefix of the path is a directory |
| FolderExport.EnsurePathSteps | src/services/torrentManager.ts:452-462 | the directory walk computes what `EnsurePath` specifies |
| FolderExport.EnsurePathNoSegments | src/services/torrentManager.ts:459 | a path with a `/` but no segments names no file |
| FolderExport.SegmentsOfName | src/services/torrentManager.ts:453 | a plain file name is its own single segment |
| FolderExport.EnsurePathIdempotent | src/services/torrentManager.ts:457-460 | ensuring the same path twice changes nothing the second time |
| FolderExport.SumPrefix | src/services/torrentManager.ts:442 | the running total grows by each file's length |
| FolderExport.Percent | src/services/torrentManager.ts:446 | a progress percentage never exceeds 100 |
| FolderExport.PercentRounds | src/services/torrentManager.ts:446 | it is the written share of the total, rounded half up, capped at 100, and 0 when the total is 0 |
| FolderExport.PercentMonotone | src/services/torrentManager.ts:446 | writing more never lowers the percentage |
| FolderExport.PercentEnds | src/services/torrentManager.ts:446 | nothing written gives 0; everything written gives 100 |
| FolderExport.WriteEventsPercent | src/services/torrentManager.ts:489-490 | each written chunk reports the percentage after it, naming the file |
| FolderExport.WriteChunks | src/services/torrentManager.ts:484-493 | the stream loop adds up exactly the chunk sizes and reports once per chunk |
| FolderExport.FullPath | src/services/torrentManager.ts:465-466 | the file's path has no backslash left |
| FolderExport.JobOf | src/services/torrentManager.ts:464-466 | a file's export job targets the path its full path names |
| FolderExport.Jobs | src/services/torrentManager.ts:464-466 | one job per file |
| FolderExport.WriteFile | src/services/torrentManager.ts:473-499 | a blob or stream adds up its write sizes and reports once per write |
| FolderExport.SaveFileSteps | src/services/torrentManager.ts:465-504 | saving one file computes what `SaveFile` specifies |
| FolderExport.ExportStep | src/services/torrentManager.ts:464-505 | one pass of the file loop keeps the loop equal to the specification |
| FolderExport.ExportFiles | src/services/torrentManager.ts:464-505 | the file loop computes `ExportFrom` |
| FolderExport.SaveToFolder | src/services/torrentManager.ts:381-512 | the whole export computes `Export`: cancelled picker or denied permission gives `false`, otherwise the file loop, ending with a final report |
| FolderExport.SaveFileOk | src/services/torrentManager.ts:467-468 | a file aborts the export exactly when its `createWritable` rejects or a directory on its path cannot be created |
| FolderExport.SaveFileKinds | src/services/torrentManager.ts:452-462 | saving a file keeps every existing entry's kind and, on success, leaves a file at the file's path |
| FolderExport.ExportFromKinds | src/services/torrentManager.ts:464-505 | the same holds for the whole file loop |
| FolderExport.ExportFromWritten | src/services/torrentManager.ts:477-489 | the written total never decreases over the loop |
| FolderExport.WriteEventsRise | src/services/torrentManager.ts:489-490 | the percentages reported by one file never decrease and stay between 0 and 100 |
| FolderExport.ExportFromRise | src/services/torrentManager.ts:444-449 | over the whole loop the reported percentages never decrease |
| FolderExport.ExportProgress | src/services/torrentManager.ts:444-449 | there is no report exactly when the picker is missing, permission is denied or there are no files; otherwise the reports start at 0, never decrease, stay within 0..100 and, when the export completes, end with a report without a file name holding the share of bytes written |
| FolderExport.ReportsShape | src/services/torrentManager.ts:449-507 | an initial report, the loop's reports and the final one together rise |
| TrackersSettings.StripCR | src/components/TrackersSettings.tsx:18 | a line loses at most one trailing carriage return |
| TrackersSettings.SplitLines | src/components/TrackersSettings.tsx:18 | `split(/\r?\n/)` gives one piece per line feed plus one |
| TrackersSettings.SplitLinesNoLf | src/components/TrackersSettings.tsx:18 | no piece contains a line feed |
| TrackersSettings.TrimNonEmpty | src/components/TrackersSettings.tsx:18 | the saved entries are trimmed and non-empty |
| TrackersSettings.Parse | src/components/TrackersSettings.tsx:17-20 | the list passed to `onSave` holds only trimmed, non-empty entries |
| TrackersSettings.TrimNonEmptyAppend | src/components/TrackersSettings.tsx:18 | lines keep their order |
| TrackersSettings.TrimNonEmptyMembers | src/components/TrackersSettings.tsx:18 | an entry is saved exactly when it is non-empty and some line trims to it |
| TrackersSettings.TrimNonEmptyCongruent | src/components/TrackersSettings.tsx:18 | lines that agree after trimming save to the same entries |
| TrackersSettings.ParseLf | src/components/TrackersSettings.tsx:18 | text of lines joined by line feeds saves to those lines' trimmed, non-empty entries |
| TrackersSettings.ParseEmpty | src/components/TrackersSettings.tsx:18 | an empty text saves to the empty list |
| TrackersSettings.JoinCrLf | src/components/TrackersSettings.tsx:18 | `\r\n`-joined text is `\n`-joined text of lines ending in `\r` |
| TrackersSettings.ParseCrLf | src/components/TrackersSettings.tsx:18 | text joined by `\r\n` saves to the same entries |
| TrackersSettings.CrLfSameAsLf | src/components/TrackersSettings.tsx:18 | `\r\n` and `\n` line breaks save to the same list |
| TrackersSettings.SaveUnedited | src/components/TrackersSettings.tsx:11-19 | saving the unedited text gives back the tracker list it was initialised from |
| PeerList.FirstIndexIsSelf | src/components/PeerList.tsx:10-12 | an entry is kept exactly when no earlier entry has its id |
| PeerList.FilterFirstIsDedup | src/components/PeerList.tsx:10-12 | the filter over a prefix is first-occurrence de-duplication by id |
| PeerList.UniquePeersIsDedup | src/components/PeerList.tsx:10-12 | `uniquePeers` is first-occurrence de-duplication by id |
| PeerList.UniquePeersDistinct | src/components/PeerList.tsx:10-12 | no two shown peers share an id |
| PeerList.UniquePeersCoverIds | src/components/PeerList.tsx:10-12 | every input id is shown |
| PeerList.UniquePeersAreFirst | src/components/PeerList.tsx:10-12 | every shown peer is the first input entry with its id |
| PeerList.UniquePeerIsFirst | src/components/PeerList.tsx:10-12 | a shown peer is the entry at its id's first index |
| PeerList.UniquePeersOrder | src/components/PeerList.tsx:10-12 | shown peers keep the input order |
| PeerList.UniquePeersIdempotent | src/components/PeerList.tsx:10-12 | filtering the shown list again changes nothing |
| PeerList.HeaderCount | src/components/PeerList.tsx:19 | the header count is at most the number of peers, and at least 1 when there are any |
| PeerList.ShortId | src/components/PeerList.tsx:43 | the short id is the first eight characters, or the whole id when shorter |
| TorrentList.Pad2 | src/components/TorrentList.tsx:22 | a field is at least two decimal digits whose value is the number; below 100, exactly two |
| TorrentList.FormatTime | src/components/TorrentList.tsx:17-23 | the label is `∞` exactly for an infinity or a negative number |
| TorrentList.FieldsAddUp | src/components/TorrentList.tsx:19-21 | hours, minutes and seconds add up to the whole seconds, with minutes and seconds below 60 |
| TorrentList.Pad2Digits | src/components/TorrentList.tsx:22 | `padStart(2, '0')` of a number's digits is that field |
| TorrentList.FormatTimeFields | src/components/TorrentList.tsx:17-23 | a finite non-negative time's label splits at `:` into three fields that read back as hours, minutes and seconds |
| TorrentList.LabelFields | src/components/TorrentList.tsx:22 | the three padded fields joined by `:` split back into the fields |
| TorrentList.ThreeParts | src/components/TorrentList.tsx:22 | three decimal fields joined by `:` split back into the same fields |
| Dedup.FirstIndexBy | src/components/PeerList.tsx:11 | `findIndex` gives the first index with the key, or the length when none has it |
| Dedup.DedupByKeys | src/services/torrentManager.ts:81 | de-duplication keeps every key |
| Dedup.DedupByDistinct | src/services/torrentManager.ts:81 | its keys are distinct |
| Dedup.DedupByFirstOccurrence | src/services/torrentManager.ts:81 | every kept element is the first occurrence of its key |
| Dedup.DedupByOrder | src/services/torrentManager.ts:81 | kept elements keep their order |
| Dedup.DedupByOfDistinct | src/services/torrentManager.ts:81 | a list with distinct keys is unchanged |
| Dedup.DedupByIdempotent | src/services/torrentManager.ts:81 | de-duplicating twice equals once |
| Dedup.DedupByPrefix | src/services/torrentManager.ts:268-270 | the de-duplication of a prefix is a prefix of the de-duplication |
| Text.TrimStartSpec | src/services/torrentManager.ts:80 | `trim` drops exactly the leading whitespace |
| Text.TrimEnd | src/services/torrentManager.ts:80 | and exactly the trailing whitespace |
| Text.Trim | src/services/torrentManager.ts:80 | the result has no whitespace at either end |
| Text.TrimIdempotent | src/components/TrackersSettings.tsx:18 | trimming twice equals trimming once |
| Text.TrimOfTrimmed | src/components/TrackersSettings.tsx:18 | a trimmed string is unchanged |
| Text.IndexOf | src/polyfills/path.js:26 | the first occurrence of a character, or the length |
| Text.LastIndexOf | src/polyfills/path.js:26 | the last occurrence of a character, or -1 |
| Text.IndexOfFound | src/polyfills/path.js:26 | a character is found exactly when it occurs |
| Text.LastIndexOfFound | src/polyfills/path.js:26 | the same from the end |
| Text.SplitPieces | src/components/TrackersSettings.tsx:18 | no piece of a split contains the separator |
| Text.JoinSplit | src/components/TrackersSettings.tsx:11-18 | joining the pieces of a split gives the text back |
| Text.SplitJoin | src/components/TrackersSettings.tsx:11-18 | splitting a join of separator-free pieces gives the pieces back |
| Text.SplitCount | src/polyfills/path.js:54 | a split gives more than one piece exactly when the separator occurs |
| Text.ReplaceChar | src/services/torrentManager.ts:466 | a global one-character replace changes exactly the matching characters |
| Text.LowerChar | src/services/torrentManager.ts:365 | lower-casing leaves no ASCII capital and changes only capitals |
| Text.ToLowerAscii | src/services/torrentManager.ts:365 | `toLowerCase` on ASCII text: same length, each ASCII capital lowered, every other character kept |
| Text.PadStart | src/components/TorrentList.tsx:22 | `padStart` prefixes fill characters up to the width and keeps the text as a suffix |
| Text.DigitRoundTrip | src/polyfills/buffer-fix.js:44 | a digit's character reads back as the digit |
| Text.Numeral | src/polyfills/crypto.js:22 | `toString(base)` gives at least one digit, all digits of that base |
| Text.NumeralLower | src/polyfills/buffer-fix.js:44 | the digits are lower case |
| Text.NumeralRoundTrip | src/polyfills/buffer-fix.js:44 | the digits read back as the number |
| Text.NumeralValueZeros | src/polyfills/crypto.js:22 | leading zeros do not change a numeral's value |
| Text.NumeralLength | src/polyfills/crypto.js:22 | a number below `base^w` has at most `w` digits |
| PathPolyfill.PartsNonEmpty | src/polyfills/path.js:4 | only non-empty string arguments survive the filter |
| PathPolyfill.PartsAppend | src/polyfills/path.js:4 | the filter works argument by argument |
| PathPolyfill.CollapseLast | src/polyfills/path.js:10 | collapsing slashes keeps the last character |
| PathPolyfill.CollapseEmpty | src/polyfills/path.js:10 | only the empty string collapses to the empty string |
| PathPolyfill.CollapseNoDouble | src/polyfills/path.js:10 | `replace(/\/+/g, '/')` leaves no two adjacent slashes |
| PathPolyfill.CollapseOfNoDouble | src/polyfills/path.js:10 | a string without doubled slashes is unchanged |
| PathPolyfill.CollapseKeepsText | src/polyfills/path.js:10 | it changes nothing but slashes |
| PathPolyfill.JoinNonEmpty | src/polyfills/path.js:8-10 | joining at least one non-empty part is non-empty |
| PathPolyfill.JoinPathShape | src/polyfills/path.js:3-18 | `join` gives `.` for no parts; the result is never empty, has no doubled slashes, and ends with a slash only when it is `/` |
| PathPolyfill.JoinPathIgnores | src/polyfills/path.js:4 | an empty or non-string argument does not change `join` or `resolve` |
| PathPolyfill.ResolvePathShape | src/polyfills/path.js:20-23 | `resolve` has no doubled slashes and is empty exactly when no part survives |
| PathPolyfill.ResolvePathTrailing | src/polyfills/path.js:20-23 | `resolve` ends in a slash exactly when the last part does |
| PathPolyfill.JoinKeepsText | src/polyfills/path.js:7 | joining parts by `/` adds nothing but slashes to their concatenation |
| PathPolyfill.JoinPathText | src/polyfills/path.js:3-18 | `join` (with parts) and `resolve` hold exactly the characters of the string arguments, in order, apart from slashes |
| PathPolyfill.DirnameSpec | src/polyfills/path.js:25-29 | `dirname` is `.` without a slash, otherwise everything before the last slash, or `/` when that is empty |
| PathPolyfill.PosixDirnameSpec | src/polyfills/path.js:54 | `posix.dirname` is `/` without a slash, otherwise the same as `dirname`, and gives `.` for `./x` |
| PathPolyfill.LastSegmentSpec | src/polyfills/path.js:32 | the last segment is the text after the last slash and has no slash |
| PathPolyfill.BasenameSpec | src/polyfills/path.js:31-37 | `basename` is the last segment, without the extension when it ends with it |
| PathPolyfill.ExtnameSpec | src/polyfills/path.js:39-43 | `extname` is empty without a dot or for a leading-dot name, otherwise the text from the last dot |
| PathPolyfill.DotfileDot | src/polyfills/path.js:41-42 | a dot file's only dot is at position 0 |
| PathPolyfill.BasenameExtname | src/polyfills/path.js:31-43 | basename without the extension plus the extension is the full basename |
| PathPolyfill.NormalizeSpec | src/polyfills/path.js:45-47 | `normalize` leaves no doubled slash, changes only slashes and is idempotent |
| Events.LastMatch | src/polyfills/events.js:64-70 | the search result is -1 or a valid index |
| Events.LastMatchSpec | src/polyfills/events.js:64-70 | it is the last entry that is the listener or a once-wrapper around it, or -1 when none is |
| Events.LastMatchAt | src/polyfills/events.js:64-70 | the last matching index is what it finds |
| Events.RemoveLastSpec | src/polyfills/events.js:64-70 | `removeListener` drops exactly the last matching entry, and nothing when none matches |
| Events.StoreSpec | src/polyfills/events.js:22-26 | storing a list (dropping the event when the list is empty) sets that event's list and no other, and keeps the name list in step |
| Events.AddSpec | src/polyfills/events.js:17-34 | `on` appends and `prependListener` prepends to the event's list; other events are untouched |
| Events.RemoveSpec | src/polyfills/events.js:55-77 | removal from an unknown event changes nothing; otherwise the event's list loses its last match and others are untouched |
| Events.ClearSpec | src/polyfills/events.js:83-90 | a named event loses all listeners and others keep theirs; with no name, or an empty one, every list is cleared |
| Events.NamesHaveListeners | src/polyfills/events.js:100-102 | an event is listed exactly when it has listeners |
| Events.CallThrowing | src/polyfills/events.js:45-48 | a call runs the innermost user function and throws exactly when it does; a call that throws leaves the listeners as they were |
| Events.RunUnchanged | src/polyfills/events.js:111-117 | calling plain listeners, or ones that throw, leaves the emitter unchanged |
| Events.OnceDrain | src/polyfills/events.js:104-121 | emitting an event whose listeners are all distinct once-wrappers that return normally leaves it with none, although each removes itself while the snapshot is walked; other events are untouched |
| Events.OnceDrainPrefix | src/polyfills/events.js:104-121 | after the first `k` once-wrappers have run, the event's list is the remaining ones |
| Events.EventEmitter.constructor | src/polyfills/events.js:3-6 | no events and 10 as the listener limit |
| Events.EventEmitter.SetMaxListeners | src/polyfills/events.js:8-11 | sets the limit and changes no listener |
| Events.EventEmitter.GetMaxListeners | src/polyfills/events.js:13-15 | returns the limit |
| Events.EventEmitter.On | src/polyfills/events.js:17-34 | a non-function throws and changes nothing; otherwise appends and warns exactly when the list is longer than the limit |
| Events.EventEmitter.AddListener | src/polyfills/events.js:36-38 | the same as `on` |
| Events.EventEmitter.Once | src/polyfills/events.js:40-53 | appends a once-wrapper around the listener, with the same checks |
| Events.EventEmitter.PrependListener | src/polyfills/events.js:123-134 | prepends the listener; a non-function throws and changes nothing |
| Events.EventEmitter.PrependOnceListener | src/polyfills/events.js:136-149 | prepends a once-wrapper |
| Events.EventEmitter.RemoveListener | src/polyfills/events.js:55-77 | removes the last matching entry; a non-function throws and changes nothing |
| Events.EventEmitter.Off | src/polyfills/events.js:79-81 | the same as `removeListener` |
| Events.EventEmitter.RemoveAllListeners | src/polyfills/events.js:83-90 | clears as `ClearSpec` states |
| Events.EventEmitter.ListenerCount | src/polyfills/events.js:96-98 | the number of listeners, positive exactly when the event is listed |
| Events.EventEmitter.EventNames | src/polyfills/events.js:100-102 | each event with listeners, once |
| Events.EventEmitter.Invoke | src/polyfills/events.js:45-48 | one listener call is what `Call` specifies |
| Events.EventEmitter.Emit | src/polyfills/events.js:104-121 | returns whether the event is known, calls the listeners of the snapshot in order and ends in the state `Emitted` specifies |
| MockEmitter.AddedSpec | src/polyfills/bittorrent-dht.js:17-21 | `on` appends to the event's array; other events are untouched |
| MockEmitter.RemovedSpec | src/polyfills/bittorrent-dht.js:44-49 | `removeListener` filters out every occurrence of the listener and keeps the rest in order |
| MockEmitter.RemovedLeavesEmpty | src/polyfills/bittorrent-dht.js:44-49 | an emptied array stays under its key |
| MockEmitter.ClearedSpec | src/polyfills/bittorrent-dht.js:51-58 | a named event's array is dropped; without a name everything is dropped |
| MockEmitter.RunSpec | src/polyfills/bittorrent-dht.js:31-42 | running a snapshot of listeners removes only once-wrappers for that event from that snapshot |
| MockEmitter.OnceRunsOnce | src/polyfills/bittorrent-dht.js:23-29 | after an emit, no once-wrapper for the event is left: it runs at most once |
| MockEmitter.EmittedSpec | src/polyfills/bittorrent-dht.js:31-42 | after an emit the event keeps exactly its plain listeners; with only plain listeners nothing changes |
| MockEmitter.RunUsers | src/polyfills/bittorrent-dht.js:31-42 | plain listeners leave the emitter unchanged |
| MockEmitter.EmitResultSpec | src/polyfills/bittorrent-dht.js:31-42 | `emit` returns true exactly when the snapshot holds a listener that is not a once-wrapper for the event |
| MockEmitter.LoneOnce | src/polyfills/bittorrent-dht.js:31-42 | an event whose only listener is a once-wrapper emits `false` and is left with an empty array |
| MockEmitter.Emitter.constructor | src/polyfills/bittorrent-dht.js:14-15 | no events and a limit of 10 |
| MockEmitter.Emitter.On | src/polyfills/bittorrent-dht.js:17-21 | the state becomes `Added` |
| MockEmitter.Emitter.Once | src/polyfills/bittorrent-dht.js:23-29 | a once-wrapper is added |
| MockEmitter.Emitter.RemoveListener | src/polyfills/bittorrent-dht.js:44-49 | the state becomes `Removed` |
| MockEmitter.Emitter.RemoveAllListeners | src/polyfills/bittorrent-dht.js:51-58 | the state becomes `Cleared` |
| MockEmitter.Emitter.SetMaxListeners | src/polyfills/bittorrent-dht.js:60-63 | sets the limit and changes no listener |
| MockEmitter.Emitter.GetMaxListeners | src/polyfills/bittorrent-dht.js:65-67 | returns the limit |
| MockEmitter.Emitter.Listeners | src/polyfills/bittorrent-dht.js:69-71 | the event's array, or empty for an unknown event |
| MockEmitter.Emitter.ListenerCount | src/polyfills/bittorrent-dht.js:73-75 | zero exactly for an unknown event or an emptied array |
| MockEmitter.Emitter.EventNames | src/polyfills/bittorrent-dht.js:77-79 | every key once, including emptied ones |
| MockEmitter.Emitter.Emit | src/polyfills/bittorrent-dht.js:31-42 | calls the snapshot's listeners in order, reports those that throw, ends in `Emitted` and returns `EmitResult` |
| MockEmitter.Emitter.CallAll | src/polyfills/bittorrent-dht.js:36-40 | the listener loop ends in `Run` and calls every listener once |
| BittorrentDht.Client.constructor | src/polyfills/bittorrent-dht.js:5-15 | not destroyed, not listening, no events, limit 10 |
| BittorrentDht.Client.Destroy | src/polyfills/bittorrent-dht.js:131-143 | the first call stops listening and drops every listener; later calls change nothing; a callback is scheduled either way |
| BittorrentDht.DestroyTwice | src/polyfills/bittorrent-dht.js:131-143 | destroying twice leaves the same state as destroying once |
| TorrentDiscovery.PeerIdOf | src/polyfills/torrent-discovery.js:6 | the peer id is kept only when it is a non-empty string |
| TorrentDiscovery.PortOf | src/polyfills/torrent-discovery.js:7 | the port defaults to 0 |
| TorrentDiscovery.Discovery.constructor | src/polyfills/torrent-discovery.js:3-13 | takes the options' peer id and port, not destroyed, no events |
| TorrentDiscovery.Discovery.UpdatePort | src/polyfills/torrent-discovery.js:79-82 | only the port changes, and the object is returned |
| TorrentDiscovery.Discovery.Stop | src/polyfills/torrent-discovery.js:102-105 | returns the object and changes nothing |
| TorrentDiscovery.Discovery.Destroy | src/polyfills/torrent-discovery.js:107-118 | the first call drops every listener; later calls change nothing; a callback is scheduled either way |
| Buffers.ReadHexValue | src/polyfills/buffer-fix.js:12 | `parseInt(_, 16)` reads the longest hex-digit prefix |
| Buffers.ParseHexPair | src/polyfills/buffer-fix.js:12 | two hex digits parse to their value |
| Buffers.HexBytes | src/polyfills/buffer-fix.js:9-14 | a hex string of length `n` gives `ceil(n/2)` bytes |
| Buffers.HexBytesAt | src/polyfills/buffer-fix.js:11-13 | byte `k` is the parse of characters `2k` and `2k+1` |
| Buffers.DecodeHex | src/polyfills/buffer-fix.js:10-13 | the decoding loop computes `HexBytes` |
| Buffers.HexBytesValid | src/polyfills/buffer-fix.js:12 | on valid hex text each byte is its two digits' value |
| Buffers.ByteOfPair | src/polyfills/buffer-fix.js:12 | each byte is read from its own pair |
| Buffers.Hex2Digits | src/polyfills/buffer-fix.js:44 | a byte renders as its two nibble digits |
| Buffers.ToHexAt | src/polyfills/buffer-fix.js:43-45 | `toString('hex')` is two characters per byte, the byte's nibbles |
| Buffers.ToHexShape | src/polyfills/buffer-fix.js:43-45 | the hex text is lower-case hex digits, two per byte |
| Buffers.HexRoundTrip | src/polyfills/buffer-fix.js:9-14 | decoding the hex text of bytes gives the bytes back |
| Buffers.HexLowerRoundTrip | src/polyfills/buffer-fix.js:9-14 | encoding the decoding of valid even-length hex text gives its lower-case form |
| Buffers.BufferOfSpec | src/polyfills/buffer-fix.js:5-32 | construction fails exactly for a negative length; a length gives that many zero bytes, an array one byte per item equal to the item modulo 256, anything unsupported an empty buffer |
| Buffers.BufferOfHex | src/polyfills/buffer-fix.js:9-14 | a buffer built from the hex rendering of some bytes holds exactly those bytes |
| Buffers.New | src/polyfills/buffer-fix.js:5-32 | the constructor fails exactly when `BufferOfSpec` does and otherwise holds its bytes |
| Buffers.Fill | src/polyfills/buffer-fix.js:59 | every byte becomes the fill value modulo 256 |
| Buffers.Alloc | src/polyfills/buffer-fix.js:57-61 | a negative size fails; otherwise `size` bytes of the fill value |
| Buffers.AllocUnsafe | src/polyfills/buffer-fix.js:63-65 | a negative size fails; otherwise `size` zeros |
| Buffers.IsBuffer | src/polyfills/buffer-fix.js:67-69 | true exactly for buffers |
| Buffers.Relative | src/polyfills/buffer-fix.js:34-37 | a slice bound is clamped into the buffer |
| Buffers.SliceInRange | src/polyfills/buffer-fix.js:34-37 | in-range bounds slice exactly; the default slice is the whole buffer |
| Buffers.Slice | src/polyfills/buffer-fix.js:34-37 | `slice` gives a fresh buffer holding `SliceOf` |
| Buffers.TotalLength | src/polyfills/buffer-fix.js:74 | the default total is the length of all parts together |
| Buffers.Fit | src/polyfills/buffer-fix.js:75-80 | the result has exactly the requested length |
| Buffers.ConcatSpec | src/polyfills/buffer-fix.js:71-85 | a missing list fails, the default length concatenates everything, a given length cuts or zero-pads |
| Buffers.SumLengths | src/polyfills/buffer-fix.js:74 | the length loop sums the buffers' lengths |
| Buffers.CopyParts | src/polyfills/buffer-fix.js:78-84 | the copy loop lays the parts end to end until the result is full |
| Buffers.CopyAll | src/polyfills/buffer-fix.js:75-84 | the result is the concatenation cut or padded to the length |
| Buffers.Concat | src/polyfills/buffer-fix.js:71-85 | `concat` fails exactly when `ConcatSpec` does and otherwise holds its bytes |
| Crypto.Int32 | src/polyfills/crypto.js:18 | `hash & hash` keeps a value in the signed 32-bit range |
| Crypto.Int32Offset | src/polyfills/crypto.js:18 | it differs from its input by a multiple of 2^32 |
| Crypto.Int32Shift | src/polyfills/crypto.js:18 | adding multiples of 2^32 does not change it |
| Crypto.Int32Fixed | src/polyfills/crypto.js:18 | it fixes values already in range |
| Crypto.CodeUnits | src/polyfills/crypto.js:16 | a character is one or two UTF-16 code units |
| Crypto.Utf16 | src/polyfills/crypto.js:15-16 | a string has at least as many code units as characters, all 16-bit |
| Crypto.HashOf | src/polyfills/crypto.js:13-19 | the hash is a signed 32-bit integer |
| Crypto.PolySnoc | src/polyfills/crypto.js:17 | each code unit multiplies the value by 31 and adds itself |
| Crypto.HashIsPoly | src/polyfills/crypto.js:13-19 | the wrapping hash loop equals the unbounded polynomial reduced to 32 bits at the end |
| Crypto.HexDigestShape | src/polyfills/crypto.js:21-23 | the hex digest is 8 lower-case hex digits whose value is the hash's absolute value |
| Crypto.LowBytesRoundTrip | src/polyfills/crypto.js:24 | the 4 digest bytes read back as the hash |
| Crypto.DigestForSpec | src/polyfills/crypto.js:11-25 | `hex` gives the hex digest, any other encoding the 4 low bytes |
| Crypto.HashLoop | src/polyfills/crypto.js:13-19 | the loop over the code units computes the 32-bit hash `HashOf` |
| Crypto.DigestOf | src/polyfills/crypto.js:11-25 | the digest computes `DigestFor` |
| Crypto.Hash.constructor | src/polyfills/crypto.js:5-6 | no data yet |
| Crypto.Hash.Update | src/polyfills/crypto.js:7-10 | appends the data's text and returns the hash |
| Crypto.Hash.Digest | src/polyfills/crypto.js:11-25 | digests all the data added |
| Crypto.UpdateChain | src/polyfills/crypto.js:7-10 | two updates digest like one update with both texts |
| Crypto.Signer.constructor | src/polyfills/crypto.js:42-43 | no data yet |
| Crypto.Signer.Update | src/polyfills/crypto.js:44-47 | appends the data's text |
| Crypto.Signer.Sign | src/polyfills/crypto.js:48-55 | the signature is the hash digest of the data |
| Crypto.Verifier.constructor | src/polyfills/crypto.js:57-58 | no data yet |
| Crypto.Verifier.Update | src/polyfills/crypto.js:59-62 | appends the data's text |
| Crypto.Verifier.Verify | src/polyfills/crypto.js:63-68 | every signature verifies |
| Crypto.CipherRoundTrip | src/polyfills/crypto.js:70-92 | deciphering the ciphered text gives it back |
| Crypto.RandomBytes | src/polyfills/crypto.js:29-40 | it fails exactly for a negative size (a range error) or, with `window.crypto`, for more than 65,536 bytes (a quota error); otherwise a fresh array of `size` bytes, byte `i` being the host's random value for position `i` |
| CryptoBrowserify.ToStringOf | src/polyfills/crypto-browserify.js:8 | `data.toString()` fails exactly for data without one |
| CryptoBrowserify.Hash.constructor | src/polyfills/crypto-browserify.js:5-6 | no data yet |
| CryptoBrowserify.Hash.Update | src/polyfills/crypto-browserify.js:7-10 | text is appended; anything else throws and changes nothing |
| CryptoBrowserify.Hash.Digest | src/polyfills/crypto-browserify.js:11-25 | digests all the data added |
| CryptoBrowserify.Signer.constructor | src/polyfills/crypto-browserify.js:28-29 | no data yet |
| CryptoBrowserify.Signer.Update | src/polyfills/crypto-browserify.js:30-33 | text is appended; anything else throws and changes nothing |
| CryptoBrowserify.Signer.Sign | src/polyfills/crypto-browserify.js:34-38 | signing always throws a TypeError, as written |
| CryptoBrowserify.Signer.SignIntended | src/polyfills/crypto-browserify.js:34-38 | the evidently intended signature: the module's hash digest of the data |
| CryptoBrowserify.SignDiscrepancy | src/polyfills/crypto-browserify.js:34-38 | for the same data, the code as written throws while the intended signature is an 8-digit hex digest |
| CryptoBrowserify.Verifier.constructor | src/polyfills/crypto-browserify.js:42-43 | no data yet |
| CryptoBrowserify.Verifier.Update | src/polyfills/crypto-browserify.js:44-47 | text is appended; anything else throws and changes nothing |
| CryptoBrowserify.Verifier.Verify | src/polyfills/crypto-browserify.js:48-52 | every signature verifies |
| Util.InspectAll | src/polyfills/util.js:45 | one rendering per element |
| Util.InspectAllAt | src/polyfills/util.js:45 | each element is inspected in place |
| Util.InspectSpec | src/polyfills/util.js:36-52 | a symbol gives `undefined`; strings are quoted; `null` and `undefined` are named; arrays list their elements' renderings |
| Util.SubstCounter | src/polyfills/util.js:7-23 | each placeholder other than `%%` consumes one argument while any are left |
| Util.SubstVerbatim | src/polyfills/util.js:9-10 | with no arguments left the text is unchanged |
| Util.SubstPlain | src/polyfills/util.js:8 | text without `%` is unchanged |
| Util.SubstReadsFrom | src/polyfills/util.js:11-19 | only the arguments from the counter on are read |
| Util.FormatThrows | src/polyfills/util.js:8-31 | `format` throws exactly when a `%d` meets a symbol or arguments are left over after the placeholders |
| Util.SymbolAsNumberNeedsSymbol | src/polyfills/util.js:13 | the replacement throws only on a symbol argument |
| Util.FormatThrowsWithoutSymbols | src/polyfills/util.js:8-31 | without symbol arguments, `format` throws exactly when arguments are left over |
| Util.FormatSymbolNumber | src/polyfills/util.js:13 | a symbol given to a `%d` makes `format` throw a `TypeError` |
| Util.FormatVerbatim | src/polyfills/util.js:8-10 | a format with no arguments after it is returned as is |
| Util.FormatSkipsFirst | src/polyfills/util.js:7-19 | the first argument after the format is never read |
| Util.FormatPlain | src/polyfills/util.js:2-34 | a format without `%` throws when two or more arguments follow it, otherwise it is returned |
| Util.FormatNonString | src/polyfills/util.js:3-5 | a non-string first argument inspects all the arguments |
| Util.ReplaceStep | src/polyfills/util.js:8-23 | one replacement step keeps the loop equal to `Subst`, and says whether it throws |
| Util.Replace | src/polyfills/util.js:8-23 | the replacement loop throws exactly when a `%d` meets a symbol, and otherwise computes `Subst` |
| Util.Format | src/polyfills/util.js:2-34 | the method computes `FormatOf` |
| Util.Deprecated.constructor | src/polyfills/util.js:78-80 | not yet warned |
| Util.Deprecated.Call | src/polyfills/util.js:80-86 | calls the function and warns only on the first call |
| Util.CallMany | src/polyfills/util.js:78-87 | any number of calls give the function's result for each and exactly one warning when there was any call |
| Util.IsPrimitiveSpec | src/polyfills/util.js:119-136 | among the modelled values, `isPrimitive` holds exactly when `isObject` and `isFunction` are both false |

## Left out

- WebTorrent itself is not part of this model. That covers:
  - client construction;
  - `add`, `seed` and `createTorrent`;
  - the engine's event wiring (src/services/torrentManager.ts:26-49, 84-164, 244-293, 515-539).
  The model begins where the engine hands over a torrent: `OnTorrent`, `OnAdded`, `OnMetadata`.
- Engine.EngineGet: a key is taken to be an info hash as the engine records it (lower-case hex), and `client.get` is treated as synchronous, as the code calls it. WebTorrent's own lookup first parses the key, so it also finds a torrent by an upper-case hex hash, a magnet URI or a base32 hash. The model finds nothing for those keys. This carries into Manager.ResolveFallback, which falls back to the first torrent with files for such a key, and into Manager.TorrentManager.RemoveTorrent, which then leaves the engine unchanged.
- The periodic update timer (src/services/torrentManager.ts:166-172) is left out: it only calls the update functions.
- Waiting for a torrent's files (392-426) is reduced to the files that arrive, which are given as `waited`.
- `downloadFile` (src/services/torrentManager.ts:322-347) is left out: it only hands a blob URL to the browser.
- `localStorage` and `JSON.parse` are a stored value. A read error is the same as a value that is not an array. Whether a write succeeds is the parameter `writeOk`.
- Floating-point fields are left out of the records. These are progress, speeds, ratio and time remaining (212-234).
- `getDetailedStats` (576-585) only sums those floating-point fields, so it is left out.
- FolderExport.Percent: uses integers rounded half up instead of floating-point `Math.round`.
- Random values are parameters. Random peer ids, `webrtc-` addresses and `randomBytes` contents are modelled only by their shape.
- `forceAnnounce` and the re-announce after `setCustomTrackers` (542-552, 570) are left out: they call into the discovery engine.
- A file's size on disk is the sum of its writes. A stream that fails part way keeps the chunks written before the failure, which also count towards progress.
- The DHT's `listen`, `announce`, `lookup`, `addNode`, `removeNode` and its node-id/table accessors are left out, as are discovery's `announce`, `dht` and `tracker` hooks. They only schedule callbacks or return constants.
- The mock DHT and discovery objects carry identical emitter code. It is modelled once, as `MockEmitter`.
- The buffer's `utf8` and `base64` paths are left out: they use the browser's text encoders. `write`, `readUInt*` and the global installer are left out too.
- util's `promisify`, `callbackify` and `inherits` are left out: they concern promises and prototypes.
- Util.InspectSpec: the `Date`, `Error` and object branches render as text that the host supplies.
- Listener functions are modelled only by whether they throw, through the predicate `throws`.
- Events.EventEmitter.On: the max-listeners console warning is a `warned` flag.
- Object keys that collide with `Object.prototype`, and the integer-first key order of `Object.keys`, are left out. Event names are plain strings in insertion order.
- The crypto mocks' cipher (src/polyfills/crypto.js:70-92) is the identity: only its round trip is stated.
- The identical `randomBytes` in src/polyfills/crypto-browserify.js:54-64 is `Crypto.RandomBytes`.
- Text.ToLowerAscii: lowers ASCII capitals only, where JavaScript's `toLowerCase` also maps other Unicode letters. Info hashes and hex text are ASCII, so they are unaffected.
- Buffers.HexBytes and PeerList.ShortId count characters, where JavaScript counts UTF-16 code units. The two differ only for text outside the Basic Multilingual Plane.
- Buffers.New copies its input. `new Buffer(arrayBuffer)` in the source shares the `ArrayBuffer`'s memory, so later writes through either view are not modelled.
- Manager.WireLists: a torrent's wires are collected all or nothing. In `updatePeers`, a throw part way through a torrent's wires keeps the peers pushed before it.
- Events.EventEmitter.Once, Events.EventEmitter.PrependOnceListener and MockEmitter.Emitter.Once: a once-wrapper is a value (its tag, event and listener), where JavaScript compares function identity. Wrappers made with a reused tag for the same event and listener cannot be told apart, so callers pass a fresh tag each time.
- Util.Value has no BigInt. `isPrimitive` is false for a BigInt, which is neither an object nor a function, so `IsPrimitiveSpec` says nothing about it.

## Differences from the documented behaviour

The model follows the code in each of these cases:

- The tracker sanitiser keeps `ws://` URLs as well as `wss://` (torrentManager.ts:79).
- The final export report's percentage is the written share. It is not a fixed 100: a file that fails to write leaves the final percentage below 100.
- `posix.dirname('./x')` is `.`.
- `removeAllListeners('')` clears every event, because the empty string is falsy.
- `util.format` leaves `%%` as it is and never reads the first argument after the format.
- The mock emitters keep an event's empty array after its last listener is removed. `emit` runs over a snapshot of the listeners.

## Findings

| source | as written | input that shows it | evidently intended | confidence | as-written member | corrected member |
|---|---|---|---|---|---|---|
| src/polyfills/crypto-browserify.js:35 | `sign` calls `this.createHash`, which the signer object does not have, so it throws a TypeError | `createSign('sha256').update('x').sign(key)` | the signature is the module's own `createHash` digest of the data, as in src/polyfills/crypto.js:48-55 | not executed | CryptoBrowserify.SignDiscrepancy | CryptoBrowserify.Signer.SignIntended |
