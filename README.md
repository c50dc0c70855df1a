# myrient-downloader, modelled in Dafny

myrient-downloader reads a manifest (a DAT file) of wanted games and resolves the Myrient file
catalog for that manifest's system. It then downloads every wanted archive the catalog lists,
checks each file the manifest names against the CRC-32 stored in the archive, and can optionally
extract the archive. This project models and proves the core of that engine:

- `Metadata`: a catalog entry (`MyrientMetadata`) with its title rule, the regular expression
  `\.[(a-zA-Z0-9)]{1,3}\Z` replaced by nothing. The entry is a class whose `downloaded` and
  `unzipped` flags are updated in place.
- `DatFile`: the manifest's records and their computed getters:
  - `System`: the system name with " (Retool)" removed.
  - `Catalog`: the first catalog whose URL occurs in the manifest URL.
  - `Crc`: `uint.Parse` with `NumberStyles.HexNumber`, including its white-space and NUL rules and
    its overflow.
- `Parser`: the catalog resolver.
  - It picks the catalog anchor and then the system anchor by title.
  - It keys every archive anchor of the system page by its derived title.
  - `ToDictionary` fails on a repeated key.
- `Transfer`: one item of the download loop, as a function of the state before it:
  - the response check
  - the resume check against Content-Length
  - the streamed copy
  - the CRC gate, stopping at the first failing file
  - deletion on a mismatch
  - extraction into a per-game subdirectory for multi-entry archives
- `Downloader`: the class that runs all of this step by step, holding the output directory's files,
  the issued requests and the progress tasks:
  - `CopyStream` is the chunked copy loop; the stream chooses how many bytes each read returns.
  - `ProcessItem` is one item; it is proved to leave exactly the state `Transfer.TransferItem` gives.
  - `DownloadRoms` matches the wanted games against the catalog, then runs rounds over the matched
    entries not yet downloaded until none is left.
- `Paths` and `Constants`: `Path.Join`, `Path.Combine` and the constant tables.

HTTP responses, page loads and the zip reader are parameters:
- `fetch(uri, n)` is the response to the n-th request.
- `Pages` maps an address to the anchors of that page.
- `ZipReader` maps bytes to zip entries, or to None when the bytes are not an archive.

Three behaviours of the source the model keeps:
- An unreadable archive, a manifest file missing from the archive (`GetEntry(...)!` dereferences
  null) or an unparsable CRC does not lead to delete-and-retry. These throw; `Parallel.ForEachAsync`
  rethrows, so the whole run ends. The model returns `Failed(ItemFailed(..))`.
- A second run over a complete output directory still issues one GET per matched game. The GET
  comes before the resume check, and the entry objects start with both flags clear. With unzip, the
  archive was deleted after extraction, so it is downloaded again. The `requests` clause of
  `ProcessItem` shows the first; `VerifyExtracts` shows the second.
- An extraction failure is an exception that ends the run, not a logged soft failure. The model
  leaves extraction failures out.

## Model

| member | source | states |
|---|---|---|
| Metadata.Title | MyrientDownloader/Interfaces/MyrientMetadata.cs:12 | Definition of the title rule; see TitleOfMatch, TitleOfNoMatch, TitleChangesIffMatch and TitleShape |
| Metadata.ExtensionLength | MyrientDownloader/Interfaces/MyrientMetadata.cs:7 | The length of the extension after the final dot (1 to 3 characters of the class), or 0 exactly when no such extension ends the name |
| Metadata.RegexMatchUnique | MyrientDownloader/Interfaces/MyrientMetadata.cs:7 | The pattern matches at most one slice of any name, so replacing every match removes at most one slice |
| Metadata.TitleOfMatch | MyrientDownloader/Interfaces/MyrientMetadata.cs:7-12 | When the pattern matches a slice (at the end, or before a final line feed), the title is the name with exactly that slice removed |
| Metadata.TitleOfNoMatch | MyrientDownloader/Interfaces/MyrientMetadata.cs:7-12 | When the pattern matches nowhere, the title is the file name unchanged |
| Metadata.TitleChangesIffMatch | MyrientDownloader/Interfaces/MyrientMetadata.cs:7-12 | The title differs from the file name if and only if the pattern matches somewhere |
| Metadata.TitleStripsExtension | MyrientDownloader/Interfaces/MyrientMetadata.cs:7-12 | A name p + "." + t with a 1-3 character extension t of the class has title p |
| Metadata.TitleShape | MyrientDownloader/Interfaces/MyrientMetadata.cs:12 | The title is at most 4 characters shorter; it is a prefix of the name, or a prefix plus the final line feed |
| Metadata.TitleStripExamples | MyrientDownloader/Interfaces/MyrientMetadata.cs:7-12 | "Foo (USA).zip" gives "Foo (USA)", "A.B.zip" gives "A.B", "x.(1)" gives "x" |
| Metadata.TitleKeepExamples | MyrientDownloader/Interfaces/MyrientMetadata.cs:7-12 | "Foo.jpeg", "Foo.", "Foo.a-b" and "Foo" are kept as they are |
| Metadata.TitleLineFeedExample | MyrientDownloader/Interfaces/MyrientMetadata.cs:7-12 | Before a final line feed the extension is still removed: "Foo.7z\n" gives "Foo\n" |
| Metadata.MyrientMetadata.constructor | MyrientDownloader/Interfaces/MyrientMetadata.cs:5-14 | Stores the address and file name, derives the title from the name, and starts with both flags false |
| Paths.Join | MyrientDownloader/Services/Downloader.cs:126 | An empty side gives the other side; otherwise the parts are joined, with at most one separator added |
| Paths.JoinParts | MyrientDownloader/Services/Downloader.cs:126 | The joined path starts with the directory and ends with the name, adding at most one separator |
| Paths.CombinePlacesFile | MyrientDownloader/Services/Downloader.cs:66 | The output path always ends with the archive's file name, and a relative name lands under the output directory |
| DatFile.RemoveAll | MyrientDownloader/Interfaces/DatFile.cs:22-24 | Definition of Replace(fragment, ""); see RemoveAllLength, RemoveAllIdentity and RemoveAllFirst |
| DatFile.System | MyrientDownloader/Interfaces/DatFile.cs:22-24 | Definition of the system name; see SystemRemovesRetool and SystemExample |
| DatFile.RemoveAllLength | MyrientDownloader/Interfaces/DatFile.cs:22-24 | Removing a fragment shortens the string by the fragment's length once per occurrence removed |
| DatFile.OccurrencesZeroIff | MyrientDownloader/Interfaces/DatFile.cs:22-24 | The left-to-right scan removes nothing if and only if the fragment does not occur |
| DatFile.RemoveAllIdentity | MyrientDownloader/Interfaces/DatFile.cs:22-24 | Replace(fragment, "") leaves a string unchanged if and only if the fragment does not occur in it |
| DatFile.RemoveAllFirst | MyrientDownloader/Interfaces/DatFile.cs:22-24 | When the first occurrence follows a prefix a, the result keeps a, drops that occurrence and continues on the rest |
| DatFile.SystemRemovesRetool | MyrientDownloader/Constants.cs:25-28 | System is the header name with every " (Retool)" removed; it is 9 characters shorter per occurrence, and equal to the name if and only if the name has none |
| DatFile.SystemExample | MyrientDownloader/Interfaces/DatFile.cs:22-24 | "Nintendo - Game Boy (Retool)" gives "Nintendo - Game Boy" |
| DatFile.Catalog | MyrientDownloader/Interfaces/DatFile.cs:29-35 | Definition of the catalog getter over the constant table; see FirstCatalog and CatalogExamples |
| DatFile.FirstCatalog | MyrientDownloader/Interfaces/DatFile.cs:29-35 | Fails (UnknownCatalog) if and only if no table key occurs in the URL; otherwise gives the value of the first key in table order that occurs |
| DatFile.CatalogExamples | MyrientDownloader/Constants.cs:9-17 | A no-intro.org URL selects "No-Intro"; the redump.org URL selects "Redump" |
| DatFile.ParseHex | MyrientDownloader/Interfaces/DatFile.cs:54 | Definition of uint.Parse with NumberStyles.HexNumber; see ParseHexGrammar, ParseHexOnlyGrammar and ParseHexRoundTrip |
| DatFile.Crc | MyrientDownloader/Interfaces/DatFile.cs:54 | Definition of the CRC getter; see the ParseHex rows |
| DatFile.ParseHexGrammar | MyrientDownloader/Interfaces/DatFile.cs:54 | Leading/trailing white space, hex digits of either case, then NULs parse to the digits' value, or to an overflow error above 0xFFFFFFFF |
| DatFile.ParseHexOnlyGrammar | MyrientDownloader/Interfaces/DatFile.cs:54 | Every successful parse comes from text of that grammar and yields the digits' value; other text fails |
| DatFile.ParseHexRoundTrip | MyrientDownloader/Interfaces/DatFile.cs:54 | Every CRC written as 8 hex digits, upper or lower case, parses back to itself |
| DatFile.ParseHexRejectsPrefix | MyrientDownloader/Interfaces/DatFile.cs:54 | A "0x" prefix is a format error |
| DatFile.ParseHexRejectsBlank | MyrientDownloader/Interfaces/DatFile.cs:54 | Empty or blank text is a format error |
| Parser.Titled | MyrientDownloader/Services/Parser.cs:28-29 | Keeps exactly the anchors that have a title attribute |
| Parser.FirstTitled | MyrientDownloader/Services/Parser.cs:30 | Fails if and only if no anchor has the target title; otherwise gives the first such anchor |
| Parser.FirstTitledIsFirst | MyrientDownloader/Services/Parser.cs:28-30 | Searching only the titled anchors gives the same result as searching the whole page |
| Parser.SelectNode | MyrientDownloader/Services/Parser.cs:28-30 | Definition of node selection by title; see SelectNodeFirstMatch and SelectNodeCatalogFailure |
| Parser.SelectNodeFirstMatch | MyrientDownloader/Services/Parser.cs:28-30 | The catalog or system node is the first anchor with that title; selection fails if and only if there is none |
| Parser.SelectNodeCatalogFailure | MyrientDownloader/Services/Parser.cs:30 | An unknown catalog URL makes node selection fail |
| Parser.Kept | MyrientDownloader/Services/Parser.cs:43-45 | Keeps exactly the titled anchors whose title is neither "." nor ".." |
| Parser.ListFrom | MyrientDownloader/Services/Parser.cs:46-56 | Definition of building the dictionary; see ListFromSucceeds, ListFromContents and ListFromSize |
| Parser.Listing | MyrientDownloader/Services/Parser.cs:43-56 | Definition of the system page's listing; see ListingSpec and ListingDuplicateFails |
| Parser.ListFromSucceeds | MyrientDownloader/Services/Parser.cs:46-56 | Building the dictionary succeeds if and only if every anchor has an href, no two keys collide, and no key is already present |
| Parser.ListFromContents | MyrientDownloader/Services/Parser.cs:46-56 | On success each anchor gives the entry under its derived title: its href resolved against the system address, and its title as file name |
| Parser.ListFromSize | MyrientDownloader/Services/Parser.cs:56 | The dictionary has one entry per anchor added |
| Parser.ListingSpec | MyrientDownloader/Services/Parser.cs:43-56 | For the system page: success if and only if the kept anchors all have hrefs and distinct titles; then keys are exactly their titles, one entry each, with contents |
| Parser.ListingDuplicateFails | MyrientDownloader/Services/Parser.cs:56 | Two kept anchors with the same derived title make the listing fail |
| Parser.SystemLocation | MyrientDownloader/Services/Parser.cs:26-39 | Definition of finding the system page from the root page and the catalog page; see SelectNodeFirstMatch |
| Parser.Resolve | MyrientDownloader/Services/Parser.cs:26-56 | Definition of the whole resolution; see GetMyrientRoms and ListingSpec |
| Parser.GetMyrientRoms | MyrientDownloader/Services/Parser.cs:24-59 | Succeeds exactly when the resolution does, with the same error; it builds one fresh, distinct, unflagged entry per key with the resolved address, file name and title |
| Transfer.GetEntry | MyrientDownloader/Services/Downloader.cs:104 | None if and only if no entry has the name; otherwise the first entry with that name |
| Transfer.Check | MyrientDownloader/Services/Downloader.cs:102-113 | Definition of the gate over all manifest files; see CheckFrom and VerifyArchive |
| Transfer.CheckFrom | MyrientDownloader/Services/Downloader.cs:102-113 | All match if and only if every file has its entry and an equal parsed CRC. Otherwise it gives the first failing file, with how it failed: no entry, unparsable CRC, or different CRC |
| Transfer.Extract | MyrientDownloader/Services/Downloader.cs:124-128 | Definition of extraction with overwrite; see ExtractKeys, ExtractKeeps and ExtractLast |
| Transfer.Target | MyrientDownloader/Services/Downloader.cs:124-127 | Definition of the extraction directory; see VerifyExtracts |
| Transfer.ExtractKeys | MyrientDownloader/Services/Downloader.cs:124-128 | Extraction adds exactly the entries' paths under the target to the directory |
| Transfer.ExtractKeeps | MyrientDownloader/Services/Downloader.cs:124-128 | Every file no entry is written to keeps its contents |
| Transfer.ExtractLast | MyrientDownloader/Services/Downloader.cs:124-128 | With overwrite, a path holds the data of the last entry written to it |
| Transfer.Receive | MyrientDownloader/Services/Downloader.cs:68-98 | Definition of the response check, resume check and copy; see TransferResumes, TransferStreams, TransferHttpFailure and Store |
| Transfer.Verify | MyrientDownloader/Services/Downloader.cs:100-133 | Definition of the CRC gate and the keep-or-extract step; see VerifyMismatch, VerifyMissingEntry, VerifyKeeps, VerifyExtracts and Settle |
| Transfer.TransferItem | MyrientDownloader/Services/Downloader.cs:64-133 | Definition of one item; see TransferKeepsConsistent, TransferCompletion and ProcessItem |
| Transfer.TransferKeepsConsistent | MyrientDownloader/Services/Downloader.cs:64-133 | No item breaks "unzipped implies downloaded" |
| Transfer.TransferCompletion | MyrientDownloader/Services/Downloader.cs:109-133 | The overall counter advances only without an exception; then the entry is downloaded if and only if it advanced |
| Transfer.TransferResumes | MyrientDownloader/Services/Downloader.cs:71-79 | A file with the announced length (0 without the header) is marked downloaded and not streamed again; the gate runs on it |
| Transfer.TransferStreams | MyrientDownloader/Services/Downloader.cs:73-98 | Otherwise the file is deleted and replaced by the received body; the progress task ends at the bytes written, and the gate runs on them |
| Transfer.TransferHttpFailure | MyrientDownloader/Services/Downloader.cs:68-71 | An unsuccessful response throws and changes nothing |
| Transfer.VerifyMismatch | MyrientDownloader/Services/Downloader.cs:106-111 | A CRC mismatch deletes the archive, clears both flags, and does not advance the counter |
| Transfer.VerifyMissingEntry | MyrientDownloader/Services/Downloader.cs:104 | A manifest file the archive lacks throws, leaving files and flags as they were |
| Transfer.VerifyKeeps | MyrientDownloader/Services/Downloader.cs:116-122 | Without unzip, a verified archive stays, is marked downloaded, and the counter advances |
| Transfer.VerifyExtracts | MyrientDownloader/Services/Downloader.cs:116-133 | With unzip, a verified archive is extracted into the game's subdirectory when it has several entries (else the output directory), then deleted; both flags are set and the counter advances |
| Downloader.MatchFrom | MyrientDownloader/Services/Downloader.cs:38-40 | Definition of FindAll and ToDictionary over the wanted games; see MatchFromSucceeds and MatchFromContents |
| Downloader.Match | MyrientDownloader/Services/Downloader.cs:38-40 | Definition of matching; see MatchSpec and MatchDuplicateFails |
| Downloader.MatchFromSucceeds | MyrientDownloader/Services/Downloader.cs:38-40 | Matching the remaining games succeeds if and only if no listed name repeats and none is already matched |
| Downloader.MatchFromContents | MyrientDownloader/Services/Downloader.cs:38-40 | The matched map adds exactly the listed wanted names, each bound to the catalog's own entry |
| Downloader.MatchSpec | MyrientDownloader/Services/Downloader.cs:38-40 | Matching succeeds if and only if no listed name is wanted twice; its keys are the wanted names the catalog lists, each bound to the catalog's entry |
| Downloader.MatchDuplicateFails | MyrientDownloader/Services/Downloader.cs:38-40 | A listed name wanted twice makes matching fail |
| Downloader.Pending | MyrientDownloader/Services/Downloader.cs:59-60 | A game is in a round's work list if and only if it is wanted, listed and not downloaded; with distinct names, the list has no repeated name |
| Downloader.PendingNames | MyrientDownloader/Services/Downloader.cs:59-60 | The work list names only catalog entries, so a game absent from the catalog is never fetched |
| Downloader.PendingIsUndone | MyrientDownloader/Services/Downloader.cs:51-60 | The names in a round's work list are exactly the matched entries not yet downloaded |
| Downloader.PendingEmptyIffDone | MyrientDownloader/Services/Downloader.cs:51-60 | A round's work list is empty if and only if the loop condition is false |
| Downloader.VerifyArchive | MyrientDownloader/Services/Downloader.cs:102-113 | The loop over the manifest files gives the CRC gate's verdict |
| Downloader.Downloader.constructor | MyrientDownloader/Services/Downloader.cs:17-33 | Stores the configuration and the directory; no request, no progress task, and a zero counter |
| Downloader.Downloader.CopyStream | MyrientDownloader/Services/Downloader.cs:91-97 | The file ends as the body, or empty for a zero-length buffer. The bytes written are the read chunks concatenated, each 1 to chunkSize long, and the progress value is their total |
| Downloader.Downloader.Settle | MyrientDownloader/Services/Downloader.cs:100-133 | The gate and what follows leave files, flags, counter and outcome exactly as Transfer.Verify gives |
| Downloader.Downloader.Store | MyrientDownloader/Services/Downloader.cs:71-98 | Response check, resume check and copy leave files, flags, progress tasks and outcome exactly as Transfer.Receive gives |
| Downloader.Downloader.ProcessItem | MyrientDownloader/Services/Downloader.cs:64-133 | One item issues one GET for the entry's address and leaves the state exactly as Transfer.TransferItem gives |
| Downloader.Downloader.RunItem | MyrientDownloader/Services/Downloader.cs:62-134 | One item keeps the flag invariant and touches only its own entry; it advances the counter only without an exception, and then exactly when the entry is downloaded |
| Downloader.Downloader.RunBatch | MyrientDownloader/Services/Downloader.cs:59-136 | A round counts each item it completes once. Without an exception, each item is downloaded if and only if it was counted. Entries outside the list are untouched, and requests go only to listed addresses |
| Downloader.Downloader.Round | MyrientDownloader/Services/Downloader.cs:53-136 | One outer iteration over the undone matched entries adds the ones completed to the count; without an exception, exactly the counted or never-pending entries are downloaded |
| Downloader.Downloader.RunRounds | MyrientDownloader/Services/Downloader.cs:49-137 | The counter never exceeds the matched count. On completion every matched entry is downloaded, and the counter equals the number pending at the start |
| Downloader.Downloader.DownloadRoms | MyrientDownloader/Services/Downloader.cs:35-139 | A name the catalog lists and that is wanted twice makes the run fail with nothing changed. Otherwise the counter's maximum is the matched count, and completion means all matched are downloaded. Unmatched entries are untouched, and every request is for a matched entry |

## Left out

- HTTP and the retry policy (MyrientDownloader/MyrientDownloader.cs, Polly): the response to each request is the parameter `fetch`. A thrown exception and an unsuccessful status are both `success == false`.
- ParseDatFile (MyrientDownloader/Services/Parser.cs:18-22): XML deserialization is a library call. The model starts from the `DatFile` records.
- HtmlWeb.Load and `Uri` parsing: pages are the parameter `Pages`. A `Uri` is an opaque value built from a base and a reference.
- Zip internals: the directory format, CRC-32 computation and inflation are the parameter `ZipReader`. Directory entries and path escape during extraction are not modelled, and neither are exceptions thrown while extracting.
- Stream and file I/O errors in the middle of a transfer are not modelled. The body is a byte sequence, and the stream chooses how many bytes each read returns.
- Concurrency, `taskCount` and cancellation: a round runs its work list sequentially, in wanted order, and stops at the first exception. The model does not capture interleavings between items.
- `Dictionary` enumeration order does not affect the work list, which follows the wanted list.
- Console progress rendering and logging are left out. Progress tasks are recorded as values: description, maximum and final value.
- Transfer.Progress: the value is the uncapped number of bytes written. The console library's progress task may clamp its value to its maximum, which is the Content-Length (0 when the header is absent); that library is not part of this model.
- The command line, dependency injection and the missing-games summary (MyrientDownloader/MyrientDownloader.cs) are left out.
- The output directory's creation in the constructor (MyrientDownloader/Services/Downloader.cs:26-30) is left out; the directory is a map of files.
- Paths use '/' as the only separator. No root other than a leading '/' is recognised.
- Transfer.VerifyMismatch and Downloader.Downloader.Settle assume POSIX file deletion. On a mismatch the archive is deleted (MyrientDownloader/Services/Downloader.cs:109) while the zip reader still holds it open. POSIX allows that. On Windows the delete throws, which would end the run and leave the file and flags as they were; that platform is not modelled.
- Downloader.Downloader.DownloadRoms: the outer loop runs at most `fuel` rounds, because the source loop need not terminate (a permanently corrupt archive is retried forever). `OutOfFuel` promises only the invariants.
- Downloader.Downloader.RunRounds: bounded by `fuel` in the same way.
