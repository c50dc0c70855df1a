/**
 * The per-archive procedure of `Downloader.DownloadRoms` (MyrientDownloader/Services/Downloader.cs)
 * as a function of the state before it: the resume check, the streamed copy, the CRC gate over the
 * manifest's files, and the optional extraction. The class in module Downloader runs it step by
 * step and is proved to end in the state this function gives.
 */
module Transfer {
  import opened Wrappers
  import opened DatFile
  import Paths

  newtype byte = x: int | 0 <= x < 256

  /** The output directory's files: full path to contents. */
  type FileSystem = map<string, seq<byte>>

  /** One GET read up to its headers: whether it succeeded (no exception, success status), Content-Length, and the body. */
  datatype Response = Response(success: bool, contentLength: Option<nat>, body: seq<byte>)

  /** One zip entry: its full name, the CRC-32 stored for it, and its uncompressed bytes. */
  datatype ZipEntry = ZipEntry(name: string, crc: uint32, data: seq<byte>)

  /** Opening bytes as a zip archive: its entries in directory order, or None when they are not one. */
  type ZipReader = seq<byte> -> Option<seq<ZipEntry>>

  /** The two lifecycle flags of an entry. */
  datatype Flags = Flags(downloaded: bool, unzipped: bool)

  /** A per-download progress task: its description, its maximum (the Content-Length) and its value. */
  datatype Progress = Progress(description: string, maxValue: nat, value: nat)

  /** The exceptions that end an item (and, through the parallel loop, the whole run). */
  datatype TransferError =
    | HttpFailure                  // GetAsync threw, or EnsureSuccessStatusCode did
    | BufferSize                   // `new byte[chunkSize]` with a negative size
    | FileMissing                  // File.OpenRead found no file at the output path
    | InvalidArchive               // the file is not a readable zip archive
    | MissingEntry(name: string)   // GetEntry gave null and `!` let it be dereferenced
    | BadCrc(error: DatError)      // `rom.Crc` threw

  datatype Outcome = Pass | Fail(error: TransferError)

  /** The result of the CRC gate: all files match, or the first file that fails and how. */
  datatype Verdict =
    | AllMatch
    | Mismatch(index: nat)
    | NoEntry(index: nat)
    | Unparsable(index: nat, error: DatError)

  /** The state one item leaves behind. `completed` says the overall counter advanced. */
  datatype Step = Step(files: FileSystem, flags: Flags, transfer: Option<Progress>, completed: bool, outcome: Outcome)

  /** The flag invariant: an entry is only ever unzipped after it was downloaded. */
  predicate Consistent(f: Flags) {
    f.unzipped ==> f.downloaded
  }

  function Concat(chunks: seq<seq<byte>>): seq<byte> {
    if chunks == [] then [] else Concat(chunks[..|chunks| - 1]) + chunks[|chunks| - 1]
  }

  /** What the copy loop writes: the whole body, except that a zero-length buffer reads nothing at all. */
  function Received(body: seq<byte>, chunkSize: int): seq<byte> {
    if chunkSize == 0 then [] else body
  }

  /** ZipArchive.GetEntry: the first entry with exactly that name. */
  function GetEntry(entries: seq<ZipEntry>, name: string): (r: Option<ZipEntry>)
    ensures r.None? <==> forall j | 0 <= j < |entries| :: entries[j].name != name
    ensures r.Some? ==> exists j | 0 <= j < |entries| ::
              entries[j] == r.value && entries[j].name == name &&
              forall k | 0 <= k < j :: entries[k].name != name
  {
    if entries == [] then None
    else if entries[0].name == name then Some(entries[0])
    else
      var r := GetEntry(entries[1..], name);
      assert forall j | 1 <= j < |entries| :: entries[j] == entries[1..][j - 1];
      r
  }

  /** A manifest file is present in the archive and its parsed CRC equals the stored one. */
  predicate RomMatches(entries: seq<ZipEntry>, rom: Rom) {
    var e := GetEntry(entries, rom.fileName);
    e.Some? && Crc(rom) == Success(e.value.crc)
  }

  /** The gate over `roms[i..]` in manifest order: the first file that is missing, unparsable or different. */
  function CheckFrom(entries: seq<ZipEntry>, roms: seq<Rom>, i: nat): (v: Verdict)
    requires i <= |roms|
    ensures v.AllMatch? <==> forall k | i <= k < |roms| :: RomMatches(entries, roms[k])
    ensures !v.AllMatch? ==>
              && i <= v.index < |roms|
              && (forall k | i <= k < v.index :: RomMatches(entries, roms[k]))
              && !RomMatches(entries, roms[v.index])
    ensures v.NoEntry? ==> GetEntry(entries, roms[v.index].fileName).None?
    ensures v.Unparsable? ==>
              GetEntry(entries, roms[v.index].fileName).Some? && Crc(roms[v.index]) == Failure(v.error)
    ensures v.Mismatch? ==>
              var e := GetEntry(entries, roms[v.index].fileName);
              e.Some? && Crc(roms[v.index]).Success? && Crc(roms[v.index]).value != e.value.crc
    decreases |roms| - i
  {
    if i == |roms| then AllMatch
    else
      var e := GetEntry(entries, roms[i].fileName);
      if e.None? then NoEntry(i)
      else
        var crc := Crc(roms[i]);
        if crc.Failure? then Unparsable(i, crc.error)
        else if e.value.crc != crc.value then Mismatch(i)
        else CheckFrom(entries, roms, i + 1)
  }

  function Check(entries: seq<ZipEntry>, roms: seq<Rom>): Verdict {
    CheckFrom(entries, roms, 0)
  }

  /** Where an entry lands when extracted into `target`. */
  function EntryPath(target: string, e: ZipEntry): string {
    Paths.Join(target, e.name)
  }

  /** ExtractToDirectory with overwrite: the entries are written in order, a later one replacing an earlier one. */
  function Extract(files: FileSystem, target: string, entries: seq<ZipEntry>): FileSystem
    decreases |entries|
  {
    if entries == [] then files
    else Extract(files[EntryPath(target, entries[0]) := entries[0].data], target, entries[1..])
  }

  /** The paths extraction writes to. */
  function Written(target: string, entries: seq<ZipEntry>): set<string> {
    set j | 0 <= j < |entries| :: EntryPath(target, entries[j])
  }

  lemma WrittenCons(target: string, entries: seq<ZipEntry>)
    requires entries != []
    ensures Written(target, entries) == {EntryPath(target, entries[0])} + Written(target, entries[1..])
  {
    var rest := entries[1..];
    forall p | p in Written(target, entries) ensures p in {EntryPath(target, entries[0])} + Written(target, rest) {
      var j :| 0 <= j < |entries| && p == EntryPath(target, entries[j]);
      if j > 0 {
        assert entries[j] == rest[j - 1];
      }
    }
    forall p | p in Written(target, rest) ensures p in Written(target, entries) {
      var j :| 0 <= j < |rest| && p == EntryPath(target, rest[j]);
      assert rest[j] == entries[j + 1];
    }
  }

  /** Extraction adds exactly one file per entry path to the directory. */
  lemma {:induction false} ExtractKeys(files: FileSystem, target: string, entries: seq<ZipEntry>)
    ensures Extract(files, target, entries).Keys == files.Keys + Written(target, entries)
    decreases |entries|
  {
    if entries != [] {
      WrittenCons(target, entries);
      ExtractKeys(files[EntryPath(target, entries[0]) := entries[0].data], target, entries[1..]);
    }
  }

  /** Extraction leaves every file that no entry is written to as it was. */
  lemma {:induction false} ExtractKeeps(files: FileSystem, target: string, entries: seq<ZipEntry>)
    ensures forall p | p in files && p !in Written(target, entries) ::
              p in Extract(files, target, entries) && Extract(files, target, entries)[p] == files[p]
    decreases |entries|
  {
    if entries != [] {
      WrittenCons(target, entries);
      ExtractKeeps(files[EntryPath(target, entries[0]) := entries[0].data], target, entries[1..]);
    }
  }

  /** With overwrite, a path holds the data of the last entry written to it. */
  lemma {:induction false} ExtractLast(files: FileSystem, target: string, entries: seq<ZipEntry>, j: nat)
    requires j < |entries|
    requires forall k | j < k < |entries| :: EntryPath(target, entries[k]) != EntryPath(target, entries[j])
    ensures EntryPath(target, entries[j]) in Extract(files, target, entries)
    ensures Extract(files, target, entries)[EntryPath(target, entries[j])] == entries[j].data
    decreases |entries|
  {
    var rest := entries[1..];
    var files' := files[EntryPath(target, entries[0]) := entries[0].data];
    if j == 0 {
      forall p | p in Written(target, rest) ensures p != EntryPath(target, entries[0]) {
        var k :| 0 <= k < |rest| && p == EntryPath(target, rest[k]);
        assert rest[k] == entries[k + 1];
      }
      ExtractKeeps(files', target, rest);
    } else {
      forall k | j - 1 < k < |rest| ensures EntryPath(target, rest[k]) != EntryPath(target, rest[j - 1]) {
        assert rest[k] == entries[k + 1];
      }
      ExtractLast(files', target, rest, j - 1);
    }
  }

  /** The extraction directory: a subdirectory named after the game for a multi-entry archive, else the output directory. */
  function Target(outputDir: string, name: string, entries: seq<ZipEntry>): string {
    if |entries| > 1 then Paths.Join(outputDir, name) else outputDir
  }

  /**
   * The CRC gate and the keep-or-extract step: open the archive at `path`, gate it on the manifest's
   * CRCs, then keep or extract it.
   */
  function Verify(files: FileSystem, flags: Flags, path: string, outputDir: string, game: Game,
                  readZip: ZipReader, unzip: bool): Step
  {
    if path !in files then Step(files, flags, None, false, Fail(FileMissing))
    else match readZip(files[path])
      case None => Step(files, flags, None, false, Fail(InvalidArchive))
      case Some(entries) =>
        match Check(entries, game.roms)
        case NoEntry(i) => Step(files, flags, None, false, Fail(MissingEntry(game.roms[i].fileName)))
        case Unparsable(_, error) => Step(files, flags, None, false, Fail(BadCrc(error)))
        case Mismatch(_) => Step(files - {path}, Flags(false, false), None, false, Pass)
        case AllMatch =>
          if !unzip then Step(files, flags.(downloaded := true), None, true, Pass)
          else
            var extracted := Extract(files, Target(outputDir, game.name, entries), entries);
            Step(extracted - {path}, Flags(true, true), None, true, Pass)
  }

  /** Whether the resume check trusts the file already at `path`: it exists and has the announced length. */
  predicate Resumable(files: FileSystem, path: string, size: nat) {
    path in files && |files[path]| == size
  }

  /**
   * The response and resume checks and the streamed copy, ending with `Pass` when the gate is to run
   * next: the response status, the resume check against the announced length, and the copy itself.
   */
  function Receive(files: FileSystem, flags: Flags, path: string, name: string, response: Response,
                   chunkSize: int): Step
  {
    if !response.success then Step(files, flags, None, false, Fail(HttpFailure))
    else
      var size := response.contentLength.GetOr(0);
      var resumed := Resumable(files, path, size);
      var flags1 := if resumed then flags.(downloaded := true) else flags;
      var files1 := if path in files && !resumed then files - {path} else files;
      if flags1.downloaded then Step(files1, flags1, None, false, Pass)
      else if chunkSize < 0 then
        Step(files1[path := []], flags1, Some(Progress(name, size, 0)), false, Fail(BufferSize))
      else
        var received := Received(response.body, chunkSize);
        Step(files1[path := received], flags1, Some(Progress(name, size, |received|)), false, Pass)
  }

  /** The whole procedure for one matched game, from the state before it. */
  function TransferItem(files: FileSystem, flags: Flags, outputDir: string, game: Game, fileName: string,
                        response: Response, readZip: ZipReader, chunkSize: int, unzip: bool): Step
  {
    var path := Paths.Combine(outputDir, fileName);
    var r := Receive(files, flags, path, game.name, response, chunkSize);
    if r.outcome.Fail? then r
    else Verify(r.files, r.flags, path, outputDir, game, readZip, unzip).(transfer := r.transfer)
  }

  // ---------------------------------------------------------------------------------------------
  // Properties of one item

  /** No step breaks `Unzipped ==> Downloaded`. */
  lemma TransferKeepsConsistent(files: FileSystem, flags: Flags, outputDir: string, game: Game, fileName: string,
                                response: Response, readZip: ZipReader, chunkSize: int, unzip: bool)
    requires Consistent(flags)
    ensures Consistent(TransferItem(files, flags, outputDir, game, fileName, response, readZip, chunkSize, unzip).flags)
  {
  }

  /**
   * The counter advances only on success, and an item that ends without an exception is downloaded
   * exactly when it advanced the counter.
   */
  lemma TransferCompletion(files: FileSystem, flags: Flags, outputDir: string, game: Game, fileName: string,
                           response: Response, readZip: ZipReader, chunkSize: int, unzip: bool)
    ensures var st := TransferItem(files, flags, outputDir, game, fileName, response, readZip, chunkSize, unzip);
            && (st.completed ==> st.outcome.Pass?)
            && (st.outcome.Pass? ==> (st.completed <==> st.flags.downloaded))
  {
  }

  /**
   * Resume check: a file already of the announced length (0 without the header) is not streamed
   * again; the item is marked downloaded and goes straight to the CRC gate on those bytes.
   */
  lemma TransferResumes(files: FileSystem, flags: Flags, outputDir: string, game: Game, fileName: string,
                        response: Response, readZip: ZipReader, chunkSize: int, unzip: bool)
    requires response.success
    requires Resumable(files, Paths.Combine(outputDir, fileName), response.contentLength.GetOr(0))
    ensures TransferItem(files, flags, outputDir, game, fileName, response, readZip, chunkSize, unzip) ==
            Verify(files, flags.(downloaded := true), Paths.Combine(outputDir, fileName), outputDir, game,
                   readZip, unzip)
  {
  }

  /**
   * A missing file or one of any other length is (deleted and) replaced by the streamed body, and the
   * item's progress task ends at the number of bytes written; the gate then reads those bytes.
   */
  lemma TransferStreams(files: FileSystem, flags: Flags, outputDir: string, game: Game, fileName: string,
                        response: Response, readZip: ZipReader, chunkSize: int, unzip: bool)
    requires response.success && !flags.downloaded && chunkSize >= 0
    requires !Resumable(files, Paths.Combine(outputDir, fileName), response.contentLength.GetOr(0))
    ensures var path := Paths.Combine(outputDir, fileName);
            var received := Received(response.body, chunkSize);
            && (chunkSize > 0 ==> received == response.body)
            && TransferItem(files, flags, outputDir, game, fileName, response, readZip, chunkSize, unzip) ==
               Verify(files[path := received], flags, path, outputDir, game, readZip, unzip)
                 .(transfer := Some(Progress(game.name, response.contentLength.GetOr(0), |received|)))
  {
    var path := Paths.Combine(outputDir, fileName);
    if path in files {
      assert (files - {path})[path := Received(response.body, chunkSize)] == files[path := Received(response.body, chunkSize)];
    }
  }

  /** An unsuccessful response changes nothing but ends the item with an exception. */
  lemma TransferHttpFailure(files: FileSystem, flags: Flags, outputDir: string, game: Game, fileName: string,
                            response: Response, readZip: ZipReader, chunkSize: int, unzip: bool)
    requires !response.success
    ensures TransferItem(files, flags, outputDir, game, fileName, response, readZip, chunkSize, unzip) ==
            Step(files, flags, None, false, Fail(HttpFailure))
  {
  }

  /** CRC gate, failing case: the archive is deleted, both flags are cleared, and the counter is left alone. */
  lemma VerifyMismatch(files: FileSystem, flags: Flags, path: string, outputDir: string, game: Game,
                       readZip: ZipReader, unzip: bool)
    requires path in files && readZip(files[path]).Some?
    requires Check(readZip(files[path]).value, game.roms).Mismatch?
    ensures var st := Verify(files, flags, path, outputDir, game, readZip, unzip);
            && path !in st.files && st.files == files - {path}
            && st.flags == Flags(false, false)
            && !st.completed && st.outcome == Pass
  {
  }

  /** CRC gate: a manifest file the archive lacks raises an error instead, leaving files and flags as they were. */
  lemma VerifyMissingEntry(files: FileSystem, flags: Flags, path: string, outputDir: string, game: Game,
                           readZip: ZipReader, unzip: bool, i: nat)
    requires path in files && readZip(files[path]).Some?
    requires i < |game.roms| && (forall k | 0 <= k < i :: RomMatches(readZip(files[path]).value, game.roms[k]))
    requires GetEntry(readZip(files[path]).value, game.roms[i].fileName).None?
    ensures var st := Verify(files, flags, path, outputDir, game, readZip, unzip);
            && st.outcome == Fail(MissingEntry(game.roms[i].fileName))
            && st.files == files && st.flags == flags && !st.completed
  {
    var v := Check(readZip(files[path]).value, game.roms);
    assert !RomMatches(readZip(files[path]).value, game.roms[i]);
    assert v.NoEntry? && v.index == i;
  }

  /** Without unzip, a verified archive stays on disk, is downloaded, `Unzipped` is untouched, and the counter advances. */
  lemma VerifyKeeps(files: FileSystem, flags: Flags, path: string, outputDir: string, game: Game,
                    readZip: ZipReader)
    requires path in files && readZip(files[path]).Some?
    requires forall k | 0 <= k < |game.roms| :: RomMatches(readZip(files[path]).value, game.roms[k])
    ensures var st := Verify(files, flags, path, outputDir, game, readZip, false);
            && st.files == files
            && st.flags == Flags(true, flags.unzipped)
            && st.completed && st.outcome == Pass
  {
  }

  /**
   * With unzip, a verified archive is extracted (into a subdirectory named after the game when it has
   * more than one entry), then deleted; both flags are set and the counter advances.
   */
  lemma VerifyExtracts(files: FileSystem, flags: Flags, path: string, outputDir: string, game: Game,
                       readZip: ZipReader)
    requires path in files && readZip(files[path]).Some?
    requires forall k | 0 <= k < |game.roms| :: RomMatches(readZip(files[path]).value, game.roms[k])
    ensures var entries := readZip(files[path]).value;
            var target := if |entries| > 1 then Paths.Join(outputDir, game.name) else outputDir;
            var st := Verify(files, flags, path, outputDir, game, readZip, true);
            && st.files == Extract(files, target, entries) - {path}
            && path !in st.files
            && st.flags == Flags(true, true)
            && st.completed && st.outcome == Pass
  {
  }
}
