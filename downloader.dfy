/**
 * MyrientDownloader/Services/Downloader.cs: match the wanted games against the resolved catalog,
 * then run rounds over every matched game not yet downloaded until none is left. Each item is
 * fetched, resumed or streamed to disk, CRC-checked against its manifest, and kept or extracted.
 */
module Downloader {
  import opened Wrappers
  import opened Metadata
  import opened DatFile
  import opened Transfer
  import Paths

  /** Why a run stops early. */
  datatype RunError =
    | DuplicateName(name: string)      // `ToDictionary` met a wanted game name twice
    | ItemFailed(error: TransferError) // an item threw, which ends the parallel loop and the run

  datatype RunOutcome = Done | OutOfFuel | Failed(error: RunError)

  // ---------------------------------------------------------------------------------------------
  // Matching the wanted list against the catalog

  /** No two wanted games that the catalog lists share a name. */
  predicate DistinctPresent(remote: map<string, MyrientMetadata>, wanted: seq<Game>) {
    forall j, k | 0 <= j < k < |wanted| && wanted[j].name in remote && wanted[k].name in remote ::
      wanted[j].name != wanted[k].name
  }

  /** The names of the wanted games that the catalog lists. */
  function PresentNames(remote: map<string, MyrientMetadata>, wanted: seq<Game>): set<string> {
    set g | g in wanted && g.name in remote :: g.name
  }

  /** `FindAll(listed).ToDictionary(name, remote[name])`, scanning the remaining wanted games into `acc`. */
  function MatchFrom(remote: map<string, MyrientMetadata>, wanted: seq<Game>, acc: map<string, MyrientMetadata>)
    : Result<map<string, MyrientMetadata>, RunError>
    decreases |wanted|
  {
    if wanted == [] then Success(acc)
    else
      var name := wanted[0].name;
      if name !in remote then MatchFrom(remote, wanted[1..], acc)
      else if name in acc then Failure(DuplicateName(name))
      else MatchFrom(remote, wanted[1..], acc[name := remote[name]])
  }

  function Match(remote: map<string, MyrientMetadata>, wanted: seq<Game>): Result<map<string, MyrientMetadata>, RunError> {
    MatchFrom(remote, wanted, map[])
  }

  /** Distinctness of the listed names, one game at a time. */
  lemma DistinctPresentCons(remote: map<string, MyrientMetadata>, wanted: seq<Game>)
    requires wanted != []
    ensures DistinctPresent(remote, wanted) <==>
              && DistinctPresent(remote, wanted[1..])
              && (wanted[0].name in remote ==> forall g | g in wanted[1..] && g.name in remote :: g.name != wanted[0].name)
  {
    var rest := wanted[1..];
    assert forall j | 1 <= j < |wanted| :: wanted[j] == rest[j - 1];
    if DistinctPresent(remote, wanted) {
      forall j, k | 0 <= j < k < |rest| && rest[j].name in remote && rest[k].name in remote
        ensures rest[j].name != rest[k].name
      {
        assert rest[j] == wanted[j + 1] && rest[k] == wanted[k + 1];
      }
      forall g | g in rest && g.name in remote ensures g.name != wanted[0].name {
        var k :| 0 <= k < |rest| && rest[k] == g;
        assert wanted[k + 1] == g;
      }
    }
  }

  lemma {:induction false} MatchFromSucceeds(remote: map<string, MyrientMetadata>, wanted: seq<Game>,
                                             acc: map<string, MyrientMetadata>)
    ensures MatchFrom(remote, wanted, acc).Success? <==>
              && DistinctPresent(remote, wanted)
              && forall g | g in wanted && g.name in remote :: g.name !in acc
    decreases |wanted|
  {
    if wanted != [] {
      var w := wanted[0];
      var rest := wanted[1..];
      assert forall g :: g in wanted <==> g == w || g in rest;
      DistinctPresentCons(remote, wanted);
      if w.name !in remote {
        MatchFromSucceeds(remote, rest, acc);
      } else if w.name in acc {
        assert MatchFrom(remote, wanted, acc).Failure?;
      } else {
        MatchFromSucceeds(remote, rest, acc[w.name := remote[w.name]]);
      }
    }
  }

  lemma {:induction false} MatchFromContents(remote: map<string, MyrientMetadata>, wanted: seq<Game>,
                                             acc: map<string, MyrientMetadata>)
    requires forall k | k in acc :: k in remote && acc[k] == remote[k]
    requires MatchFrom(remote, wanted, acc).Success?
    ensures var m := MatchFrom(remote, wanted, acc).value;
            && m.Keys == acc.Keys + PresentNames(remote, wanted)
            && forall k | k in m :: k in remote && m[k] == remote[k]
    decreases |wanted|
  {
    if wanted != [] {
      var w := wanted[0];
      var rest := wanted[1..];
      assert forall g :: g in wanted <==> g == w || g in rest;
      if w.name !in remote {
        MatchFromContents(remote, rest, acc);
        assert PresentNames(remote, wanted) == PresentNames(remote, rest);
      } else {
        MatchFromContents(remote, rest, acc[w.name := remote[w.name]]);
        assert PresentNames(remote, wanted) == {w.name} + PresentNames(remote, rest);
      }
    }
  }

  /**
   * Matching succeeds exactly when no listed name is wanted twice; the matched map then holds every
   * wanted game the catalog lists, each bound to the catalog's own entry object.
   */
  lemma MatchSpec(remote: map<string, MyrientMetadata>, wanted: seq<Game>)
    ensures Match(remote, wanted).Success? <==> DistinctPresent(remote, wanted)
    ensures Match(remote, wanted).Success? ==>
              var m := Match(remote, wanted).value;
              && m.Keys == PresentNames(remote, wanted)
              && forall k | k in m :: k in remote && m[k] == remote[k]
  {
    MatchFromSucceeds(remote, wanted, map[]);
    if Match(remote, wanted).Success? {
      MatchFromContents(remote, wanted, map[]);
    }
  }

  /** A name wanted twice makes matching fail, whatever else the list holds. */
  lemma MatchDuplicateFails(remote: map<string, MyrientMetadata>, wanted: seq<Game>, j: nat, k: nat)
    requires j < k < |wanted| && wanted[j].name == wanted[k].name && wanted[j].name in remote
    ensures Match(remote, wanted).Failure?
  {
    MatchSpec(remote, wanted);
  }

  // ---------------------------------------------------------------------------------------------
  // The per-round work list and the loop condition

  /** `FindAll(listed && !Downloaded)`: the work of one round, in wanted order. */
  function Pending(remote: map<string, MyrientMetadata>, wanted: seq<Game>): (r: seq<Game>)
    reads remote.Values
    ensures forall g :: g in r <==> g in wanted && g.name in remote && !remote[g.name].downloaded
    ensures DistinctPresent(remote, wanted) ==> forall j, k | 0 <= j < k < |r| :: r[j].name != r[k].name
    decreases |wanted|
  {
    if wanted == [] then []
    else
      var rest := Pending(remote, wanted[1..]);
      assert DistinctPresent(remote, wanted) ==> DistinctPresent(remote, wanted[1..]) by {
        if DistinctPresent(remote, wanted) {
          forall j, k | 0 <= j < k < |wanted[1..]| && wanted[1..][j].name in remote && wanted[1..][k].name in remote
            ensures wanted[1..][j].name != wanted[1..][k].name
          {
            assert wanted[1..][j] == wanted[j + 1] && wanted[1..][k] == wanted[k + 1];
          }
        }
      }
      if wanted[0].name in remote && !remote[wanted[0].name].downloaded then
        assert DistinctPresent(remote, wanted) ==> forall g | g in rest :: g.name != wanted[0].name by {
          if DistinctPresent(remote, wanted) {
            forall g | g in rest ensures g.name != wanted[0].name {
              var k :| 0 <= k < |wanted[1..]| && wanted[1..][k] == g;
              assert wanted[k + 1] == g;
            }
          }
        }
        [wanted[0]] + rest
      else rest
  }

  /** The names of a list of games. */
  function NamesOf(games: seq<Game>): set<string> {
    set j | 0 <= j < |games| :: games[j].name
  }

  function PendingNames(remote: map<string, MyrientMetadata>, wanted: seq<Game>): (r: set<string>)
    reads remote.Values
    ensures r <= remote.Keys
  {
    NamesOf(Pending(remote, wanted))
  }

  /** The matched names whose entries are not yet downloaded. */
  function Undone(m: map<string, MyrientMetadata>): set<string>
    reads m.Values
  {
    set t | t in m && !m[t].downloaded
  }

  /** `matchingRoms.Values.Any(x => !x.Downloaded)`. */
  predicate AnyUndone(m: map<string, MyrientMetadata>)
    reads m.Values
  {
    exists t | t in m :: !m[t].downloaded
  }

  /** A round's work list covers exactly the matched entries not yet downloaded. */
  lemma PendingIsUndone(remote: map<string, MyrientMetadata>, wanted: seq<Game>, m: map<string, MyrientMetadata>)
    requires m.Keys == PresentNames(remote, wanted)
    requires forall k | k in m :: k in remote && m[k] == remote[k]
    ensures PendingNames(remote, wanted) == Undone(m)
  {
    forall t | t in Undone(m) ensures t in PendingNames(remote, wanted) {
      var g :| g in wanted && g.name in remote && g.name == t;
      assert g in Pending(remote, wanted);
    }
  }

  /** The seq of wanted games only decides names: a round's work list is empty exactly when nothing matched is undone. */
  lemma PendingEmptyIffDone(remote: map<string, MyrientMetadata>, wanted: seq<Game>, m: map<string, MyrientMetadata>)
    requires m.Keys == PresentNames(remote, wanted)
    requires forall k | k in m :: k in remote && m[k] == remote[k]
    ensures Pending(remote, wanted) == [] <==> !AnyUndone(m)
  {
    PendingIsUndone(remote, wanted, m);
    if Pending(remote, wanted) != [] {
      assert Pending(remote, wanted)[0].name in PendingNames(remote, wanted);
    }
  }

  /** The catalog entries' objects are pairwise distinct, as the resolver builds them. */
  predicate DistinctObjects(remote: map<string, MyrientMetadata>) {
    forall a, b | a in remote && b in remote && a != b :: remote[a] != remote[b]
  }

  predicate AllConsistent(remote: map<string, MyrientMetadata>)
    reads remote.Values
  {
    forall t | t in remote :: Consistent(Flags(remote[t].downloaded, remote[t].unzipped))
  }

  /** The addresses of the named entries. */
  function UrisOf(remote: map<string, MyrientMetadata>, names: set<string>): set<Uri> {
    set t | t in names && t in remote :: remote[t].uri
  }

  lemma {:induction false} SubsetCard<T>(a: set<T>, b: set<T>)
    requires a <= b
    ensures |a| <= |b|
    decreases |b|
  {
    if a != {} {
      var x :| x in a;
      SubsetCard(a - {x}, b - {x});
    }
  }

  /** The CRC gate as the source runs it: the manifest's files in order, stopping at the first that fails. */
  method VerifyArchive(entries: seq<ZipEntry>, roms: seq<Rom>) returns (v: Verdict)
    ensures v == Check(entries, roms)
  {
    var i := 0;
    while i < |roms|
      invariant 0 <= i <= |roms|
      invariant CheckFrom(entries, roms, i) == Check(entries, roms)
    {
      var e := GetEntry(entries, roms[i].fileName);
      if e.None? {
        return NoEntry(i);
      }
      var crc := Crc(roms[i]);
      if crc.Failure? {
        return Unparsable(i, crc.error);
      }
      if e.value.crc != crc.value {
        return Mismatch(i);
      }
      i := i + 1;
    }
    return AllMatch;
  }

  /**
   * The downloader's state. HTTP, the zip reader and the output directory are given: `fetch(u, n)`
   * is the response to the `n`-th request of the run, made for address `u`.
   */
  class Downloader {
    const outputPath: string
    const chunkSize: int
    const fetch: (Uri, nat) -> Response
    const readZip: ZipReader
    /** The output directory's files. */
    var files: FileSystem
    /** Every GET issued, in order. */
    var requests: seq<Uri>
    /** The per-download progress tasks, in order of creation. */
    var transfers: seq<Progress>
    /** The overall progress task: its value and its maximum. */
    var overall: nat
    var overallTotal: nat

    constructor (outputPath: string, chunkSize: int, fetch: (Uri, nat) -> Response, readZip: ZipReader,
                 files: FileSystem)
      ensures this.outputPath == outputPath && this.chunkSize == chunkSize
      ensures this.fetch == fetch && this.readZip == readZip && this.files == files
      ensures requests == [] && transfers == [] && overall == 0 && overallTotal == 0
    {
      this.outputPath := outputPath;
      this.chunkSize := chunkSize;
      this.fetch := fetch;
      this.readZip := readZip;
      this.files := files;
      requests := [];
      transfers := [];
      overall := 0;
      overallTotal := 0;
    }

    /**
     * The copy loop: each read returns between one byte and the buffer's size while the body has
     * bytes left (how many is the stream's choice), and is appended to the file; a zero-length
     * buffer reads nothing. It returns the progress task's final value.
     */
    method CopyStream(path: string, body: seq<byte>) returns (written: nat, ghost chunks: seq<seq<byte>>)
      requires chunkSize >= 0
      requires path in files && files[path] == []
      modifies this`files
      ensures files == old(files)[path := Received(body, chunkSize)]
      ensures written == |Received(body, chunkSize)|
      ensures Concat(chunks) == Received(body, chunkSize)
      ensures forall c | c in chunks :: 1 <= |c| <= chunkSize
    {
      var pos := 0;
      written := 0;
      chunks := [];
      while true
        invariant 0 <= pos <= |body|
        invariant chunkSize == 0 ==> pos == 0
        invariant files == old(files)[path := body[..pos]]
        invariant written == pos
        invariant Concat(chunks) == body[..pos]
        invariant forall c | c in chunks :: 1 <= |c| <= chunkSize
        decreases |body| - pos
      {
        var bytesRead := 0;
        if chunkSize > 0 && pos < |body| {
          bytesRead :| 1 <= bytesRead <= chunkSize && bytesRead <= |body| - pos;
        }
        if bytesRead == 0 {
          break;
        }
        var chunk := body[pos..pos + bytesRead];
        files := files[path := files[path] + chunk];
        written := written + bytesRead;
        assert body[..pos] + chunk == body[..pos + bytesRead];
        chunks := chunks + [chunk];
        pos := pos + bytesRead;
      }
      assert pos == |body| || chunkSize == 0;
      assert body[..|body|] == body;
    }

    /**
     * The CRC gate and what follows it, on the file at `path`: the state it leaves is exactly
     * `Transfer.Verify` of the state before.
     */
    method Settle(x: Game, rom: MyrientMetadata, path: string, unzip: bool) returns (o: Outcome)
      modifies this`files, this`overall, rom
      ensures var st := Verify(old(files), Flags(old(rom.downloaded), old(rom.unzipped)), path, outputPath, x,
                               readZip, unzip);
              && files == st.files
              && rom.downloaded == st.flags.downloaded && rom.unzipped == st.flags.unzipped
              && overall == old(overall) + (if st.completed then 1 else 0)
              && o == st.outcome
    {
      if path !in files {
        return Fail(FileMissing);
      }
      var zip := readZip(files[path]);
      if zip.None? {
        return Fail(InvalidArchive);
      }
      var entries := zip.value;
      var verdict := VerifyArchive(entries, x.roms);
      match verdict {
        case NoEntry(i) =>
          return Fail(MissingEntry(x.roms[i].fileName));
        case Unparsable(_, error) =>
          return Fail(BadCrc(error));
        case Mismatch(_) =>
          files := files - {path};
          rom.downloaded, rom.unzipped := false, false;
          return Pass;
        case AllMatch =>
      }
      rom.downloaded := true;
      if !unzip {
        overall := overall + 1;
        return Pass;
      }
      files := Extract(files, Target(outputPath, x.name, entries), entries);
      files := files - {path};
      rom.unzipped := true;
      overall := overall + 1;
      return Pass;
    }

    /**
     * The response check, the resume check and the streamed copy to `path`: the state it leaves is
     * exactly `Transfer.Receive` of the state before.
     */
    method Store(x: Game, rom: MyrientMetadata, path: string, response: Response) returns (o: Outcome)
      modifies this`files, this`transfers, rom
      ensures var st := Receive(old(files), Flags(old(rom.downloaded), old(rom.unzipped)), path, x.name,
                                response, chunkSize);
              && files == st.files
              && rom.downloaded == st.flags.downloaded && rom.unzipped == st.flags.unzipped
              && transfers == old(transfers) + (if st.transfer.Some? then [st.transfer.value] else [])
              && o == st.outcome
    {
      if !response.success {
        return Fail(HttpFailure);
      }
      var fileSize := response.contentLength.GetOr(0);
      if path in files {
        if |files[path]| == fileSize {
          rom.downloaded := true;
        } else {
          files := files - {path};
        }
      }
      if !rom.downloaded {
        ghost var kept := files;
        files := files[path := []];
        if chunkSize < 0 {
          transfers := transfers + [Progress(x.name, fileSize, 0)];
          return Fail(BufferSize);
        }
        var written, _ := CopyStream(path, response.body);
        assert files == kept[path := Received(response.body, chunkSize)];
        transfers := transfers + [Progress(x.name, fileSize, written)];
      }
      return Pass;
    }

    /**
     * One item of the parallel loop, run to its end: fetch, resume check, streamed copy, then the
     * gate. The state it leaves is exactly `Transfer.TransferItem` of the state before.
     */
    method ProcessItem(x: Game, rom: MyrientMetadata, unzip: bool) returns (o: Outcome)
      modifies this, rom
      ensures var st := TransferItem(old(files), Flags(old(rom.downloaded), old(rom.unzipped)), outputPath, x,
                                     rom.fileName, fetch(rom.uri, old(|requests|)), readZip, chunkSize, unzip);
              && files == st.files
              && rom.downloaded == st.flags.downloaded && rom.unzipped == st.flags.unzipped
              && transfers == old(transfers) + (if st.transfer.Some? then [st.transfer.value] else [])
              && overall == old(overall) + (if st.completed then 1 else 0)
              && o == st.outcome
      ensures requests == old(requests) + [rom.uri]
      ensures overallTotal == old(overallTotal)
    {
      var path := Paths.Combine(outputPath, rom.fileName);
      var response := fetch(rom.uri, |requests|);
      requests := requests + [rom.uri];
      o := Store(x, rom, path, response);
      if o.Fail? {
        return;
      }
      o := Settle(x, rom, path, unzip);
    }

    /**
     * ProcessItem for the catalog entry of `x`, seen from the round: it keeps the flag invariant,
     * touches no other entry, and advances the counter (`completed`) only when it does not throw,
     * in which case the entry is downloaded exactly when it did.
     */
    method RunItem(remote: map<string, MyrientMetadata>, x: Game, unzip: bool) returns (o: Outcome, ghost completed: bool)
      requires x.name in remote && AllConsistent(remote) && DistinctObjects(remote)
      modifies this, remote[x.name]
      ensures AllConsistent(remote)
      ensures completed ==> o.Pass?
      ensures o.Pass? ==> (completed <==> remote[x.name].downloaded)
      ensures overall == old(overall) + (if completed then 1 else 0)
      ensures overallTotal == old(overallTotal)
      ensures requests == old(requests) + [remote[x.name].uri]
      ensures forall t | t in remote && t != x.name ::
                remote[t].downloaded == old(remote[t].downloaded) && remote[t].unzipped == old(remote[t].unzipped)
    {
      var rom := remote[x.name];
      ghost var flags := Flags(rom.downloaded, rom.unzipped);
      ghost var response := fetch(rom.uri, |requests|);
      TransferKeepsConsistent(files, flags, outputPath, x, rom.fileName, response, readZip, chunkSize, unzip);
      TransferCompletion(files, flags, outputPath, x, rom.fileName, response, readZip, chunkSize, unzip);
      ghost var st := TransferItem(files, flags, outputPath, x, rom.fileName, response, readZip, chunkSize, unzip);
      o := ProcessItem(x, rom, unzip);
      completed := st.completed;
    }

    /**
     * The parallel loop over one work list `batch` (names pairwise distinct, all in the catalog, all
     * among `names`), taken in order, stopping at the first item that throws. `done` names the items
     * that advanced the overall counter; when none throws, an item is downloaded exactly when it did.
     */
    method RunBatch(remote: map<string, MyrientMetadata>, batch: seq<Game>, unzip: bool, ghost names: set<string>)
        returns (o: Outcome, ghost done: set<string>)
      requires DistinctObjects(remote) && AllConsistent(remote) && names <= remote.Keys
      requires forall j | 0 <= j < |batch| :: batch[j].name in names
      requires forall j, k | 0 <= j < k < |batch| :: batch[j].name != batch[k].name
      modifies this, remote.Values
      ensures AllConsistent(remote)
      ensures done <= names
      ensures overall == old(overall) + |done|
      ensures overallTotal == old(overallTotal)
      ensures forall t | t in done :: remote[t].downloaded
      ensures o.Pass? ==> forall j | 0 <= j < |batch| :: remote[batch[j].name].downloaded <==> batch[j].name in done
      ensures forall t | t in remote && t !in names ::
                remote[t].downloaded == old(remote[t].downloaded) && remote[t].unzipped == old(remote[t].unzipped)
      ensures old(requests) <= requests
      ensures forall k | |old(requests)| <= k < |requests| :: requests[k] in UrisOf(remote, names)
    {
      ghost var seen: set<string> := {};
      done := {};
      o := Pass;
      var i := 0;
      while i < |batch| && o.Pass?
        invariant 0 <= i <= |batch|
        invariant AllConsistent(remote)
        invariant seen <= names
        invariant o.Pass? ==> forall j | 0 <= j < i :: batch[j].name in seen
        invariant o.Pass? ==> forall j | i <= j < |batch| :: batch[j].name !in seen
        invariant done <= seen
        invariant overall == old(overall) + |done|
        invariant overallTotal == old(overallTotal)
        invariant forall t | t in remote && t !in seen ::
                    remote[t].downloaded == old(remote[t].downloaded) && remote[t].unzipped == old(remote[t].unzipped)
        invariant o.Pass? ==> forall t | t in seen :: remote[t].downloaded <==> t in done
        invariant forall t | t in done :: remote[t].downloaded
        invariant old(requests) <= requests
        invariant forall k | |old(requests)| <= k < |requests| :: requests[k] in UrisOf(remote, names)
      {
        var x := batch[i];
        ghost var completed;
        o, completed := RunItem(remote, x, unzip);
        assert remote[x.name].uri in UrisOf(remote, names);
        ghost var seen0 := seen;
        seen := seen + {x.name};
        if completed {
          done := done + {x.name};
        }
        forall j | i + 1 <= j < |batch| ensures batch[j].name !in seen {
          assert batch[j].name != x.name && batch[j].name !in seen0;
        }
        i := i + 1;
      }
    }

    /**
     * One iteration of the outer loop: the work list is every matched entry not yet downloaded.
     * `completed` names the entries counted so far out of `undone0`, those pending at the start of
     * the run; the round adds the ones it counts, and when it does not throw, exactly those are
     * downloaded.
     */
    method Round(remote: map<string, MyrientMetadata>, wanted: seq<Game>, m: map<string, MyrientMetadata>,
                 unzip: bool, ghost undone0: set<string>, ghost completed: set<string>)
        returns (o: Outcome, ghost completed': set<string>)
      requires DistinctObjects(remote) && AllConsistent(remote) && DistinctPresent(remote, wanted)
      requires m.Keys == PresentNames(remote, wanted)
      requires forall k | k in m :: k in remote && m[k] == remote[k]
      requires completed <= undone0 <= m.Keys
      requires forall t | t in m :: m[t].downloaded <==> t in completed || t !in undone0
      modifies this, remote.Values
      ensures AllConsistent(remote)
      ensures completed <= completed' <= undone0
      ensures overall == old(overall) + |completed'| - |completed|
      ensures overallTotal == old(overallTotal)
      ensures o.Pass? ==> forall t | t in m :: m[t].downloaded <==> t in completed' || t !in undone0
      ensures forall t | t in remote && t !in m ::
                remote[t].downloaded == old(remote[t].downloaded) && remote[t].unzipped == old(remote[t].unzipped)
      ensures old(requests) <= requests
      ensures forall k | |old(requests)| <= k < |requests| :: requests[k] in UrisOf(remote, m.Keys)
    {
      PendingIsUndone(remote, wanted, m);
      var batch := Pending(remote, wanted);
      forall j | 0 <= j < |batch| ensures batch[j].name in NamesOf(batch) {
        assert batch[j] in batch;
      }
      ghost var names := NamesOf(batch);
      assert names == Undone(m);
      ghost var done;
      o, done := RunBatch(remote, batch, unzip, names);
      assert done * completed == {};
      completed' := completed + done;
      assert UrisOf(remote, names) <= UrisOf(remote, m.Keys);
      if o.Pass? {
        forall t | t in names ensures m[t].downloaded <==> t in done {
          var j :| 0 <= j < |batch| && batch[j].name == t;
        }
      }
    }

    /**
     * The outer loop, at most `fuel` rounds, from a fresh overall counter whose maximum is the number
     * of matched games. On completion every matched entry is downloaded and the counter has advanced
     * once for each that was not downloaded at the start.
     */
    method RunRounds(remote: map<string, MyrientMetadata>, wanted: seq<Game>, m: map<string, MyrientMetadata>,
                     unzip: bool, fuel: nat, ghost pending: set<string>) returns (r: RunOutcome)
      requires DistinctObjects(remote) && AllConsistent(remote) && DistinctPresent(remote, wanted)
      requires m.Keys == PresentNames(remote, wanted)
      requires forall k | k in m :: k in remote && m[k] == remote[k]
      requires overall == 0 && overallTotal == |m|
      requires pending == Undone(m)
      modifies this, remote.Values
      ensures AllConsistent(remote)
      ensures overallTotal == |m| && overall <= overallTotal
      ensures r.Done? ==> (forall t | t in m :: m[t].downloaded) && overall == |pending|
      ensures r.Failed? ==> r.error.ItemFailed?
      ensures forall t | t in remote && t !in m ::
                remote[t].downloaded == old(remote[t].downloaded) && remote[t].unzipped == old(remote[t].unzipped)
      ensures old(requests) <= requests
      ensures forall k | |old(requests)| <= k < |requests| :: requests[k] in UrisOf(remote, m.Keys)
    {
      ghost var undone0 := pending;
      ghost var completed: set<string> := {};
      var remaining := fuel;
      while remaining > 0 && AnyUndone(m)
        invariant AllConsistent(remote)
        invariant overallTotal == |m|
        invariant completed <= undone0 <= m.Keys
        invariant overall == |completed|
        invariant forall t | t in m :: m[t].downloaded <==> t in completed || t !in undone0
        invariant forall t | t in remote && t !in m ::
                    remote[t].downloaded == old(remote[t].downloaded) && remote[t].unzipped == old(remote[t].unzipped)
        invariant old(requests) <= requests
        invariant forall k | |old(requests)| <= k < |requests| :: requests[k] in UrisOf(remote, m.Keys)
        decreases remaining
      {
        var o;
        o, completed := Round(remote, wanted, m, unzip, undone0, completed);
        if o.Fail? {
          SubsetCard(completed, m.Keys);
          return Failed(ItemFailed(o.error));
        }
        remaining := remaining - 1;
      }
      SubsetCard(completed, m.Keys);
      if AnyUndone(m) {
        return OutOfFuel;
      }
      assert completed == undone0;
      return Done;
    }

    /**
     * DownloadRoms: match, then run rounds while a matched entry is not downloaded (at most `fuel`
     * rounds in this model). The overall counter's maximum is the number of matched games; on
     * completion every matched entry is downloaded and the counter has advanced once for each game
     * that was pending at the start. Entries outside the match are never touched, and every request
     * is for a matched entry.
     */
    method DownloadRoms(remote: map<string, MyrientMetadata>, wanted: seq<Game>, unzip: bool, fuel: nat)
        returns (r: RunOutcome)
      requires DistinctObjects(remote) && AllConsistent(remote)
      modifies this, remote.Values
      ensures AllConsistent(remote)
      ensures Match(remote, wanted).Failure? ==>
                r == Failed(Match(remote, wanted).error) && unchanged(this) && unchanged(remote.Values)
      ensures Match(remote, wanted).Success? ==>
                var m := Match(remote, wanted).value;
                && overallTotal == |m|
                && overall <= overallTotal
                && (r.Done? ==> (forall t | t in m :: m[t].downloaded) && overall == |old(PendingNames(remote, wanted))|)
                && (r.Failed? ==> r.error.ItemFailed?)
                && (forall t | t in remote && t !in m ::
                      remote[t].downloaded == old(remote[t].downloaded) && remote[t].unzipped == old(remote[t].unzipped))
                && old(requests) <= requests
                && (forall k | |old(requests)| <= k < |requests| :: requests[k] in UrisOf(remote, m.Keys))
    {
      var matched := Match(remote, wanted);
      if matched.Failure? {
        return Failed(matched.error);
      }
      var m := matched.value;
      MatchSpec(remote, wanted);
      PendingIsUndone(remote, wanted, m);
      ghost var pending := PendingNames(remote, wanted);
      overall, overallTotal := 0, |m|;
      r := RunRounds(remote, wanted, m, unzip, fuel, pending);
    }
  }
}
