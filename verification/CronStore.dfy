/**
 The JSONL cron job store: an in-memory map that must agree with its file. The file is written by
 write-to-temporary-and-rename, one step of the file system after the other, because a crash can come
 after any of them. One record per line is a codec that round-trips.
 */
module CronStore {
  import opened Wrappers

  datatype CronJob = CronJob(
    id: string,
    agentId: string,
    message: string,
    name: string,
    schedule: string,
    at: Option<int>,
    enabled: bool,
    createdAt: int,
    nextRun: Option<int>,
    lastRun: Option<int>,
    webhookSecret: Option<string>)

  type JobMap = map<string, CronJob>

  datatype Codec = Codec(encode: CronJob -> string, decode: string -> Option<CronJob>)

  /** Nothing but whitespace, as `trim` sees it. */
  predicate Blank(line: string) {
    forall c :: c in line ==> c == ' ' || c == '\t' || c == '\r' || c == '\n'
  }

  /** One line of JSON per job: not blank, no line break, and it decodes to the job. */
  ghost predicate Sound(codec: Codec) {
    forall job :: LineOk(codec.encode(job)) && codec.decode(codec.encode(job)) == Some(job)
  }

  predicate LineOk(line: string) {
    '\n' !in line && !Blank(line) && (line != "" ==> line[|line| - 1] != '\r')
  }

  // ----- file contents -----

  function Buffer(codec: Codec, jobs: seq<CronJob>): string {
    if jobs == [] then "" else Buffer(codec, jobs[..|jobs| - 1]) + codec.encode(jobs[|jobs| - 1]) + "\n"
  }

  function StripCr(line: string): string {
    if line != "" && line[|line| - 1] == '\r' then line[..|line| - 1] else line
  }

  /** Position of the first line break, or the length. */
  function LineEnd(s: string): (n: nat)
    ensures n <= |s| && '\n' !in s[..n] && (n < |s| ==> s[n] == '\n')
  {
    if s == "" || s[0] == '\n' then 0
    else
      assert s[..1 + LineEnd(s[1..])] == [s[0]] + s[1..][..LineEnd(s[1..])];
      1 + LineEnd(s[1..])
  }

  /** What one line adds to the map: blank and malformed lines are skipped. */
  function LoadLine(codec: Codec, jobs: JobMap, line: string): JobMap {
    if Blank(line) then jobs
    else match codec.decode(StripCr(line))
      case None => jobs
      case Some(job) => jobs[job.id := job]
  }

  function LoadFrom(codec: Codec, jobs: JobMap, s: string): JobMap
    decreases |s|
  {
    if s == "" then jobs
    else
      var n := LineEnd(s);
      LoadFrom(codec, LoadLine(codec, jobs, s[..n]), if n < |s| then s[n + 1..] else "")
  }

  function Load(codec: Codec, s: string): JobMap {
    LoadFrom(codec, map[], s)
  }

  // ----- what any file loads to -----

  /** The lines of a file; the last one need not end in a line break. */
  function Lines(s: string): seq<string>
    decreases |s|
  {
    if s == "" then []
    else if LineEnd(s) < |s| then [s[..LineEnd(s)]] + Lines(s[LineEnd(s) + 1..])
    else [s]
  }

  function Joined(lines: seq<string>): string {
    if lines == [] then "" else lines[0] + "\n" + Joined(lines[1..])
  }

  lemma JoinedCons(line: string, lines: seq<string>)
    ensures Joined([line] + lines) == line + "\n" + Joined(lines)
  {
    assert ([line] + lines)[1..] == lines;
  }

  /** The text up to the first line break, and what follows it. */
  lemma FirstLine(s: string, n: nat, rest: string)
    requires n == LineEnd(s) < |s| && rest == s[n + 1..]
    ensures s == s[..n] + "\n" + rest
    ensures Lines(s) == [s[..n]] + Lines(rest)
  {
    CutAt(s, n);
  }

  lemma CutAt(s: string, n: nat)
    requires n < |s| && s[n] == '\n'
    ensures s == s[..n] + "\n" + s[n + 1..]
  {
  }

  /** The text with a line break at its end. */
  function Ended(s: string): string {
    if s == "" || s[|s| - 1] == '\n' then s else s + "\n"
  }

  lemma EndedRest(line: string, rest: string)
    ensures Ended(line + "\n" + rest) == line + "\n" + Ended(rest)
  {
    var s := line + "\n" + rest;
    if rest == "" {
      assert s == line + "\n" && s[|s| - 1] == '\n';
    } else {
      assert s[|s| - 1] == rest[|rest| - 1];
      assert s + "\n" == line + "\n" + (rest + "\n");
    }
  }

  /** Nothing is lost in the lines but the line breaks. */
  lemma {:induction false} LinesJoin(s: string)
    ensures Joined(Lines(s)) == Ended(s) && forall i :: 0 <= i < |Lines(s)| ==> '\n' !in Lines(s)[i]
    decreases |s|
  {
    var n := LineEnd(s);
    if n < |s| {
      var rest := s[n + 1..];
      LinesJoin(rest);
      FirstLine(s, n, rest);
      JoinedCons(s[..n], Lines(rest));
      EndedRest(s[..n], rest);
    } else if s != "" {
      assert s[..n] == s && s[|s| - 1] in s[..n];
      LastLine(s);
    }
  }

  lemma LastLine(s: string)
    requires s != "" && LineEnd(s) == |s|
    ensures Lines(s) == [s] && Joined(Lines(s)) == s + "\n"
  {
    assert [s][1..] == [];
  }

  /** The job on line `i`: the line is not blank and decodes, without a carriage return at its end, to a
      job with that id. */
  ghost predicate JobOn(codec: Codec, lines: seq<string>, i: int, id: string, job: CronJob) {
    && 0 <= i < |lines|
    && (exists c :: c in lines[i] && c != ' ' && c != '\t' && c != '\r' && c != '\n')
    && codec.decode(if lines[i] != "" && lines[i][|lines[i]| - 1] == '\r' then lines[i][..|lines[i]| - 1] else lines[i]) == Some(job)
    && job.id == id
  }

  lemma LineIs(codec: Codec, jobs: JobMap, lines: seq<string>, i: nat, id: string)
    requires i < |lines|
    ensures forall job :: JobOn(codec, lines, i, id, job) ==> LoadLine(codec, jobs, lines[i]) == jobs[id := job]
    ensures (forall job :: !JobOn(codec, lines, i, id, job)) ==>
              (id in LoadLine(codec, jobs, lines[i]) <==> id in jobs)
              && (id in jobs ==> LoadLine(codec, jobs, lines[i])[id] == jobs[id])
  {
    if !Blank(lines[i]) {
      var line := lines[i];
      var c :| c in line && !(c == ' ' || c == '\t' || c == '\r' || c == '\n');
      if codec.decode(StripCr(line)).Some? {
        var job := codec.decode(StripCr(line)).value;
        assert job.id == id ==> JobOn(codec, lines, i, id, job);
      }
    }
  }

  /** The map after the first `n` lines. */
  function LoadLines(codec: Codec, jobs: JobMap, lines: seq<string>): JobMap
    decreases |lines|
  {
    if lines == [] then jobs else LoadLines(codec, LoadLine(codec, jobs, lines[0]), lines[1..])
  }

  lemma {:induction false} LoadIsByLines(codec: Codec, jobs: JobMap, s: string)
    ensures LoadFrom(codec, jobs, s) == LoadLines(codec, jobs, Lines(s))
    decreases |s|
  {
    if s != "" {
      var n := LineEnd(s);
      var rest := if n < |s| then s[n + 1..] else "";
      LoadIsByLines(codec, LoadLine(codec, jobs, s[..n]), rest);
      if n < |s| {
        FirstLine(s, n, rest);
      } else {
        assert s[..n] == s;
        LastLine(s);
      }
    }
  }

  /** The job `job` is on some line of `lines` and on no later one is there any for its id. */
  ghost predicate LastJob(codec: Codec, lines: seq<string>, id: string, job: CronJob) {
    exists i :: JobOn(codec, lines, i, id, job) && forall k, other :: i < k ==> !JobOn(codec, lines, k, id, other)
  }

  ghost predicate NoJob(codec: Codec, lines: seq<string>, id: string) {
    forall i, job :: !JobOn(codec, lines, i, id, job)
  }

  lemma Shifted(codec: Codec, lines: seq<string>, i: int, id: string, job: CronJob)
    requires lines != [] && i >= 0
    ensures JobOn(codec, lines[1..], i, id, job) <==> JobOn(codec, lines, i + 1, id, job)
  {
    if i < |lines| - 1 {
      assert lines[1..][i] == lines[i + 1];
    }
  }

  /** What the lines make of the entry for an id. */
  ghost predicate Decides(codec: Codec, jobs: JobMap, lines: seq<string>, id: string, after: JobMap) {
    && (forall job :: LastJob(codec, lines, id, job) ==> id in after && after[id] == job)
    && (NoJob(codec, lines, id) ==> (id in after <==> id in jobs) && (id in jobs ==> after[id] == jobs[id]))
    && (NoJob(codec, lines, id) || exists job :: LastJob(codec, lines, id, job))
  }

  lemma {:induction false} LastLineWins(codec: Codec, jobs: JobMap, lines: seq<string>, id: string)
    ensures Decides(codec, jobs, lines, id, LoadLines(codec, jobs, lines))
    decreases |lines|
  {
    if lines != [] {
      var rest, next := lines[1..], LoadLine(codec, jobs, lines[0]);
      LastLineWins(codec, next, rest, id);
      DecidesFirst(codec, jobs, lines, id, next, LoadLines(codec, next, rest));
    }
  }

  lemma DecidesFirst(codec: Codec, jobs: JobMap, lines: seq<string>, id: string, next: JobMap, after: JobMap)
    requires lines != [] && next == LoadLine(codec, jobs, lines[0]) && Decides(codec, next, lines[1..], id, after)
    ensures Decides(codec, jobs, lines, id, after)
  {
    LineIs(codec, jobs, lines, 0, id);
    LastOfRest(codec, lines, id);
    if !NoJob(codec, lines[1..], id) {
      var job :| LastJob(codec, lines[1..], id, job);
      OnlyLast(codec, lines, id, job);
    }
  }

  lemma OnlyLast(codec: Codec, lines: seq<string>, id: string, job: CronJob)
    requires LastJob(codec, lines, id, job)
    ensures forall other :: LastJob(codec, lines, id, other) ==> other == job
  {
    forall other | LastJob(codec, lines, id, other) ensures other == job {
      var i :| JobOn(codec, lines, i, id, job) && forall k, o :: i < k ==> !JobOn(codec, lines, k, id, o);
      var j :| JobOn(codec, lines, j, id, other) && forall k, o :: j < k ==> !JobOn(codec, lines, k, id, o);
      assert i == j;
    }
  }

  lemma LastOfRest(codec: Codec, lines: seq<string>, id: string)
    requires lines != []
    ensures forall job :: LastJob(codec, lines[1..], id, job) ==> LastJob(codec, lines, id, job)
    ensures NoJob(codec, lines[1..], id) ==> forall job :: LastJob(codec, lines, id, job) <==> JobOn(codec, lines, 0, id, job)
    ensures NoJob(codec, lines, id) <==> NoJob(codec, lines[1..], id) && forall job :: !JobOn(codec, lines, 0, id, job)
  {
    var rest := lines[1..];
    forall i: int, job ensures JobOn(codec, rest, i, id, job) <==> i >= 0 && JobOn(codec, lines, i + 1, id, job) {
      if i >= 0 {
        Shifted(codec, lines, i, id, job);
      }
    }
    forall k: int, job | k != 0 && JobOn(codec, lines, k, id, job) ensures JobOn(codec, rest, k - 1, id, job) {
    }
    forall job | LastJob(codec, rest, id, job) ensures LastJob(codec, lines, id, job) {
      var i :| JobOn(codec, rest, i, id, job) && forall k, other :: i < k ==> !JobOn(codec, rest, k, id, other);
      assert JobOn(codec, lines, i + 1, id, job);
    }
    if NoJob(codec, rest, id) {
      forall job ensures LastJob(codec, lines, id, job) <==> JobOn(codec, lines, 0, id, job) {
      }
    }
  }

  /** Whatever is in the file: a job id is loaded exactly when some line decodes to a job with it, and then
      with the last such line; blank and malformed lines make no difference. */
  lemma LoadIsLastLines(codec: Codec, s: string, id: string)
    ensures id !in Load(codec, s) <==> NoJob(codec, Lines(s), id)
    ensures id in Load(codec, s) ==> LastJob(codec, Lines(s), id, Load(codec, s)[id])
  {
    LoadIsByLines(codec, map[], s);
    LastLineWins(codec, map[], Lines(s), id);
  }

  // ----- reloading what was saved -----

  function Inserted(jobs: JobMap, order: seq<CronJob>): JobMap {
    if order == [] then jobs
    else
      var job := order[|order| - 1];
      Inserted(jobs, order[..|order| - 1])[job.id := job]
  }

  lemma LineEndAt(a: string, b: string)
    requires '\n' !in a
    ensures LineEnd(a + "\n" + b) == |a|
  {
    var s := a + "\n" + b;
    assert s[|a|] == '\n';
    assert forall i :: 0 <= i < |a| ==> s[i] == a[i];
    assert forall i :: 0 <= i < LineEnd(s) ==> s[i] in s[..LineEnd(s)];
  }

  lemma LoadOneLine(codec: Codec, jobs: JobMap, line: string, rest: string)
    requires '\n' !in line
    ensures LoadFrom(codec, jobs, line + "\n" + rest) == LoadFrom(codec, LoadLine(codec, jobs, line), rest)
  {
    var s := line + "\n" + rest;
    LineEndAt(line, rest);
    assert s[..|line|] == line && s[|line| + 1..] == rest;
  }

  /** Whole lines load one after the other. */
  lemma {:induction false} LoadBuffer(codec: Codec, jobs: JobMap, order: seq<CronJob>, rest: string)
    requires Sound(codec)
    ensures LoadFrom(codec, jobs, Buffer(codec, order) + rest) == LoadFrom(codec, Inserted(jobs, order), rest)
  {
    if order == [] {
      assert Buffer(codec, order) + rest == rest;
    } else {
      var init, job := order[..|order| - 1], order[|order| - 1];
      var line := codec.encode(job);
      assert LineOk(line);
      assert Buffer(codec, order) + rest == Buffer(codec, init) + (line + "\n" + rest);
      LoadBuffer(codec, jobs, init, line + "\n" + rest);
      LoadOneLine(codec, Inserted(jobs, init), line, rest);
    }
  }

  ghost predicate KeyedById(jobs: JobMap) {
    forall k :: k in jobs ==> jobs[k].id == k
  }

  /** `order` lists the values of the map, in whatever order the hash map yields them. */
  ghost predicate Enumerates(order: seq<CronJob>, jobs: JobMap) {
    && (forall j :: j in order ==> j.id in jobs && jobs[j.id] == j)
    && forall k :: k in jobs ==> jobs[k] in order
  }

  ghost predicate DistinctIds(order: seq<CronJob>) {
    forall i, j :: 0 <= i < j < |order| ==> order[i].id != order[j].id
  }

  lemma {:induction false} InsertedValues(order: seq<CronJob>, jobs: JobMap)
    requires forall j :: j in order ==> j.id in jobs && jobs[j.id] == j
    ensures forall k :: k in Inserted(map[], order) <==> exists j :: j in order && j.id == k
    ensures forall k :: k in Inserted(map[], order) ==> k in jobs && Inserted(map[], order)[k] == jobs[k]
  {
    if order != [] {
      var init, job := order[..|order| - 1], order[|order| - 1];
      assert order == init + [job];
      InsertedValues(init, jobs);
    }
  }

  /** Whatever the iteration order, loading the saved file gives the map back. */
  lemma ReloadGivesMap(codec: Codec, jobs: JobMap, order: seq<CronJob>)
    requires Sound(codec) && KeyedById(jobs) && Enumerates(order, jobs)
    ensures Load(codec, Buffer(codec, order)) == jobs
  {
    LoadBuffer(codec, map[], order, "");
    assert Buffer(codec, order) + "" == Buffer(codec, order);
    InsertedValues(order, jobs);
    forall k | k in jobs ensures k in Inserted(map[], order) {
      assert jobs[k] in order;
    }
    assert Inserted(map[], order) == jobs;
  }

  // ----- the disk -----

  type Disk = map<string, string>

  function At(disk: Disk, path: string): Option<string> {
    if path in disk then Some(disk[path]) else None
  }

  /** One step of the file system. Only a rename replaces a whole file at once. */
  datatype FileOp = Truncate(path: string) | Append(path: string, c: char) | Rename(from: string, to: string) | Delete(path: string)

  function Do(disk: Disk, op: FileOp): Disk {
    match op
    case Truncate(path) => disk[path := ""]
    case Append(path, c) => if path in disk then disk[path := disk[path] + [c]] else disk
    case Rename(from, to) => if from in disk then (disk - {from})[to := disk[from]] else disk
    case Delete(path) => disk - {path}
  }

  function DoAll(disk: Disk, ops: seq<FileOp>): Disk {
    if ops == [] then disk else Do(DoAll(disk, ops[..|ops| - 1]), ops[|ops| - 1])
  }

  /** A crash after any of the steps leaves in `path` what was there or all of `bytes`. */
  ghost predicate OldOrNew(disk: Disk, ops: seq<FileOp>, path: string, bytes: string) {
    forall n :: 0 <= n <= |ops| ==> At(DoAll(disk, ops[..n]), path) in {At(disk, path), Some(bytes)}
  }

  lemma DoOneMore(disk: Disk, ops: seq<FileOp>, op: FileOp, path: string, bytes: string)
    ensures DoAll(disk, ops + [op]) == Do(DoAll(disk, ops), op)
    ensures OldOrNew(disk, ops, path, bytes) && At(DoAll(disk, ops + [op]), path) in {At(disk, path), Some(bytes)}
            ==> OldOrNew(disk, ops + [op], path, bytes)
  {
    var longer := ops + [op];
    assert longer[..|ops|] == ops;
    forall n | 0 <= n <= |longer| ensures longer[..n] == if n <= |ops| then ops[..n] else longer {
    }
  }

  /** How the file operations of one save go; `cleaned` says whether a failed save removes its
      temporary file. */
  datatype Io = WriteFails(written: nat, cleaned: bool) | RenameFails(cleaned: bool) | AllFine

  /** Truncate and fill a file, up to where writing fails. */
  method WriteFile(disk0: Disk, tmp: string, bytes: string, upTo: nat, ghost path: string, ghost new_: string)
    returns (disk: Disk, ghost ops: seq<FileOp>)
    requires tmp != path && upTo <= |bytes|
    ensures disk == disk0[tmp := bytes[..upTo]]
    ensures disk == DoAll(disk0, ops) && OldOrNew(disk0, ops, path, new_)
  {
    disk, ops := Do(disk0, Truncate(tmp)), [Truncate(tmp)];
    DoOneMore(disk0, [], Truncate(tmp), path, new_);
    assert [] + [Truncate(tmp)] == ops;
    for n := 0 to upTo
      invariant disk == DoAll(disk0, ops) == disk0[tmp := bytes[..n]] && OldOrNew(disk0, ops, path, new_)
    {
      var op := Append(tmp, bytes[n]);
      DoOneMore(disk0, ops, op, path, new_);
      assert bytes[..n] + [bytes[n]] == bytes[..n + 1];
      disk, ops := Do(disk, op), ops + [op];
    }
  }

  /** Write a temporary file, then rename it over the target. After every single step on the way the
      target holds its old contents or all of the new ones. */
  method AtomicWrite(disk0: Disk, path: string, tmp: string, bytes: string, io: Io)
    returns (disk: Disk, ok: bool, ghost ops: seq<FileOp>)
    requires tmp != path
    ensures ok <==> io.AllFine?
    ensures At(disk, path) == if ok then Some(bytes) else At(disk0, path)
    ensures disk == DoAll(disk0, ops) && OldOrNew(disk0, ops, path, bytes)
    ensures forall other :: other != path && other != tmp ==> At(disk, other) == At(disk0, other)
    ensures ok || io.cleaned ==> tmp !in disk
  {
    var upTo := if io.WriteFails? && io.written < |bytes| then io.written else |bytes|;
    disk, ops := WriteFile(disk0, tmp, bytes, upTo, path, bytes);
    assert bytes[..|bytes|] == bytes;
    ok := io.AllFine?;
    if ok || io.cleaned {
      var op := if ok then Rename(tmp, path) else Delete(tmp);
      DoOneMore(disk0, ops, op, path, bytes);
      disk, ops := Do(disk, op), ops + [op];
    }
  }

  // ----- the store -----

  datatype StoreResult = Stored | DuplicateId(id: string) | NotFound(id: string) | IoError

  class JsonlCronJobStore {
    const path: string
    const codec: Codec
    var jobs: JobMap
    var disk: Disk

    ghost predicate Valid()
      reads this
    {
      Sound(codec) && KeyedById(jobs)
    }

    /** What a process that starts now would load. */
    ghost function Reloaded(d: Disk): JobMap {
      if path in d then Load(codec, d[path]) else map[]
    }

    /** Open the store: load the file if there is one. */
    constructor (path: string, codec: Codec, disk: Disk)
      requires Sound(codec)
      ensures Valid() && this.path == path && this.codec == codec && this.disk == disk && jobs == Reloaded(disk)
    {
      this.path := path;
      this.codec := codec;
      this.disk := disk;
      jobs := if path in disk then Load(codec, disk[path]) else map[];
      new;
      if path in disk {
        LoadKeyed(codec, map[], disk[path]);
      }
    }

    /** Serialise the map in an arbitrary order and write it out. */
    method Save(tmp: string, io: Io) returns (r: StoreResult, ghost ops: seq<FileOp>)
      requires Valid() && tmp != path
      modifies `disk
      ensures r == if io.AllFine? then Stored else IoError
      ensures Reloaded(disk) == if r == Stored then jobs else Reloaded(old(disk))
      ensures disk == DoAll(old(disk), ops)
      ensures forall n :: 0 <= n <= |ops| ==> Reloaded(DoAll(old(disk), ops[..n])) in {Reloaded(old(disk)), jobs}
    {
      var order := Values(jobs);
      var bytes := Serialise(codec, order);
      var ok;
      disk, ok, ops := AtomicWrite(disk, path, tmp, bytes, io);
      ReloadGivesMap(codec, jobs, order);
      r := if ok then Stored else IoError;
      forall n | 0 <= n <= |ops| ensures Reloaded(DoAll(old(disk), ops[..n])) in {Reloaded(old(disk)), jobs} {
        assert At(DoAll(old(disk), ops[..n]), path) in {At(old(disk), path), Some(bytes)};
      }
    }

    /** Add a job under a new id. If the save fails the job is in memory all the same. */
    method Create(job: CronJob, tmp: string, io: Io) returns (r: StoreResult, ghost ops: seq<FileOp>)
      requires Valid() && tmp != path
      modifies this
      ensures Valid()
      ensures job.id in old(jobs) ==> r == DuplicateId(job.id) && jobs == old(jobs) && disk == old(disk) && ops == []
      ensures job.id !in old(jobs) ==> jobs == old(jobs)[job.id := job] && r == if io.AllFine? then Stored else IoError
      ensures SavedOrKept(r, old(disk), ops)
    {
      if job.id in jobs {
        return DuplicateId(job.id), [];
      }
      jobs := jobs[job.id := job];
      r, ops := Save(tmp, io);
    }

    /** Overwrite an existing job; an absent one stays absent. */
    method Update(job: CronJob, tmp: string, io: Io) returns (r: StoreResult, ghost ops: seq<FileOp>)
      requires Valid() && tmp != path
      modifies this
      ensures Valid()
      ensures job.id !in old(jobs) ==> r == NotFound(job.id) && jobs == old(jobs) && disk == old(disk) && ops == []
      ensures job.id in old(jobs) ==> jobs == old(jobs)[job.id := job] && r == if io.AllFine? then Stored else IoError
      ensures SavedOrKept(r, old(disk), ops)
    {
      if job.id !in jobs {
        return NotFound(job.id), [];
      }
      jobs := jobs[job.id := job];
      r, ops := Save(tmp, io);
    }

    /** Remove a job; it is gone from memory even if the save fails. */
    method Remove(id: string, tmp: string, io: Io) returns (r: StoreResult, ghost ops: seq<FileOp>)
      requires Valid() && tmp != path
      modifies this
      ensures Valid()
      ensures id !in old(jobs) ==> r == NotFound(id) && jobs == old(jobs) && disk == old(disk) && ops == []
      ensures id in old(jobs) ==> jobs == old(jobs) - {id} && r == if io.AllFine? then Stored else IoError
      ensures SavedOrKept(r, old(disk), ops)
    {
      if id !in jobs {
        return NotFound(id), [];
      }
      jobs := jobs - {id};
      r, ops := Save(tmp, io);
    }

    /** After a success a reload gives the map in memory, whatever failed before; after a failure it
        gives what it gave before; a crash after any step on the way gives one of the two. */
    ghost predicate SavedOrKept(r: StoreResult, before: Disk, ops: seq<FileOp>)
      reads this
    {
      && (r == Stored ==> Reloaded(disk) == jobs)
      && (r != Stored ==> Reloaded(disk) == Reloaded(before))
      && disk == DoAll(before, ops)
      && forall n :: 0 <= n <= |ops| ==> Reloaded(DoAll(before, ops[..n])) in {Reloaded(before), jobs}
    }
  }

  lemma {:induction false} LoadKeyed(codec: Codec, jobs: JobMap, s: string)
    requires KeyedById(jobs)
    ensures KeyedById(LoadFrom(codec, jobs, s))
    decreases |s|
  {
    if s != "" {
      var n := LineEnd(s);
      LoadKeyed(codec, LoadLine(codec, jobs, s[..n]), if n < |s| then s[n + 1..] else "");
    }
  }

  /** The values of the map, each once and in an arbitrary order. */
  method Values(jobs: JobMap) returns (order: seq<CronJob>)
    requires KeyedById(jobs)
    ensures Enumerates(order, jobs) && DistinctIds(order)
  {
    order := [];
    var left := jobs.Keys;
    while left != {}
      invariant left <= jobs.Keys
      invariant forall j :: j in order ==> j.id in jobs && jobs[j.id] == j && j.id !in left
      invariant forall k :: k in jobs && k !in left ==> jobs[k] in order
      invariant DistinctIds(order)
      decreases left
    {
      var k :| k in left;
      order := order + [jobs[k]];
      left := left - {k};
    }
  }

  method Serialise(codec: Codec, order: seq<CronJob>) returns (buf: string)
    ensures buf == Buffer(codec, order)
  {
    buf := "";
    assert order[..0] == [];
    for i := 0 to |order|
      invariant buf == Buffer(codec, order[..i])
    {
      assert order[..i + 1][..i] == order[..i];
      buf := buf + codec.encode(order[i]) + "\n";
    }
    assert order[..|order|] == order;
  }
}
