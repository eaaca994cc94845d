/** Collecting the files a target produced: which paths become candidates, and the bounded,
    deduplicating, content-addressed copy into the staging directory.

    The file system answers each candidate path from a script: the result of lstat, of the two
    opens, of every read and write, and of the rename.  The hash is a parameter. */
module ArtifactCollector {
  import opened Basics
  import opened EventLog

  const TMP_NAME: string := ".staging.tmp"
  const TWO64: int := 0x1_0000_0000_0000_0000

  datatype Status = Captured | TooLarge | Symlink | Special | BoundExceeded | Missing | Unreadable

  datatype Record = Record(sha256: string, size: nat, mode: nat, sourcePaths: seq<string>, status: Status)

  datatype Config = Config(maxFileBytes: nat, maxTotalBytes: nat, maxCount: nat, maxCandidates: nat)

  // ------------------------------------------------------------------------------- candidates

  datatype Kind = Openat | Renameat2 | OtherKind

  datatype FileEvent = FileEvent(kind: Kind, flags: bv32, ret: int, pathA: string, pathB: string)

  const O_WRONLY: bv32 := 0x1
  const O_RDWR: bv32 := 0x2
  const O_CREAT: bv32 := 0x40

  /** A fixed-size kernel buffer up to its first NUL. */
  function Bounded(buf: string): (r: string)
    ensures r <= buf && '\0' !in r && (|r| < |buf| ==> buf[|r|] == '\0')
  {
    if buf == "" || buf[0] == '\0' then "" else [buf[0]] + Bounded(buf[1..])
  }

  /** The path a file event proposes: what was opened with write intent, or a rename's destination,
      if the operation succeeded and the path is absolute. */
  function Proposed(e: FileEvent): Option<string> {
    if e.ret < 0 then None
    else
      var path := match e.kind
                  case Openat => if e.flags & (O_CREAT | O_WRONLY | O_RDWR) == 0 then "" else Bounded(e.pathA)
                  case Renameat2 => Bounded(e.pathB)
                  case OtherKind => "";
      if path != "" && path[0] == '/' then Some(path) else None
  }

  /** Lexicographic order of byte strings. */
  predicate Less(a: string, b: string) {
    b != "" && (a == "" || a[0] < b[0] || (a[0] == b[0] && Less(a[1..], b[1..])))
  }

  lemma {:induction false} LessTotal(a: string, b: string)
    ensures a == b || Less(a, b) || Less(b, a)
  {
    if a != "" && b != "" && a[0] == b[0] {
      LessTotal(a[1..], b[1..]);
      assert a == [a[0]] + a[1..] && b == [b[0]] + b[1..];
    }
  }

  lemma {:induction false} LessTrans(a: string, b: string, c: string)
    requires Less(a, b) && Less(b, c)
    ensures Less(a, c)
  {
    if a != "" && a[0] == b[0] && b[0] == c[0] {
      LessTrans(a[1..], b[1..], c[1..]);
    }
  }

  lemma {:induction false} LessIrreflexive(a: string)
    ensures !Less(a, a)
  {
    if a != "" {
      LessIrreflexive(a[1..]);
    }
  }

  ghost predicate Ascending(s: seq<string>) {
    forall i, j :: 0 <= i < j < |s| ==> Less(s[i], s[j])
  }

  lemma AscendingDistinct(s: seq<string>)
    requires Ascending(s)
    ensures forall i, j :: 0 <= i < j < |s| ==> s[i] != s[j]
  {
    forall i, j | 0 <= i < j < |s| ensures s[i] != s[j] {
      LessIrreflexive(s[i]);
    }
  }

  /** Insertion into an ordered set. */
  function Insert(s: seq<string>, p: string): seq<string> {
    if s == [] then [p]
    else if p == s[0] then s
    else if Less(p, s[0]) then [p] + s
    else [s[0]] + Insert(s[1..], p)
  }

  lemma {:induction false} InsertKeepsOrder(s: seq<string>, p: string)
    requires Ascending(s)
    ensures Ascending(Insert(s, p))
    ensures forall x :: x in Insert(s, p) <==> x in s || x == p
  {
    if s == [] || p == s[0] {
    } else if Less(p, s[0]) {
      forall j | 0 <= j < |s| ensures Less(p, s[j]) {
        if j > 0 {
          LessTrans(p, s[0], s[j]);
        }
      }
    } else {
      LessTotal(p, s[0]);
      InsertKeepsOrder(s[1..], p);
      var r := Insert(s[1..], p);
      forall j | 0 <= j < |r| ensures Less(s[0], r[j]) {
        assert r[j] in r;
        if r[j] != p {
          var k :| 0 <= k < |s[1..]| && s[1..][k] == r[j];
          assert s[k + 1] == r[j];
        }
      }
      assert s == [s[0]] + s[1..];
    }
  }

  // ------------------------------------------------------------------------- copying one file

  datatype Lstat = LstatError(enoent: bool) | SymbolicLink | NotRegular | Regular(size: nat, mode: nat)

  datatype OpenResult = Opened | OpenError(enoent: bool)

  /** One read(2): some bytes, an interruption, an error, or nothing (end of file). */
  datatype ReadResult = Data(bytes: string) | ReadInterrupted | ReadError

  /** Everything the file system answers about one path.  After its last read the file ends; after
      its last write result every write succeeds in full. */
  datatype FileScript = FileScript(lstat: Lstat, openIn: OpenResult, openOut: bool, chunks: seq<ReadResult>,
                                   writes: seq<WriteResult>, renamed: bool)

  /** Writing a chunk out: whether it all gets written (a zero-byte write is simply retried). */
  function Drain(left: nat, writes: seq<WriteResult>): (bool, seq<WriteResult>)
    decreases |writes|
  {
    if left == 0 || writes == [] then (true, writes)
    else
      match writes[0]
      case Interrupted => Drain(left, writes[1..])
      case Failed => (false, writes[1..])
      case Wrote(n) => if n >= left then (true, writes[1..]) else Drain(left - n, writes[1..])
  }

  datatype CopyOutcome = Copied(bytes: string) | CopyTooLarge | CopyFailed

  /** The single read, write and hash pass, with `got` already copied. */
  function Copy(chunks: seq<ReadResult>, writes: seq<WriteResult>, limit: nat, got: string): CopyOutcome
    decreases |chunks|
  {
    if chunks == [] then Copied(got)
    else
      match chunks[0]
      case ReadInterrupted => Copy(chunks[1..], writes, limit, got)
      case ReadError => CopyFailed
      case Data(bytes) =>
        if bytes == "" then Copied(got)
        else
          var (ok, rest) := Drain(|bytes|, writes);
          if !ok then CopyFailed
          else if |got| + |bytes| > limit then CopyTooLarge
          else Copy(chunks[1..], rest, limit, got + bytes)
  }

  function BytesIn(chunks: seq<ReadResult>): nat {
    if chunks == [] then 0 else (if chunks[0].Data? then |chunks[0].bytes| else 0) + BytesIn(chunks[1..])
  }

  lemma {:induction false} CopyBounds(chunks: seq<ReadResult>, writes: seq<WriteResult>, limit: nat, got: string)
    requires |got| <= limit
    ensures var c := Copy(chunks, writes, limit, got); c.Copied? ==> |c.bytes| <= limit && |c.bytes| <= |got| + BytesIn(chunks)
    decreases |chunks|
  {
    if chunks != [] {
      match chunks[0]
      case ReadInterrupted => CopyBounds(chunks[1..], writes, limit, got);
      case ReadError =>
      case Data(bytes) =>
        var (ok, rest) := Drain(|bytes|, writes);
        if bytes != "" && ok && |got| + |bytes| <= limit {
          CopyBounds(chunks[1..], rest, limit, got + bytes);
        }
    }
  }

  /** What the reads deliver up to the end of the file. */
  function Delivered(chunks: seq<ReadResult>): string {
    if chunks == [] || (chunks[0].Data? && chunks[0].bytes == "") then ""
    else (if chunks[0].Data? then chunks[0].bytes else "") + Delivered(chunks[1..])
  }

  /** A successful copy is the file's bytes: interruptions and short writes change nothing. */
  lemma {:induction false} CopyIsFaithful(chunks: seq<ReadResult>, writes: seq<WriteResult>, limit: nat, got: string)
    ensures var c := Copy(chunks, writes, limit, got); c.Copied? ==> c.bytes == got + Delivered(chunks)
    decreases |chunks|
  {
    if chunks != [] {
      match chunks[0]
      case ReadInterrupted => CopyIsFaithful(chunks[1..], writes, limit, got);
      case ReadError =>
      case Data(bytes) =>
        if bytes != "" {
          CopyIsFaithful(chunks[1..], Drain(|bytes|, writes).1, limit, got + bytes);
          assert got + bytes + Delivered(chunks[1..]) == got + (bytes + Delivered(chunks[1..]));
        }
    }
  }

  // ------------------------------------------------------------------------ the finalize fold

  type Hash = string -> string

  /** The running state: records, the index by hash, byte and file counts, the staged files. */
  datatype Collected = Collected(records: seq<Record>, bySha: map<string, nat>, totalBytes: nat, okCount: nat,
                                 files: map<string, string>)

  const EMPTY: Collected := Collected([], map[], 0, 0, map[])

  predicate Indexed(st: Collected) {
    forall s :: s in st.bySha ==> st.bySha[s] < |st.records|
  }

  function Add(st: Collected, r: Record, status: Status): Collected {
    st.(records := st.records + [r.(status := status)])
  }

  /** The bytes are kept in a new ok record, staged under their hash. */
  function Kept(st: Collected, r: Record, sha: string, bytes: string): Collected {
    Collected(st.records + [r.(size := |bytes|, sha256 := sha, status := Captured)], st.bySha[sha := |st.records|],
              st.totalBytes + |bytes|, st.okCount + 1, st.files[sha := bytes])
  }

  function StepCopied(st: Collected, h: Hash, r: Record, path: string, bytes: string, renamed: bool): Collected
    requires Indexed(st)
  {
    var sha := h(bytes);
    if sha in st.bySha then
      var i := st.bySha[sha];
      st.(records := st.records[i := st.records[i].(sourcePaths := st.records[i].sourcePaths + [path])])
    else if !renamed then Add(st, r.(size := |bytes|), Unreadable)
    else Kept(st, r, sha, bytes)
  }

  /** What becomes of a candidate: a record with a status other than ok, or bytes to keep. */
  datatype Decision = Reject(status: Status) | Keep(bytes: string)

  function Decide(cfg: Config, totalBytes: nat, okCount: nat, script: FileScript): (d: Decision)
    ensures d.Reject? ==> d.status != Captured
  {
    match script.lstat
    case LstatError(enoent) => Reject(if enoent then Missing else Unreadable)
    case SymbolicLink => Reject(Symlink)
    case NotRegular => Reject(Special)
    case Regular(size, _) =>
      if size > cfg.maxFileBytes then Reject(TooLarge)
      else if okCount >= cfg.maxCount || (totalBytes + size) % TWO64 > cfg.maxTotalBytes then Reject(BoundExceeded)
      else if script.openIn.OpenError? then Reject(if script.openIn.enoent then Missing else Unreadable)
      else if !script.openOut then Reject(Unreadable)
      else
        match Copy(script.chunks, script.writes, cfg.maxFileBytes, "")
        case CopyTooLarge => Reject(TooLarge)
        case CopyFailed => Reject(Unreadable)
        case Copied(bytes) => Keep(bytes)
  }

  /** The record as lstat fills it. */
  function BaseRecord(path: string, lstat: Lstat): Record {
    match lstat
    case Regular(size, mode) => Record("", size, mode % 0x1000, [path], Missing)
    case _ => Record("", 0, 0, [path], Missing)
  }

  /** One candidate path. */
  function Step(cfg: Config, h: Hash, st: Collected, path: string, script: FileScript): Collected
    requires Indexed(st)
  {
    var r := BaseRecord(path, script.lstat);
    match Decide(cfg, st.totalBytes, st.okCount, script)
    case Reject(status) => Add(st, r, status)
    case Keep(bytes) => StepCopied(st, h, r, path, bytes, script.renamed)
  }

  lemma StepIndexed(cfg: Config, h: Hash, st: Collected, path: string, script: FileScript)
    requires Indexed(st)
    ensures Indexed(Step(cfg, h, st, path, script))
  {
  }

  function Collect(cfg: Config, h: Hash, fs: string -> FileScript, paths: seq<string>): (st: Collected)
    ensures Indexed(st)
  {
    if paths == [] then EMPTY
    else
      var n := |paths| - 1;
      var st := Collect(cfg, h, fs, paths[..n]);
      StepIndexed(cfg, h, st, paths[n], fs(paths[n]));
      Step(cfg, h, st, paths[n], fs(paths[n]))
  }

  // ----------------------------------------------------------------------------- the collector

  class Staging {
    var files: map<string, string>

    constructor ()
      ensures files == map[]
    {
      files := map[];
    }
  }

  /** A step stages nothing but files named by a hash. */
  lemma StepNames(cfg: Config, h: Hash, st: Collected, path: string, script: FileScript)
    requires Indexed(st)
    ensures forall n :: n in Step(cfg, h, st, path, script).files ==> n in st.files || exists b :: n == h(b)
  {
  }

  class Collector {
    const cfg: Config
    var candidates: seq<string>
    var truncated: bool

    ghost predicate Valid()
      reads this
    {
      Ascending(candidates)
    }

    constructor (cfg: Config)
      ensures Valid() && this.cfg == cfg && candidates == [] && !truncated
    {
      this.cfg := cfg;
      candidates, truncated := [], false;
    }

    /** Record a candidate path; past the cap only the truncation is noted. */
    method Observe(e: FileEvent)
      requires Valid()
      modifies this
      ensures Valid()
      ensures forall x :: x in candidates <==>
                x in old(candidates) || (Proposed(e) == Some(x) && |old(candidates)| < cfg.maxCandidates)
      ensures truncated <==> old(truncated) || (Proposed(e).Some? && |old(candidates)| >= cfg.maxCandidates)
    {
      if e.ret < 0 {
        return;
      }
      var path := "";
      if e.kind == Openat {
        if e.flags & (O_CREAT | O_WRONLY | O_RDWR) == 0 {
          return;
        }
        path := Bounded(e.pathA);
      } else if e.kind == Renameat2 {
        path := Bounded(e.pathB);
      } else {
        return;
      }
      if path == "" || path[0] != '/' {
        return;
      }
      if |candidates| >= cfg.maxCandidates {
        truncated := true;
        return;
      }
      InsertKeepsOrder(candidates, path);
      candidates := Insert(candidates, path);
    }

    /** Copy the file into the staging temp while hashing; the temp holds what was read. */
    method CopyToTemp(script: FileScript, staging: Staging) returns (outcome: CopyOutcome)
      requires script.openOut
      modifies staging
      ensures outcome == Copy(script.chunks, script.writes, cfg.maxFileBytes, "")
      ensures staging.files - {TMP_NAME} == old(staging.files) - {TMP_NAME}
      ensures outcome.Copied? ==> TMP_NAME in staging.files && staging.files[TMP_NAME] == outcome.bytes
    {
      staging.files := staging.files[TMP_NAME := ""];
      var copied := "";
      var chunks, writes := script.chunks, script.writes;
      while chunks != []
        invariant staging.files - {TMP_NAME} == old(staging.files) - {TMP_NAME}
        invariant TMP_NAME in staging.files && staging.files[TMP_NAME] == copied
        invariant Copy(chunks, writes, cfg.maxFileBytes, copied) == Copy(script.chunks, script.writes, cfg.maxFileBytes, "")
        decreases |chunks|
      {
        var n := chunks[0];
        if n.ReadInterrupted? {
          chunks := chunks[1..];
          continue;
        }
        if n.ReadError? {
          return CopyFailed;
        }
        if n.bytes == "" {
          break;
        }
        chunks := chunks[1..];
        var ok;
        ok, writes := WriteChunk(n.bytes, writes, staging);
        if !ok {
          return CopyFailed;
        }
        copied := copied + n.bytes;
        if |copied| > cfg.maxFileBytes {
          return CopyTooLarge;
        }
      }
      outcome := Copied(copied);
    }

    method WriteChunk(bytes: string, writes: seq<WriteResult>, staging: Staging) returns (ok: bool, rest: seq<WriteResult>)
      requires TMP_NAME in staging.files
      modifies staging
      ensures (ok, rest) == Drain(|bytes|, writes)
      ensures staging.files - {TMP_NAME} == old(staging.files) - {TMP_NAME} && TMP_NAME in staging.files
      ensures ok ==> staging.files[TMP_NAME] == old(staging.files)[TMP_NAME] + bytes
    {
      rest := writes;
      var off := 0;
      assert bytes[..0] == "";
      while off < |bytes| && rest != []
        invariant 0 <= off <= |bytes|
        invariant Drain(|bytes| - off, rest) == Drain(|bytes|, writes)
        invariant staging.files - {TMP_NAME} == old(staging.files) - {TMP_NAME} && TMP_NAME in staging.files
        invariant staging.files[TMP_NAME] == old(staging.files)[TMP_NAME] + bytes[..off]
        decreases |rest|
      {
        var w := rest[0];
        rest := rest[1..];
        if w.Interrupted? {
          continue;
        }
        if w.Failed? {
          return false, rest;
        }
        var n := if w.n < |bytes| - off then w.n else |bytes| - off;
        assert bytes[..off + n] == bytes[..off] + bytes[off..off + n];
        staging.files := staging.files[TMP_NAME := staging.files[TMP_NAME] + bytes[off..off + n]];
        off := off + n;
      }
      assert bytes == bytes[..off] + bytes[off..];
      staging.files := staging.files[TMP_NAME := staging.files[TMP_NAME] + bytes[off..]];
      ok := true;
    }

    /** One turn of the finalize loop. */
    method CollectOne(h: Hash, path: string, script: FileScript, staging: Staging, st: Collected)
      returns (records: seq<Record>, bySha: map<string, nat>, totalBytes: nat, okCount: nat)
      requires Indexed(st) && staging.files == st.files && TMP_NAME !in staging.files
      modifies staging
      ensures Collected(records, bySha, totalBytes, okCount, staging.files) == Step(cfg, h, st, path, script)
    {
      records, bySha, totalBytes, okCount := st.records, st.bySha, st.totalBytes, st.okCount;
      var rec := Record("", 0, 0, [path], Missing);
      if script.lstat.LstatError? {
        records := records + [rec.(status := if script.lstat.enoent then Missing else Unreadable)];
        return;
      }
      if script.lstat.SymbolicLink? {
        records := records + [rec.(status := Symlink)];
        return;
      }
      if !script.lstat.Regular? {
        records := records + [rec.(status := Special)];
        return;
      }
      var size := script.lstat.size;
      rec := rec.(size := size, mode := script.lstat.mode % 0x1000);
      if size > cfg.maxFileBytes {
        records := records + [rec.(status := TooLarge)];
        return;
      }
      if okCount >= cfg.maxCount || (totalBytes + size) % TWO64 > cfg.maxTotalBytes {
        records := records + [rec.(status := BoundExceeded)];
        return;
      }
      if script.openIn.OpenError? {
        records := records + [rec.(status := if script.openIn.enoent then Missing else Unreadable)];
        return;
      }
      if !script.openOut {
        records := records + [rec.(status := Unreadable)];
        return;
      }
      var outcome := CopyToTemp(script, staging);
      if !outcome.Copied? {
        staging.files := staging.files - {TMP_NAME};
        records := records + [rec.(status := if outcome.CopyTooLarge? then TooLarge else Unreadable)];
        return;
      }
      records, bySha, totalBytes, okCount := KeepCopy(h, path, script.renamed, outcome.bytes, rec, staging, st);
    }

    /** The staged copy is merged into an existing record, kept under its hash, or dropped. */
    method KeepCopy(h: Hash, path: string, renamed: bool, copied: string, base: Record, staging: Staging, st: Collected)
      returns (records: seq<Record>, bySha: map<string, nat>, totalBytes: nat, okCount: nat)
      requires Indexed(st) && TMP_NAME in staging.files && staging.files[TMP_NAME] == copied
      requires staging.files - {TMP_NAME} == st.files && base.sourcePaths == [path]
      modifies staging
      ensures Collected(records, bySha, totalBytes, okCount, staging.files)
              == StepCopied(st, h, base, path, copied, renamed)
    {
      records, bySha, totalBytes, okCount := st.records, st.bySha, st.totalBytes, st.okCount;
      var sha := h(copied);
      var rec := base.(size := |copied|);
      if sha in bySha {
        staging.files := staging.files - {TMP_NAME};
        var i := bySha[sha];
        records := records[i := records[i].(sourcePaths := records[i].sourcePaths + [path])];
        return;
      }
      if !renamed {
        staging.files := staging.files - {TMP_NAME};
        records := records + [rec.(status := Unreadable)];
        return;
      }
      staging.files := (staging.files - {TMP_NAME})[sha := staging.files[TMP_NAME]];
      rec := rec.(sha256 := sha, status := Captured);
      totalBytes := totalBytes + |copied|;
      okCount := okCount + 1;
      bySha := bySha[sha := |records|];
      records := records + [rec];
    }

    /** Copy every candidate, in order, under the bounds.  The staging directory starts empty. */
    method Finalize(h: Hash, fs: string -> FileScript, staging: Staging) returns (records: seq<Record>)
      requires Valid() && staging.files == map[]
      requires forall b :: h(b) != TMP_NAME
      modifies staging
      ensures var st := Collect(cfg, h, fs, candidates); records == st.records && staging.files == st.files
      ensures TMP_NAME !in staging.files
    {
      records := [];
      var bySha: map<string, nat> := map[];
      var totalBytes: nat, okCount: nat := 0, 0;
      for k := 0 to |candidates|
        invariant Collected(records, bySha, totalBytes, okCount, staging.files) == Collect(cfg, h, fs, candidates[..k])
        invariant TMP_NAME !in staging.files
      {
        ghost var st := Collect(cfg, h, fs, candidates[..k]);
        assert candidates[..k + 1][..k] == candidates[..k];
        records, bySha, totalBytes, okCount :=
          CollectOne(h, candidates[k], fs(candidates[k]), staging,
                     Collected(records, bySha, totalBytes, okCount, staging.files));
        StepNames(cfg, h, st, candidates[k], fs(candidates[k]));
      }
      assert candidates[..|candidates|] == candidates;
      staging.files := staging.files - {TMP_NAME};
    }
  }

  // ------------------------------------------------------------------------------ the budget

  function OkCount(records: seq<Record>): nat {
    if records == [] then 0
    else OkCount(records[..|records| - 1]) + (if records[|records| - 1].status.Captured? then 1 else 0)
  }

  function OkSizes(records: seq<Record>): nat {
    if records == [] then 0
    else OkSizes(records[..|records| - 1]) + (if records[|records| - 1].status.Captured? then records[|records| - 1].size else 0)
  }

  // ---- what is staged, whatever the bounds

  /** An ok record is found under its hash, and has exactly its bytes staged. */
  ghost predicate StagedOk(h: Hash, st: Collected, i: nat)
    requires i < |st.records|
  {
    var r := st.records[i];
    && r.sha256 in st.bySha && st.bySha[r.sha256] == i
    && r.sha256 in st.files && h(st.files[r.sha256]) == r.sha256 && |st.files[r.sha256]| == r.size
  }

  /** by_sha indexes exactly the ok records, and the staged files are theirs. */
  ghost predicate Staged(h: Hash, st: Collected) {
    && Indexed(st)
    && (forall s :: s in st.bySha ==> st.records[st.bySha[s]].status.Captured? && st.records[st.bySha[s]].sha256 == s)
    && (forall i :: 0 <= i < |st.records| && st.records[i].status.Captured? ==> StagedOk(h, st, i))
    && st.files.Keys == st.bySha.Keys
  }

  lemma AddStaged(h: Hash, st: Collected, r: Record, status: Status)
    requires Staged(h, st) && status != Captured
    ensures Staged(h, Add(st, r, status))
  {
    var after := Add(st, r, status);
    forall i | 0 <= i < |after.records| && after.records[i].status.Captured? ensures StagedOk(h, after, i) {
      assert StagedOk(h, st, i);
    }
  }

  lemma MergeStaged(h: Hash, st: Collected, i: nat, paths: seq<string>)
    requires Staged(h, st) && i < |st.records|
    ensures Staged(h, st.(records := st.records[i := st.records[i].(sourcePaths := paths)]))
  {
    var after := st.(records := st.records[i := st.records[i].(sourcePaths := paths)]);
    forall j | 0 <= j < |after.records| && after.records[j].status.Captured? ensures StagedOk(h, after, j) {
      assert StagedOk(h, st, j);
    }
  }

  lemma KeepStaged(h: Hash, st: Collected, r: Record, bytes: string)
    requires Staged(h, st) && h(bytes) !in st.bySha
    ensures Staged(h, Kept(st, r, h(bytes), bytes))
  {
    var after := Kept(st, r, h(bytes), bytes);
    forall i | 0 <= i < |after.records| && after.records[i].status.Captured? ensures StagedOk(h, after, i) {
      if i < |st.records| {
        assert StagedOk(h, st, i);
      }
    }
  }

  lemma StepStaged(cfg: Config, h: Hash, st: Collected, path: string, script: FileScript)
    requires Staged(h, st)
    ensures Staged(h, Step(cfg, h, st, path, script))
  {
    var r := BaseRecord(path, script.lstat);
    match Decide(cfg, st.totalBytes, st.okCount, script)
    case Reject(status) => AddStaged(h, st, r, status);
    case Keep(bytes) =>
      if h(bytes) in st.bySha {
        var i := st.bySha[h(bytes)];
        MergeStaged(h, st, i, st.records[i].sourcePaths + [path]);
      } else if !script.renamed {
        AddStaged(h, st, r.(size := |bytes|), Unreadable);
      } else {
        KeepStaged(h, st, r, bytes);
      }
  }

  /** Throughout finalize, by_sha indexes exactly the ok records and exactly their bytes are staged,
      under any bounds. */
  lemma {:induction false} StagedThroughout(cfg: Config, h: Hash, fs: string -> FileScript, paths: seq<string>)
    ensures Staged(h, Collect(cfg, h, fs, paths))
  {
    if paths == [] {
    } else {
      var n := |paths| - 1;
      StagedThroughout(cfg, h, fs, paths[..n]);
      StepStaged(cfg, h, Collect(cfg, h, fs, paths[..n]), paths[n], fs(paths[n]));
    }
  }

  // ---- the bounds

  /** What holds throughout finalize. */
  ghost predicate Within(cfg: Config, st: Collected) {
    && Indexed(st)
    && (forall i :: 0 <= i < |st.records| && st.records[i].status.Captured? ==> st.records[i].size <= cfg.maxFileBytes)
    && st.okCount == OkCount(st.records) <= cfg.maxCount
    && st.totalBytes == OkSizes(st.records) <= cfg.maxTotalBytes + cfg.maxFileBytes
  }

  /** The file delivers more bytes than lstat promised. */
  predicate Grows(script: FileScript) {
    script.lstat.Regular? && BytesIn(script.chunks) > script.lstat.size
  }

  lemma AddKeeps(cfg: Config, st: Collected, r: Record, status: Status)
    requires Within(cfg, st) && status != Captured
    ensures Within(cfg, Add(st, r, status))
  {
    assert Add(st, r, status).records[..|st.records|] == st.records;
  }

  lemma {:induction false} MergeKeepsSums(records: seq<Record>, i: nat, paths: seq<string>)
    requires i < |records|
    ensures OkCount(records[i := records[i].(sourcePaths := paths)]) == OkCount(records)
    ensures OkSizes(records[i := records[i].(sourcePaths := paths)]) == OkSizes(records)
  {
    var n := |records| - 1;
    var after := records[i := records[i].(sourcePaths := paths)];
    if i == n {
      assert after[..n] == records[..n];
    } else {
      MergeKeepsSums(records[..n], i, paths);
      assert after[..n] == records[..n][i := records[i].(sourcePaths := paths)];
    }
  }

  lemma MergeKeeps(cfg: Config, st: Collected, i: nat, paths: seq<string>)
    requires Within(cfg, st) && i < |st.records|
    ensures Within(cfg, st.(records := st.records[i := st.records[i].(sourcePaths := paths)]))
  {
    MergeKeepsSums(st.records, i, paths);
  }

  lemma KeepKeeps(cfg: Config, st: Collected, r: Record, sha: string, bytes: string)
    requires Within(cfg, st)
    requires st.okCount < cfg.maxCount && |bytes| <= cfg.maxFileBytes && st.totalBytes <= cfg.maxTotalBytes
    ensures Within(cfg, Kept(st, r, sha, bytes))
  {
    assert Kept(st, r, sha, bytes).records[..|st.records|] == st.records;
  }

  lemma NoWrap(cfg: Config, total: nat, size: nat)
    requires total <= cfg.maxTotalBytes + cfg.maxFileBytes && size <= cfg.maxFileBytes
    requires cfg.maxTotalBytes + 2 * cfg.maxFileBytes < TWO64
    ensures (total + size) % TWO64 == total + size
  {
  }

  /** What is kept fits: under the count, under the per-file bound, and, unless the file grew, under
      the total. */
  lemma KeptFits(cfg: Config, totalBytes: nat, okCount: nat, script: FileScript)
    requires totalBytes <= cfg.maxTotalBytes + cfg.maxFileBytes && cfg.maxTotalBytes + 2 * cfg.maxFileBytes < TWO64
    ensures var d := Decide(cfg, totalBytes, okCount, script);
            d.Keep? ==>
              && okCount < cfg.maxCount && |d.bytes| <= cfg.maxFileBytes && totalBytes <= cfg.maxTotalBytes
              && (!Grows(script) ==> totalBytes + |d.bytes| <= cfg.maxTotalBytes)
  {
    if script.lstat.Regular? && script.lstat.size <= cfg.maxFileBytes {
      NoWrap(cfg, totalBytes, script.lstat.size);
      CopyBounds(script.chunks, script.writes, cfg.maxFileBytes, "");
    }
  }

  lemma StepCopiedKeeps(cfg: Config, h: Hash, st: Collected, r: Record, path: string, bytes: string, renamed: bool)
    requires Within(cfg, st)
    requires st.okCount < cfg.maxCount && |bytes| <= cfg.maxFileBytes && st.totalBytes <= cfg.maxTotalBytes
    ensures Within(cfg, StepCopied(st, h, r, path, bytes, renamed))
    ensures StepCopied(st, h, r, path, bytes, renamed).totalBytes <= st.totalBytes + |bytes|
  {
    if h(bytes) in st.bySha {
      var i := st.bySha[h(bytes)];
      MergeKeeps(cfg, st, i, st.records[i].sourcePaths + [path]);
    } else if !renamed {
      AddKeeps(cfg, st, r.(size := |bytes|), Unreadable);
    } else {
      KeepKeeps(cfg, st, r, h(bytes), bytes);
    }
  }

  /** Each candidate keeps the budget; the hard total is overrun only when a file grew after lstat. */
  lemma StepKeepsBudget(cfg: Config, h: Hash, st: Collected, path: string, script: FileScript)
    requires Within(cfg, st) && cfg.maxTotalBytes + 2 * cfg.maxFileBytes < TWO64
    ensures Within(cfg, Step(cfg, h, st, path, script))
    ensures st.totalBytes <= cfg.maxTotalBytes && !Grows(script) ==>
              Step(cfg, h, st, path, script).totalBytes <= cfg.maxTotalBytes
  {
    var r := BaseRecord(path, script.lstat);
    KeptFits(cfg, st.totalBytes, st.okCount, script);
    match Decide(cfg, st.totalBytes, st.okCount, script)
    case Reject(status) => AddKeeps(cfg, st, r, status);
    case Keep(bytes) => StepCopiedKeeps(cfg, h, st, r, path, bytes, script.renamed);
  }

  /** The budget holds throughout finalize: at most max_count ok records, each within the per-file
      bound; total_bytes is the sum of their sizes, at most max_total + max_file, and at most
      max_total when no file grows after its lstat. */
  lemma {:induction false} BudgetThroughout(cfg: Config, h: Hash, fs: string -> FileScript, paths: seq<string>)
    requires cfg.maxTotalBytes + 2 * cfg.maxFileBytes < TWO64
    ensures Within(cfg, Collect(cfg, h, fs, paths))
    ensures (forall p :: p in paths ==> !Grows(fs(p))) ==> Collect(cfg, h, fs, paths).totalBytes <= cfg.maxTotalBytes
  {
    if paths == [] {
    } else {
      var n := |paths| - 1;
      BudgetThroughout(cfg, h, fs, paths[..n]);
      StepKeepsBudget(cfg, h, Collect(cfg, h, fs, paths[..n]), paths[n], fs(paths[n]));
    }
  }

  /** Ok records have pairwise distinct hashes. */
  lemma DistinctHashes(h: Hash, st: Collected, i: nat, j: nat)
    requires Staged(h, st) && i < j < |st.records| && st.records[i].status.Captured? && st.records[j].status.Captured?
    ensures st.records[i].sha256 != st.records[j].sha256
  {
    assert StagedOk(h, st, i) && StagedOk(h, st, j);
  }

  /** The staging directory holds exactly one file per ok record. */
  lemma StagedExactly(h: Hash, st: Collected, name: string)
    requires Staged(h, st)
    ensures name in st.files <==> exists i :: 0 <= i < |st.records| && st.records[i].status.Captured? && st.records[i].sha256 == name
  {
    forall i | 0 <= i < |st.records| && st.records[i].status.Captured? && st.records[i].sha256 == name ensures name in st.files {
      assert StagedOk(h, st, i);
    }
    if name in st.files {
      assert name in st.files.Keys;
      var i := st.bySha[name];
      assert st.records[i].status.Captured? && st.records[i].sha256 == name;
    }
  }

  // --------------------------------------------------------------------------- the partition

  function PathsOf(records: seq<Record>): multiset<string> {
    if records == [] then multiset{}
    else PathsOf(records[..|records| - 1]) + multiset(records[|records| - 1].sourcePaths)
  }

  lemma {:induction false} MergeAddsPath(records: seq<Record>, i: nat, path: string)
    requires i < |records|
    ensures PathsOf(records[i := records[i].(sourcePaths := records[i].sourcePaths + [path])])
            == PathsOf(records) + multiset{path}
  {
    var n := |records| - 1;
    var r := records[i].(sourcePaths := records[i].sourcePaths + [path]);
    var after := records[i := r];
    if i == n {
      assert after[..n] == records[..n];
    } else {
      MergeAddsPath(records[..n], i, path);
      assert after[..n] == records[..n][i := r];
    }
  }

  lemma StepAddsPath(cfg: Config, h: Hash, st: Collected, path: string, script: FileScript)
    requires Indexed(st)
    ensures PathsOf(Step(cfg, h, st, path, script).records) == PathsOf(st.records) + multiset{path}
  {
    var after := Step(cfg, h, st, path, script);
    if |after.records| == |st.records| + 1 {
      assert after.records[..|st.records|] == st.records;
      assert after.records[|st.records|].sourcePaths == [path];
      assert multiset([path]) == multiset{path};
    } else {
      var d := Decide(cfg, st.totalBytes, st.okCount, script);
      MergeAddsPath(st.records, st.bySha[h(d.bytes)], path);
    }
  }

  lemma MultisetSplit(s: seq<string>, n: nat)
    requires |s| == n + 1
    ensures multiset(s) == multiset(s[..n]) + multiset{s[n]}
  {
    assert s == s[..n] + [s[n]];
  }

  lemma {:induction false} PathsConserved(cfg: Config, h: Hash, fs: string -> FileScript, paths: seq<string>)
    ensures PathsOf(Collect(cfg, h, fs, paths).records) == multiset(paths)
  {
    if paths == [] {
    } else {
      var n := |paths| - 1;
      var st := Collect(cfg, h, fs, paths[..n]);
      PathsConserved(cfg, h, fs, paths[..n]);
      StepAddsPath(cfg, h, st, paths[n], fs(paths[n]));
      assert Collect(cfg, h, fs, paths) == Step(cfg, h, st, paths[n], fs(paths[n]));
      MultisetSplit(paths, n);
    }
  }

  predicate Mentions(records: seq<Record>, path: string) {
    exists i :: 0 <= i < |records| && path in records[i].sourcePaths
  }

  lemma MentionsSplits(records: seq<Record>, path: string)
    requires records != []
    ensures var n := |records| - 1;
            Mentions(records, path) <==> Mentions(records[..n], path) || path in records[n].sourcePaths
  {
    var n := |records| - 1;
    if Mentions(records[..n], path) {
      var i :| 0 <= i < n && path in records[..n][i].sourcePaths;
      assert path in records[i].sourcePaths;
    }
    if Mentions(records, path) {
      var i :| 0 <= i < |records| && path in records[i].sourcePaths;
      assert i < n ==> path in records[..n][i].sourcePaths;
    }
  }

  lemma {:induction false} PathInRecords(records: seq<Record>, path: string)
    ensures path in PathsOf(records) <==> Mentions(records, path)
  {
    if records == [] {
    } else {
      var n := |records| - 1;
      PathInRecords(records[..n], path);
      MentionsSplits(records, path);
      assert path in multiset(records[n].sourcePaths) <==> path in records[n].sourcePaths;
    }
  }

  lemma {:induction false} RecordPathsCounted(records: seq<Record>, i: nat, path: string)
    requires i < |records|
    ensures multiset(records[i].sourcePaths)[path] <= PathsOf(records)[path]
  {
    var n := |records| - 1;
    if i < n {
      RecordPathsCounted(records[..n], i, path);
    }
  }

  lemma {:induction false} TwoRecordsCounted(records: seq<Record>, i: nat, j: nat, path: string)
    requires i < j < |records| && path in records[i].sourcePaths && path in records[j].sourcePaths
    ensures PathsOf(records)[path] >= 2
  {
    var n := |records| - 1;
    assert path in multiset(records[j].sourcePaths);
    if j < n {
      TwoRecordsCounted(records[..n], i, j, path);
    } else {
      RecordPathsCounted(records[..n], i, path);
      assert path in multiset(records[i].sourcePaths);
    }
  }

  lemma {:induction false} OccursOnce(s: seq<string>, x: string)
    requires forall i, j :: 0 <= i < j < |s| ==> s[i] != s[j]
    ensures multiset(s)[x] <= 1
  {
    if s != [] {
      OccursOnce(s[1..], x);
      assert s == [s[0]] + s[1..];
      if x == s[0] {
        assert x !in s[1..];
      }
    }
  }

  /** Partition: after finalize every candidate path occurs in exactly one record, exactly once. */
  lemma EachPathOnce(cfg: Config, h: Hash, fs: string -> FileScript, paths: seq<string>, path: string)
    requires Ascending(paths)
    ensures var records := Collect(cfg, h, fs, paths).records;
            && (path in paths <==> exists i :: 0 <= i < |records| && path in records[i].sourcePaths)
            && (forall i :: 0 <= i < |records| ==> multiset(records[i].sourcePaths)[path] <= 1)
            && (forall i, j :: 0 <= i < j < |records| && path in records[i].sourcePaths ==> path !in records[j].sourcePaths)
  {
    PathsConserved(cfg, h, fs, paths);
    var records := Collect(cfg, h, fs, paths).records;
    PathInRecords(records, path);
    AscendingDistinct(paths);
    OccursOnce(paths, path);
    forall i | 0 <= i < |records| ensures multiset(records[i].sourcePaths)[path] <= 1 {
      RecordPathsCounted(records, i, path);
    }
    forall i, j | 0 <= i < j < |records| && path in records[i].sourcePaths ensures path !in records[j].sourcePaths {
      if path in records[j].sourcePaths {
        TwoRecordsCounted(records, i, j, path);
      }
    }
  }

  // -------------------------------------------------------------------------- what becomes a candidate

  predicate UpToNul(buf: string, path: string) {
    path <= buf && '\0' !in path && (|path| < |buf| ==> buf[|path|] == '\0')
  }

  lemma UpToNulIsBounded(buf: string, path: string)
    requires UpToNul(buf, path)
    ensures Bounded(buf) == path
  {
    var b := Bounded(buf);
    assert |b| <= |path| ==> b <= path;
    assert |path| <= |b| ==> path <= b;
  }

  lemma FlagsSplit(flags: bv32)
    ensures flags & (O_CREAT | O_WRONLY | O_RDWR) == 0 <==> flags & 0x1 == 0 && flags & 0x2 == 0 && flags & 0x40 == 0
  {
  }

  /** An event proposes a path exactly if it succeeded, opened with write intent or renamed, and the
      path, its buffer up to the first NUL, is absolute. */
  lemma ProposedIff(e: FileEvent, path: string)
    ensures Proposed(e) == Some(path)
            <==> e.ret >= 0 && path != "" && path[0] == '/'
                 && ((e.kind == Openat && (e.flags & 0x1 != 0 || e.flags & 0x2 != 0 || e.flags & 0x40 != 0) && UpToNul(e.pathA, path))
                     || (e.kind == Renameat2 && UpToNul(e.pathB, path)))
  {
    FlagsSplit(e.flags);
    if UpToNul(e.pathA, path) {
      UpToNulIsBounded(e.pathA, path);
    }
    if UpToNul(e.pathB, path) {
      UpToNulIsBounded(e.pathB, path);
    }
  }

  lemma SameHead(a: string, b: string)
    ensures forall k :: 0 < k <= |a| && k <= |b| && a[..k] == b[..k] ==> a[0] == b[0]
  {
    forall k | 0 < k <= |a| && k <= |b| && a[..k] == b[..k] ensures a[0] == b[0] {
      assert a[0] == a[..k][0] && b[0] == b[..k][0];
    }
  }

  /** The order is that of the first character that differs, a prefix coming first. */
  lemma {:induction false} LessIff(a: string, b: string)
    ensures Less(a, b)
            <==> exists k: nat :: k <= |a| && k < |b| && a[..k] == b[..k] && (k == |a| || a[k] < b[k])
  {
    if a != "" && b != "" && a[0] == b[0] {
      LessIff(a[1..], b[1..]);
      if k: nat :| k <= |a[1..]| && k < |b[1..]| && a[1..][..k] == b[1..][..k] && (k == |a[1..]| || a[1..][k] < b[1..][k]) {
        assert a[..k + 1] == [a[0]] + a[1..][..k] && b[..k + 1] == [b[0]] + b[1..][..k];
      }
      if k: nat :| k <= |a| && k < |b| && a[..k] == b[..k] && (k == |a| || a[k] < b[k]) {
        assert k > 0;
        assert a[1..][..k - 1] == a[..k][1..] && b[1..][..k - 1] == b[..k][1..];
      }
    } else if b != "" {
      assert a[..0] == b[..0];
      SameHead(a, b);
    }
  }

  // ------------------------------------------------------------------------------ when a copy succeeds

  /** No read up to the end of the file fails, and no write does. */
  predicate ReadsWell(chunks: seq<ReadResult>) {
    chunks == [] || (chunks[0].Data? && chunks[0].bytes == "") || (!chunks[0].ReadError? && ReadsWell(chunks[1..]))
  }

  predicate WritesWell(writes: seq<WriteResult>) {
    forall w :: w in writes ==> w != Failed
  }

  lemma {:induction false} DrainsWell(left: nat, writes: seq<WriteResult>)
    requires WritesWell(writes)
    ensures Drain(left, writes).0 && WritesWell(Drain(left, writes).1)
    decreases |writes|
  {
    if left > 0 && writes != [] {
      assert writes[0] in writes && forall w :: w in writes[1..] ==> w in writes;
      match writes[0]
      case Interrupted => DrainsWell(left, writes[1..]);
      case Failed =>
      case Wrote(n) =>
        if n < left {
          DrainsWell(left - n, writes[1..]);
        }
    }
  }

  /** The bytes the writes take. */
  function Taken(writes: seq<WriteResult>): nat {
    if writes == [] then 0 else (if writes[0].Wrote? then writes[0].n else 0) + Taken(writes[1..])
  }

  lemma HeadTaken(w: WriteResult, rest: seq<WriteResult>)
    ensures Taken([w] + rest) == (if w.Wrote? then w.n else 0) + Taken(rest)
    ensures w != Failed ==> (WritesWell([w] + rest) <==> WritesWell(rest))
  {
    assert ([w] + rest)[1..] == rest;
    assert forall x :: x in [w] + rest <==> x == w || x in rest;
  }

  /** The first failing write, which finds some of the bytes not yet taken. */
  ghost predicate FailsAt(writes: seq<WriteResult>, left: nat, k: nat) {
    k < |writes| && writes[k] == Failed && WritesWell(writes[..k]) && Taken(writes[..k]) < left
  }

  lemma FailsLater(writes: seq<WriteResult>, left: nat, k: nat)
    requires writes != [] && writes[0] != Failed
    ensures !FailsAt(writes, left, 0)
    ensures var taken := if writes[0].Wrote? then writes[0].n else 0;
            FailsAt(writes, left, k + 1) <==> taken < left && FailsAt(writes[1..], left - taken, k)
  {
    if k < |writes[1..]| {
      assert writes[..k + 1] == [writes[0]] + writes[1..][..k];
      HeadTaken(writes[0], writes[1..][..k]);
    }
  }

  /** A chunk fails to drain exactly if some write fails before its bytes are all taken. */
  lemma {:induction false} DrainFailsIff(left: nat, writes: seq<WriteResult>)
    ensures !Drain(left, writes).0 <==> exists k: nat :: FailsAt(writes, left, k)
    decreases |writes|
  {
    if left > 0 && writes != [] && writes[0] == Failed {
      assert writes[..0] == [];
      assert FailsAt(writes, left, 0);
    } else if left > 0 && writes != [] {
      var taken := if writes[0].Wrote? then writes[0].n else 0;
      if taken < left {
        var rest, less := writes[1..], left - taken;
        DrainFailsIff(less, rest);
        if k: nat :| FailsAt(rest, less, k) {
          FailsLater(writes, left, k);
        }
      }
      if k: nat :| FailsAt(writes, left, k) {
        FailsLater(writes, left, if k > 0 then k - 1 else 0);
      }
    }
  }

  lemma Joined(a: string, b: string, c: string)
    ensures a + b + c == a + (b + c)
  {
  }

  /** Without hard errors a file is copied whole if it fits the limit, and is too large otherwise. */
  lemma {:induction false} CopyDecides(chunks: seq<ReadResult>, writes: seq<WriteResult>, limit: nat, got: string)
    requires ReadsWell(chunks) && WritesWell(writes) && |got| <= limit
    ensures var whole := got + Delivered(chunks);
            Copy(chunks, writes, limit, got) == if |whole| <= limit then Copied(whole) else CopyTooLarge
    decreases |chunks|
  {
    if chunks == [] || (chunks[0].Data? && chunks[0].bytes == "") {
      assert got + "" == got;
    } else if chunks[0].Data? {
      var bytes := chunks[0].bytes;
      DrainsWell(|bytes|, writes);
      Joined(got, bytes, Delivered(chunks[1..]));
      if |got + bytes| <= limit {
        CopyDecides(chunks[1..], Drain(|bytes|, writes).1, limit, got + bytes);
      }
    } else {
      CopyDecides(chunks[1..], writes, limit, got);
    }
  }

  // ------------------------------------------------------------------------ what becomes of a candidate

  predicate HasRoom(cfg: Config, st: Collected, size: nat) {
    st.okCount < cfg.maxCount && (st.totalBytes + size) % 0x1_0000_0000_0000_0000 <= cfg.maxTotalBytes
  }

  /** The file passes the bounds as lstat shows it. */
  predicate FitsBounds(cfg: Config, st: Collected, size: nat) {
    size <= cfg.maxFileBytes && HasRoom(cfg, st, size)
  }

  /** The candidate is a regular file within the bounds. */
  predicate Reached(cfg: Config, st: Collected, script: FileScript) {
    script.lstat.Regular? && FitsBounds(cfg, st, script.lstat.size)
  }

  function CopyOf(cfg: Config, script: FileScript): CopyOutcome {
    Copy(script.chunks, script.writes, cfg.maxFileBytes, "")
  }

  /** The copy is made. */
  predicate CopyMade(cfg: Config, st: Collected, script: FileScript) {
    Reached(cfg, st, script) && script.openIn.Opened? && script.openOut
  }

  /** The candidate gets a record of its own, with this status. */
  predicate Gets(st: Collected, after: Collected, path: string, status: Status) {
    && |after.records| == |st.records| + 1 && after.records[..|st.records|] == st.records
    && after.records[|st.records|].status == status && after.records[|st.records|].sourcePaths == [path]
  }

  /** Each status is given exactly for its cause; a copy of known content gets no record of its own. */
  lemma StatusIff(cfg: Config, h: Hash, st: Collected, path: string, script: FileScript)
    requires Indexed(st)
    ensures var (after, c) := (Step(cfg, h, st, path, script), CopyOf(cfg, script));
            var (lstat, made) := (script.lstat, CopyMade(cfg, st, script));
            && (Gets(st, after, path, Missing)
                <==> lstat == LstatError(true) || (Reached(cfg, st, script) && script.openIn == OpenError(true)))
            && (Gets(st, after, path, Symlink) <==> lstat == SymbolicLink)
            && (Gets(st, after, path, Special) <==> lstat == NotRegular)
            && (Gets(st, after, path, TooLarge)
                <==> (lstat.Regular? && lstat.size > cfg.maxFileBytes) || (made && c.CopyTooLarge?))
            && (Gets(st, after, path, BoundExceeded)
                <==> lstat.Regular? && lstat.size <= cfg.maxFileBytes && !HasRoom(cfg, st, lstat.size))
            && (Gets(st, after, path, Unreadable)
                <==> lstat == LstatError(false)
                     || (Reached(cfg, st, script) && (script.openIn == OpenError(false) || (script.openIn.Opened? && !script.openOut)))
                     || (made && (c.CopyFailed? || (c.Copied? && h(c.bytes) !in st.bySha && !script.renamed))))
            && (Gets(st, after, path, Captured)
                <==> made && c.Copied? && h(c.bytes) !in st.bySha && script.renamed)
            && (|after.records| == |st.records| <==> made && c.Copied? && h(c.bytes) in st.bySha)
  {
    var after := Step(cfg, h, st, path, script);
    if |after.records| == |st.records| + 1 {
      assert after.records[..|st.records|] == st.records;
    }
  }

  /** The size and mode of a candidate's own record: those of lstat, but the bytes copied once there are
      any to keep. */
  lemma RecordSays(cfg: Config, h: Hash, st: Collected, path: string, script: FileScript)
    requires Indexed(st) && |Step(cfg, h, st, path, script).records| == |st.records| + 1
    ensures var (r, c) := (Step(cfg, h, st, path, script).records[|st.records|], CopyOf(cfg, script));
            && (script.lstat.Regular? && script.lstat.mode < 0x1000 ==> r.mode == script.lstat.mode)
            && (script.lstat.Regular? && !(CopyMade(cfg, st, script) && c.Copied?) ==> r.size == script.lstat.size)
            && (CopyMade(cfg, st, script) && c.Copied? ==> r.size == |c.bytes|)
            && (r.status.Captured? ==> c.Copied? && r.sha256 == h(c.bytes))
            && (!r.status.Captured? ==> r.sha256 == "")
  {
  }

  // ------------------------------------------------------------------------------------ what is kept

  /** Some ok record lists the path, and these bytes are staged under its hash. */
  ghost predicate KeptAs(h: Hash, st: Collected, path: string, bytes: string) {
    exists i :: 0 <= i < |st.records| && st.records[i].status.Captured? && path in st.records[i].sourcePaths
                && st.records[i].sha256 == h(bytes) && h(bytes) in st.files
  }

  /** Nothing in the way of keeping a file: it is regular, both opens work, no read or write fails, what
      it delivers fits the per-file bound as does its size, and the rename works. */
  predicate Good(cfg: Config, script: FileScript) {
    && script.lstat.Regular? && script.lstat.size <= cfg.maxFileBytes && script.openIn.Opened? && script.openOut
    && ReadsWell(script.chunks) && WritesWell(script.writes) && |Delivered(script.chunks)| <= cfg.maxFileBytes && script.renamed
  }

  /** A good file for which there is room is kept, in a record of its own or with those of the same
      content. */
  lemma GoodFileIsKept(cfg: Config, h: Hash, st: Collected, path: string, script: FileScript)
    requires Staged(h, st) && Good(cfg, script) && HasRoom(cfg, st, script.lstat.size)
    ensures KeptAs(h, Step(cfg, h, st, path, script), path, Delivered(script.chunks))
  {
    var (bytes, after) := (Delivered(script.chunks), Step(cfg, h, st, path, script));
    CopyDecides(script.chunks, script.writes, cfg.maxFileBytes, "");
    assert "" + bytes == bytes;
    assert after == StepCopied(st, h, BaseRecord(path, script.lstat), path, bytes, true);
    if h(bytes) in st.bySha {
      var i := st.bySha[h(bytes)];
      assert StagedOk(h, st, i);
      assert path in after.records[i].sourcePaths;
    } else {
      assert after.records[|st.records|].status.Captured?;
    }
  }

  /** What is kept stays kept. */
  lemma KeptStays(cfg: Config, h: Hash, st: Collected, path: string, script: FileScript, other: string, bytes: string)
    requires Indexed(st) && KeptAs(h, st, other, bytes)
    ensures KeptAs(h, Step(cfg, h, st, path, script), other, bytes)
  {
    var i :| 0 <= i < |st.records| && st.records[i].status.Captured? && other in st.records[i].sourcePaths
             && st.records[i].sha256 == h(bytes) && h(bytes) in st.files;
    var after := Step(cfg, h, st, path, script);
    assert after.records[i].status.Captured? && after.records[i].sha256 == h(bytes);
  }

  /** Kept bytes are those staged, unless two different contents have the same hash. */
  lemma KeptBytes(h: Hash, st: Collected, path: string, bytes: string)
    requires Staged(h, st) && KeptAs(h, st, path, bytes)
    ensures h(st.files[h(bytes)]) == h(bytes)
  {
    var i :| 0 <= i < |st.records| && st.records[i].status.Captured? && path in st.records[i].sourcePaths
             && st.records[i].sha256 == h(bytes) && h(bytes) in st.files;
    assert StagedOk(h, st, i);
  }

  lemma CollectUnfolds(cfg: Config, h: Hash, fs: string -> FileScript, paths: seq<string>)
    requires paths != []
    ensures var n := |paths| - 1;
            Collect(cfg, h, fs, paths) == Step(cfg, h, Collect(cfg, h, fs, paths[..n]), paths[n], fs(paths[n]))
  {
  }

  lemma {:induction false} KeptOnwards(cfg: Config, h: Hash, fs: string -> FileScript, paths: seq<string>, k: nat,
                                       path: string, bytes: string)
    requires k <= |paths| && KeptAs(h, Collect(cfg, h, fs, paths[..k]), path, bytes)
    ensures KeptAs(h, Collect(cfg, h, fs, paths), path, bytes)
    decreases |paths|
  {
    if k == |paths| {
      assert paths[..k] == paths;
    } else {
      var n := |paths| - 1;
      assert paths[..n][..k] == paths[..k];
      KeptOnwards(cfg, h, fs, paths[..n], k, path, bytes);
      CollectUnfolds(cfg, h, fs, paths);
      KeptStays(cfg, h, Collect(cfg, h, fs, paths[..n]), paths[n], fs(paths[n]), path, bytes);
    }
  }

  lemma LastIsKept(cfg: Config, h: Hash, fs: string -> FileScript, paths: seq<string>)
    requires paths != [] && Good(cfg, fs(paths[|paths| - 1]))
    requires HasRoom(cfg, Collect(cfg, h, fs, paths[..|paths| - 1]), fs(paths[|paths| - 1]).lstat.size)
    ensures var path := paths[|paths| - 1]; KeptAs(h, Collect(cfg, h, fs, paths), path, Delivered(fs(path).chunks))
  {
    var n := |paths| - 1;
    StagedThroughout(cfg, h, fs, paths[..n]);
    CollectUnfolds(cfg, h, fs, paths);
    GoodFileIsKept(cfg, h, Collect(cfg, h, fs, paths[..n]), paths[n], fs(paths[n]));
  }

  /** Finalize keeps every good candidate that finds room at its turn. */
  lemma GoodFilesAreKept(cfg: Config, h: Hash, fs: string -> FileScript, paths: seq<string>, k: nat)
    requires k < |paths| && Good(cfg, fs(paths[k]))
    requires HasRoom(cfg, Collect(cfg, h, fs, paths[..k]), fs(paths[k]).lstat.size)
    ensures KeptAs(h, Collect(cfg, h, fs, paths), paths[k], Delivered(fs(paths[k]).chunks))
  {
    assert paths[..k + 1][..k] == paths[..k];
    LastIsKept(cfg, h, fs, paths[..k + 1]);
    KeptOnwards(cfg, h, fs, paths, k + 1, paths[k], Delivered(fs(paths[k]).chunks));
  }

  /** The lstat sizes of the candidates, together. */
  function TotalSize(fs: string -> FileScript, paths: seq<string>): nat {
    if paths == [] then 0
    else
      var l := fs(paths[|paths| - 1]).lstat;
      TotalSize(fs, paths[..|paths| - 1]) + (if l.Regular? then l.size else 0)
  }

  lemma SpentByOne(cfg: Config, h: Hash, st: Collected, path: string, script: FileScript)
    requires Indexed(st) && !Grows(script)
    ensures var after := Step(cfg, h, st, path, script);
            && after.okCount <= st.okCount + 1
            && after.totalBytes <= st.totalBytes + (if script.lstat.Regular? then script.lstat.size else 0)
  {
    CopyBounds(script.chunks, script.writes, cfg.maxFileBytes, "");
  }

  lemma {:induction false} SpentAtMost(cfg: Config, h: Hash, fs: string -> FileScript, paths: seq<string>)
    requires forall p :: p in paths ==> !Grows(fs(p))
    ensures var st := Collect(cfg, h, fs, paths); st.okCount <= |paths| && st.totalBytes <= TotalSize(fs, paths)
  {
    if paths == [] {
    } else {
      var n := |paths| - 1;
      SpentAtMost(cfg, h, fs, paths[..n]);
      assert paths[n] in paths;
      SpentByOne(cfg, h, Collect(cfg, h, fs, paths[..n]), paths[n], fs(paths[n]));
      CollectUnfolds(cfg, h, fs, paths);
    }
  }

  lemma {:induction false} PrefixSize(fs: string -> FileScript, paths: seq<string>, k: nat)
    requires k < |paths| && fs(paths[k]).lstat.Regular?
    ensures TotalSize(fs, paths[..k]) + fs(paths[k]).lstat.size <= TotalSize(fs, paths)
  {
    var n := |paths| - 1;
    if k < n {
      assert paths[..n][..k] == paths[..k];
      PrefixSize(fs, paths[..n], k);
    }
  }

  /** When everything fits the bounds and no file grows, every good candidate is kept. */
  lemma RoomForAll(cfg: Config, h: Hash, fs: string -> FileScript, paths: seq<string>, k: nat)
    requires |paths| <= cfg.maxCount && TotalSize(fs, paths) <= cfg.maxTotalBytes < 0x1_0000_0000_0000_0000
    requires forall p :: p in paths ==> !Grows(fs(p))
    requires k < |paths| && Good(cfg, fs(paths[k]))
    ensures KeptAs(h, Collect(cfg, h, fs, paths), paths[k], Delivered(fs(paths[k]).chunks))
  {
    SpentAtMost(cfg, h, fs, paths[..k]);
    PrefixSize(fs, paths, k);
    GoodFilesAreKept(cfg, h, fs, paths, k);
  }

  // -------------------------------------------------------------------- where a copy stops, and how

  /** What is left of the write results when these chunks have been written. */
  function WritesAfter(chunks: seq<ReadResult>, writes: seq<WriteResult>): seq<WriteResult> {
    if chunks == [] then writes
    else
      var n := |chunks| - 1;
      var left := WritesAfter(chunks[..n], writes);
      if chunks[n].Data? then Drain(|chunks[n].bytes|, left).1 else left
  }

  /** Chunk `k` is an interruption, or data that drains and fits. */
  predicate Passes(chunks: seq<ReadResult>, writes: seq<WriteResult>, limit: nat, k: nat)
    requires k < |chunks|
  {
    chunks[k].ReadInterrupted?
    || (chunks[k].Data? && chunks[k].bytes != "" && Drain(|chunks[k].bytes|, WritesAfter(chunks[..k], writes)).0
        && |Delivered(chunks[..k + 1])| <= limit)
  }

  /** The outcome by the first chunk that does not pass: the end of the file, a read error, data that
      cannot be written, or data past the limit. */
  predicate EndsAt(chunks: seq<ReadResult>, writes: seq<WriteResult>, k: nat, c: CopyOutcome) {
    if k >= |chunks| || chunks[k] == Data("") then c == Copied(Delivered(chunks))
    else if chunks[k].ReadError? then c == CopyFailed
    else if chunks[k].Data? && !Drain(|chunks[k].bytes|, WritesAfter(chunks[..k], writes)).0 then c == CopyFailed
    else c == CopyTooLarge
  }

  lemma {:induction false} DeliveredMore(chunks: seq<ReadResult>, last: ReadResult)
    requires forall i :: 0 <= i < |chunks| ==> chunks[i] != Data("")
    ensures Delivered(chunks + [last]) == Delivered(chunks) + if last.Data? then last.bytes else ""
    decreases |chunks|
  {
    if chunks == [] {
      assert (chunks + [last])[1..] == [];
    } else {
      DeliveredMore(chunks[1..], last);
      assert (chunks + [last])[1..] == chunks[1..] + [last];
    }
  }

  lemma CopyOnward(chunks: seq<ReadResult>, writes: seq<WriteResult>, limit: nat, n: nat)
    requires n < |chunks| && Passes(chunks, writes, limit, n) && forall i :: 0 <= i < n ==> chunks[i] != Data("")
    ensures Copy(chunks[n..], WritesAfter(chunks[..n], writes), limit, Delivered(chunks[..n]))
            == Copy(chunks[n + 1..], WritesAfter(chunks[..n + 1], writes), limit, Delivered(chunks[..n + 1]))
  {
    DeliveredMore(chunks[..n], chunks[n]);
    assert chunks[..n + 1] == chunks[..n] + [chunks[n]] && chunks[..n + 1][..n] == chunks[..n];
    assert chunks[n..][1..] == chunks[n + 1..];
    assert Delivered(chunks[..n]) + "" == Delivered(chunks[..n]);
  }

  /** After `k` chunks that pass, the rest is copied on from what they delivered. */
  lemma {:induction false} CopyReaches(chunks: seq<ReadResult>, writes: seq<WriteResult>, limit: nat, k: nat)
    requires k <= |chunks| && forall i :: 0 <= i < k ==> Passes(chunks, writes, limit, i)
    ensures Copy(chunks, writes, limit, "")
            == Copy(chunks[k..], WritesAfter(chunks[..k], writes), limit, Delivered(chunks[..k]))
    ensures forall i :: 0 <= i < k ==> chunks[i] != Data("")
  {
    if k == 0 {
      assert chunks[0..] == chunks;
    } else {
      var n := k - 1;
      CopyReaches(chunks, writes, limit, n);
      CopyOnward(chunks, writes, limit, n);
    }
  }

  lemma {:induction false} FirstStop(chunks: seq<ReadResult>, writes: seq<WriteResult>, limit: nat, from: nat) returns (k: nat)
    requires from <= |chunks| && forall i :: 0 <= i < from ==> Passes(chunks, writes, limit, i)
    ensures from <= k <= |chunks| && forall i :: 0 <= i < k ==> Passes(chunks, writes, limit, i)
    ensures k < |chunks| ==> !Passes(chunks, writes, limit, k)
    decreases |chunks| - from
  {
    k := from;
    if from < |chunks| && Passes(chunks, writes, limit, from) {
      k := FirstStop(chunks, writes, limit, from + 1);
    }
  }

  /** Every copy, with errors or without: how it ends is told by its first chunk that does not pass. */
  lemma CopySays(chunks: seq<ReadResult>, writes: seq<WriteResult>, limit: nat) returns (k: nat)
    ensures k <= |chunks| && (forall i :: 0 <= i < k ==> Passes(chunks, writes, limit, i))
    ensures k < |chunks| ==> !Passes(chunks, writes, limit, k)
    ensures EndsAt(chunks, writes, k, Copy(chunks, writes, limit, ""))
  {
    k := FirstStop(chunks, writes, limit, 0);
    CopyReaches(chunks, writes, limit, k);
    CopyIsFaithful(chunks, writes, limit, "");
    if k < |chunks| {
      DeliveredMore(chunks[..k], chunks[k]);
      assert chunks[..k + 1] == chunks[..k] + [chunks[k]];
      assert chunks[k..][0] == chunks[k];
    }
  }
}
