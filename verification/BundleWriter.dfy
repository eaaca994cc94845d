/** The bundle writer: hashes, index, signature, manifest, and the entries in their order; and the
    proof that what it writes verifies. */
module BundleWriter {
  import opened Basics
  import opened Manifest
  import opened Bundle
  import EventLog
  import Collector = ArtifactCollector

  /** A file packed into the archive. */
  datatype Stored = Stored(name: string, bytes: string)

  /** What the writer works from, besides the manifest: the event log, the process tree as JSON text
      with its process count (None when reconstructing or serializing it throws), the artifact
      records and staged files, and the signing function if a key is available. */
  datatype Inputs = Inputs(events: string, tree: Option<(string, nat)>, captureArtifacts: bool,
                           artifacts: seq<Collector.Record>, staged: map<string, string>,
                           sign: Option<string -> Signature>)

  /** The staged files of the captured records, in record order. */
  function ArtifactEntries(records: seq<Collector.Record>, staged: map<string, string>): Result<seq<Stored>> {
    if records == [] then Ok([])
    else
      var n := |records| - 1;
      var front :- ArtifactEntries(records[..n], staged);
      var r := records[n];
      if !r.status.Captured? || !ValidSha256(r.sha256) then Ok(front)
      else if r.sha256 !in staged then BundleError
      else Ok(front + [Stored(ARTIFACTS_DIR + r.sha256, staged[r.sha256])])
  }

  /** The manifest with counts, hashes and tool identity filled in, before signing. */
  function Filled(l: Libs, inp: Inputs, m: Manifest): Manifest
    requires inp.tree.Some?
  {
    var index := if inp.captureArtifacts then l.hash(l.lossy(IndexJson(ToIndexAll(inp.artifacts))))
                 else m.integrity.artifactsIndexSha256;
    m.(counts := m.counts.(processesSeen := inp.tree.value.1 % 0x1_0000_0000_0000_0000),
       integrity := IntegrityInfo(l.hash(inp.events), l.hash(inp.tree.value.0), index),
       schemaVersion := SCHEMA_VERSION, toolName := TOOL_NAME, toolVersion := TOOL_VERSION)
  }

  function Signed(l: Libs, inp: Inputs, m: Manifest): Result<Manifest> {
    match inp.sign
    case None => Ok(m)
    case Some(sign) =>
      match SigningPayload(l.codec, m)
      case None => BundleError
      case Some(payload) =>
        var sig := sign(payload);
        Ok(m.(sig := if sig.algorithm == "" then sig else sig.(scope := "manifest-v1")))
  }

  /** The manifest and the entries a successful write produces. */
  function Written(l: Libs, inp: Inputs, m: Manifest): Result<(Manifest, seq<Stored>)> {
    if inp.tree.None? then BundleError
    else
      var signed :- Signed(l, inp, Filled(l, inp, m));
      match l.codec.pretty(ManifestJson(signed))
      case None => BundleError
      case Some(text) =>
        var base := [Stored(MANIFEST_NAME, text), Stored(EVENTS_NAME, inp.events), Stored(TREE_NAME, inp.tree.value.0),
                     Stored(ARTIFACTS_DIR, "")];
        if !inp.captureArtifacts then Ok((signed, base))
        else
          var files :- ArtifactEntries(inp.artifacts, inp.staged);
          Ok((signed, base + [Stored(INDEX_NAME, l.lossy(IndexJson(ToIndexAll(inp.artifacts))))] + files))
  }

  /** The writer's input; its manifest is filled in place. */
  class WriterInput {
    var manifest: Manifest
    const inputs: Inputs

    constructor (inputs: Inputs, manifest: Manifest)
      ensures this.inputs == inputs && this.manifest == manifest
    {
      this.inputs, this.manifest := inputs, manifest;
    }
  }

  lemma {:induction false} ArtifactEntriesFail(records: seq<Collector.Record>, staged: map<string, string>, k: nat)
    requires k <= |records| && ArtifactEntries(records[..k], staged).BundleError?
    ensures ArtifactEntries(records, staged).BundleError?
    decreases |records|
  {
    if k == |records| {
      assert records[..k] == records;
    } else {
      assert records[..|records| - 1][..k] == records[..k];
      ArtifactEntriesFail(records[..|records| - 1], staged, k);
    }
  }

  method AddArtifacts(records: seq<Collector.Record>, staged: map<string, string>) returns (r: Result<seq<Stored>>)
    ensures r == ArtifactEntries(records, staged)
  {
    var entries: seq<Stored> := [];
    for i := 0 to |records|
      invariant ArtifactEntries(records[..i], staged) == Ok(entries)
    {
      assert records[..i + 1][..i] == records[..i];
      if !records[i].status.Captured? {
        continue;
      }
      if !ValidSha256(records[i].sha256) {
        continue;
      }
      if records[i].sha256 !in staged {
        ArtifactEntriesFail(records, staged, i + 1);
        return BundleError;
      }
      entries := entries + [Stored(ARTIFACTS_DIR + records[i].sha256, staged[records[i].sha256])];
    }
    assert records[..|records|] == records;
    r := Ok(entries);
  }

  method WriteBundle(l: Libs, input: WriterInput) returns (r: Result<seq<Stored>>)
    modifies input
    ensures Written(l, input.inputs, old(input.manifest)).Ok? <==> r.Ok?
    ensures r.Ok? ==> Written(l, input.inputs, old(input.manifest)) == Ok((input.manifest, r.value))
  {
    var inp := input.inputs;
    if inp.tree.None? {
      return BundleError;
    }
    var treeJson := inp.tree.value.0;
    input.manifest := input.manifest.(counts := input.manifest.counts.(processesSeen := inp.tree.value.1 % 0x1_0000_0000_0000_0000));
    input.manifest := input.manifest.(integrity := input.manifest.integrity.(eventsSha256 := l.hash(inp.events),
                                                                              processTreeSha256 := l.hash(treeJson)));
    var artifactsJson := "";
    if inp.captureArtifacts {
      artifactsJson := l.lossy(IndexJson(ToIndexAll(inp.artifacts)));
      input.manifest := input.manifest.(integrity := input.manifest.integrity.(artifactsIndexSha256 := l.hash(artifactsJson)));
    }
    input.manifest := input.manifest.(schemaVersion := SCHEMA_VERSION, toolName := TOOL_NAME, toolVersion := TOOL_VERSION);
    assert input.manifest == Filled(l, inp, old(input.manifest));
    if inp.sign.Some? {
      var payload := SigningPayload(l.codec, input.manifest);
      if payload.None? {
        return BundleError;
      }
      var sig := inp.sign.value(payload.value);
      if sig.algorithm != "" {
        sig := sig.(scope := "manifest-v1");
      }
      input.manifest := input.manifest.(sig := sig);
    }
    var manifestJson := l.codec.pretty(ManifestJson(input.manifest));
    if manifestJson.None? {
      return BundleError;
    }
    var entries := [];
    entries := entries + [Stored(MANIFEST_NAME, manifestJson.value)];
    entries := entries + [Stored(EVENTS_NAME, inp.events)];
    entries := entries + [Stored(TREE_NAME, treeJson)];
    entries := entries + [Stored(ARTIFACTS_DIR, "")];
    assert entries == [Stored(MANIFEST_NAME, manifestJson.value), Stored(EVENTS_NAME, inp.events),
                       Stored(TREE_NAME, treeJson), Stored(ARTIFACTS_DIR, "")];
    if inp.captureArtifacts {
      entries := entries + [Stored(INDEX_NAME, artifactsJson)];
      var files := AddArtifacts(inp.artifacts, inp.staged);
      if files.BundleError? {
        return BundleError;
      }
      entries := entries + files.value;
    }
    r := Ok(entries);
  }

  // ----------------------------------------------------------------------------- write then verify

  predicate Ascii(s: string) {
    forall i :: 0 <= i < |s| ==> s[i] < 128 as char
  }

  function Scrubbed(l: Libs, r: IndexRecord): IndexRecord {
    r.(sha256 := l.scrub(r.sha256), status := l.scrub(r.status),
       sourcePaths := seq(|r.sourcePaths|, i requires 0 <= i < |r.sourcePaths| => l.scrub(r.sourcePaths[i])))
  }

  function ScrubbedAll(l: Libs, rs: seq<IndexRecord>): seq<IndexRecord> {
    seq(|rs|, i requires 0 <= i < |rs| => Scrubbed(l, rs[i]))
  }

  /** What is assumed of the libraries: the codec inverts its dumps, the lossy dump changes only
      text that is not UTF-8, and hashes are 64 lowercase hex characters. */
  ghost predicate LibsLawful(l: Libs) {
    && Lawful(l.codec)
    && (forall rs :: l.codec.parse(l.lossy(IndexJson(rs))) == Some(IndexJson(ScrubbedAll(l, rs))))
    && (forall s :: Ascii(s) ==> l.scrub(s) == s)
    && (forall s :: ValidSha256(l.hash(s)))
  }

  /** A signer's signatures verify; it may fail, leaving the algorithm empty. */
  ghost predicate Honest(l: Libs, sign: string -> Signature) {
    forall d :: var s := sign(d); s.algorithm == "" || (s.algorithm == "Ed25519" && l.verifySig(s.pubkeyB64, s.sigB64, d))
  }

  /** The archive gives back what was stored, in whatever chunks. */
  ghost predicate GivesBack(a: Archive, stored: seq<Stored>) {
    && a.cleanEnd && |a.entries| == |stored|
    && forall i :: 0 <= i < |stored| ==>
         a.entries[i].readable && a.entries[i].name == stored[i].name && a.entries[i].Bytes() == stored[i].bytes
  }

  /** The three entries read whole fit the cap. */
  ghost predicate MetadataFits(stored: seq<Stored>) {
    forall s :: s in stored && s.name in {MANIFEST_NAME, TREE_NAME, INDEX_NAME} ==> |s.bytes| <= MAX_ENTRY_BYTES
  }

  lemma NamesApart()
    ensures MANIFEST_NAME != EVENTS_NAME && MANIFEST_NAME != TREE_NAME && EVENTS_NAME != TREE_NAME
    ensures INDEX_NAME != MANIFEST_NAME && INDEX_NAME != EVENTS_NAME && INDEX_NAME != TREE_NAME && INDEX_NAME != ARTIFACTS_DIR
    ensures !(ARTIFACTS_DIR <= MANIFEST_NAME) && !(ARTIFACTS_DIR <= EVENTS_NAME) && !(ARTIFACTS_DIR <= TREE_NAME)
    ensures !(ARTIFACTS_DIR <= INDEX_NAME) && |ARTIFACTS_DIR| == 10
  {
    assert MANIFEST_NAME[0] == 'm' && EVENTS_NAME[0] == 'e' && TREE_NAME[0] == 'p' && INDEX_NAME[9] == '.';
    assert INDEX_NAME[0] == 'a' && ARTIFACTS_DIR[0] == 'a' && ARTIFACTS_DIR[9] == '/';
  }

  lemma FirstNamedIs(entries: seq<Entry>, name: string, k: nat)
    requires k < |entries| && entries[k].name == name && forall j :: 0 <= j < k ==> entries[j].name != name
    ensures FirstNamed(entries, name) == k
  {
  }

  /** Where the reader finds the fixed entries. */
  lemma FixedEntriesFound(a: Archive, stored: seq<Stored>)
    requires GivesBack(a, stored) && MetadataFits(stored) && |stored| >= 4
    requires stored[0].name == MANIFEST_NAME && stored[1].name == EVENTS_NAME && stored[2].name == TREE_NAME
    requires stored[3].name == ARTIFACTS_DIR
    ensures EntryText(a, MANIFEST_NAME) == Ok(stored[0].bytes)
    ensures EventBytes(a) == Ok(stored[1].bytes)
    ensures EntryText(a, TREE_NAME) == Ok(stored[2].bytes)
    ensures |stored| >= 5 && stored[4].name == INDEX_NAME ==>
              Lookup(a, INDEX_NAME) == Ok(Some(a.entries[4])) && Slurp(a.entries[4]) == Ok(stored[4].bytes)
  {
    NamesApart();
    assert stored[0] in stored && stored[2] in stored;
    FirstNamedIs(a.entries, MANIFEST_NAME, 0);
    FirstNamedIs(a.entries, EVENTS_NAME, 1);
    FirstNamedIs(a.entries, TREE_NAME, 2);
    if |stored| >= 5 && stored[4].name == INDEX_NAME {
      assert stored[4] in stored;
      FirstNamedIs(a.entries, INDEX_NAME, 4);
    }
  }

  lemma SchemaAccepted()
    ensures AcceptedVersion(SCHEMA_VERSION)
  {
    assert SCHEMA_VERSION == "0.2.0";
    assert SCHEMA_VERSION[1..][0] == '.';
    assert LeadingNumber(SCHEMA_VERSION[1..], 0, true) == Some(0);
    assert LeadingNumber(SCHEMA_VERSION, 0, false) == Some(0);
  }

  /** The signature, if there is one, covers what the reader recomputes. */
  lemma SignatureChecks(l: Libs, inp: Inputs, m: Manifest, signed: Manifest, text: string)
    requires LibsLawful(l) && (inp.sign.Some? ==> Honest(l, inp.sign.value)) && m.sig.algorithm == ""
    requires Signed(l, inp, m) == Ok(signed) && l.codec.pretty(ManifestJson(signed)) == Some(text)
    ensures signed == m.(sig := signed.sig)
    ensures signed.sig.algorithm != "" ==>
              SignedPayload(l, signed, text).Some? && VerifySignature(l, signed.sig, SignedPayload(l, signed, text).value)
  {
    if inp.sign.Some? {
      PayloadsAgree(l.codec, m, signed.sig);
    }
  }

  // ---- the artifacts

  lemma StatusOk(s: Collector.Status)
    ensures StatusText(s) == "ok" <==> s.Captured?
    ensures Ascii(StatusText(s))
  {
  }

  lemma ShaIsAscii(s: string)
    requires ValidSha256(s)
    ensures Ascii(s) && s != ""
  {
  }

  /** What a read-back index record says of its record. */
  lemma ReadBackRecord(l: Libs, r: Collector.Record)
    requires LibsLawful(l) && (r.status.Captured? ==> ValidSha256(r.sha256))
    ensures var q := Scrubbed(l, ToIndex(r));
            && (q.status == "ok" <==> r.status.Captured?)
            && (r.status.Captured? ==> q.sha256 == r.sha256 && q.sha256 != "")
  {
    StatusOk(r.status);
    if r.status.Captured? {
      ShaIsAscii(r.sha256);
    }
  }

  /** The hashes the reader expects are those of the captured records. */
  lemma ExpectedHashes(l: Libs, records: seq<Collector.Record>, sha: string)
    requires LibsLawful(l) && forall r :: r in records && r.status.Captured? ==> ValidSha256(r.sha256)
    ensures sha in Expected(ScrubbedAll(l, ToIndexAll(records)))
            <==> exists r :: r in records && r.status.Captured? && r.sha256 == sha
  {
    var read := ScrubbedAll(l, ToIndexAll(records));
    assert forall i :: 0 <= i < |records| ==> read[i] == Scrubbed(l, ToIndex(records[i]));
    if sha in Expected(read) {
      var q :| q in read && q.status == "ok" && q.sha256 != "" && q.sha256 == sha;
      var i :| 0 <= i < |read| && read[i] == q;
      ReadBackRecord(l, records[i]);
      assert records[i] in records;
    }
    if r :| r in records && r.status.Captured? && r.sha256 == sha {
      var i :| 0 <= i < |records| && records[i] == r;
      ReadBackRecord(l, r);
      assert read[i] in read;
    }
  }

  /** The artifact entries are the captured records' staged files. */
  lemma {:induction false} ArtifactEntriesAre(records: seq<Collector.Record>, staged: map<string, string>, s: Stored)
    requires forall r :: r in records && r.status.Captured? ==> ValidSha256(r.sha256) && r.sha256 in staged
    ensures ArtifactEntries(records, staged).Ok?
    ensures s in ArtifactEntries(records, staged).value
            <==> exists r :: r in records && r.status.Captured? && s == Stored(ARTIFACTS_DIR + r.sha256, staged[r.sha256])
  {
    if records == [] {
    } else {
      var n := |records| - 1;
      assert records == records[..n] + [records[n]];
      ArtifactEntriesAre(records[..n], staged, s);
    }
  }

  /** Captured records as finalize leaves them: staged under their own hash. */
  ghost predicate StagedByHash(l: Libs, records: seq<Collector.Record>, staged: map<string, string>) {
    forall r :: r in records && r.status.Captured? ==> r.sha256 in staged && l.hash(staged[r.sha256]) == r.sha256
  }

  lemma ArtifactName(sha: string, e: Entry)
    requires e.name == ARTIFACTS_DIR + sha && sha != ""
    ensures IsArtifact(e) && BaseName(e) == sha
  {
  }

  /** All the artifact entries check out, and none is missing. */
  lemma ArtifactsCheck(l: Libs, inp: Inputs, base: seq<Stored>, a: Archive)
    requires LibsLawful(l) && StagedByHash(l, inp.artifacts, inp.staged) && ArtifactEntries(inp.artifacts, inp.staged).Ok?
    requires GivesBack(a, base + ArtifactEntries(inp.artifacts, inp.staged).value)
    requires forall s :: s in base ==> !(ARTIFACTS_DIR <= s.name) || s.name == ARTIFACTS_DIR
    ensures ArtifactsReadable(a) && ContentOk(l, a.entries, Expected(ScrubbedAll(l, ToIndexAll(inp.artifacts))))
  {
    var files := ArtifactEntries(inp.artifacts, inp.staged).value;
    var stored := base + files;
    var expected := Expected(ScrubbedAll(l, ToIndexAll(inp.artifacts)));
    assert forall r :: r in inp.artifacts && r.status.Captured? ==> ValidSha256(r.sha256) && r.sha256 in inp.staged;
    forall i | 0 <= i < |base| ensures !IsArtifact(a.entries[i]) {
      assert stored[i] == base[i] && base[i] in base;
    }
    forall i | 0 <= i < |a.entries| ensures EntryOk(l, a.entries[i], expected) {
      if IsArtifact(a.entries[i]) {
        assert stored[i] == files[i - |base|];
        ArtifactEntriesAre(inp.artifacts, inp.staged, stored[i]);
        var r :| r in inp.artifacts && r.status.Captured? && stored[i] == Stored(ARTIFACTS_DIR + r.sha256, inp.staged[r.sha256]);
        ShaIsAscii(r.sha256);
        ArtifactName(r.sha256, a.entries[i]);
        ExpectedHashes(l, inp.artifacts, r.sha256);
      }
    }
    forall sha | sha in expected ensures Present(a.entries, sha) {
      ExpectedHashes(l, inp.artifacts, sha);
      var r :| r in inp.artifacts && r.status.Captured? && r.sha256 == sha;
      var s := Stored(ARTIFACTS_DIR + sha, inp.staged[sha]);
      ArtifactEntriesAre(inp.artifacts, inp.staged, s);
      var k :| 0 <= k < |files| && files[k] == s;
      assert stored[|base| + k] == s;
      ShaIsAscii(sha);
      ArtifactName(sha, a.entries[|base| + k]);
    }
  }

  lemma AllChecked(l: Libs, a: Archive, m: Manifest, raw: string)
    requires OpenBundle(l, a) == Ok((m, raw)) && CheckIntegrity(l, a, m) == Ok(true)
    requires CheckArtifacts(l, a, m) == Ok((true, true))
    requires m.sig.algorithm != "" ==>
               SignedPayload(l, m, raw).Some? && VerifySignature(l, m.sig, SignedPayload(l, m, raw).value)
    ensures Verified(l, a, m, raw)
    ensures VerifyBundle(l, a, m, raw).value.signaturePresent <==> m.sig.algorithm != ""
  {
  }

  /** What a successful write stored. */
  lemma WrittenShape(l: Libs, inp: Inputs, m: Manifest, out: Manifest, stored: seq<Stored>)
    requires Written(l, inp, m) == Ok((out, stored))
    ensures inp.tree.Some? && |stored| >= 4
    ensures Signed(l, inp, Filled(l, inp, m)) == Ok(out)
    ensures stored[0].name == MANIFEST_NAME && l.codec.pretty(ManifestJson(out)) == Some(stored[0].bytes)
    ensures stored[1] == Stored(EVENTS_NAME, inp.events) && stored[2] == Stored(TREE_NAME, inp.tree.value.0)
    ensures stored[3] == Stored(ARTIFACTS_DIR, "")
    ensures inp.captureArtifacts ==>
              && |stored| >= 5 && stored[4] == Stored(INDEX_NAME, l.lossy(IndexJson(ToIndexAll(inp.artifacts))))
              && ArtifactEntries(inp.artifacts, inp.staged).Ok?
              && stored == stored[..5] + ArtifactEntries(inp.artifacts, inp.staged).value
  {
  }

  lemma IndexReadBack(l: Libs, records: seq<Collector.Record>)
    requires LibsLawful(l)
    ensures var read := ScrubbedAll(l, ToIndexAll(records));
            IndexFromText(l.codec, l.lossy(IndexJson(ToIndexAll(records)))) == Ok(read)
  {
    IndexBack(ScrubbedAll(l, ToIndexAll(records)));
  }

  /** None of the first five entries is an artifact. */
  lemma BaseNames(stored: seq<Stored>)
    requires |stored| >= 5 && stored[0].name == MANIFEST_NAME && stored[1].name == EVENTS_NAME
    requires stored[2].name == TREE_NAME && stored[3].name == ARTIFACTS_DIR && stored[4].name == INDEX_NAME
    ensures forall s :: s in stored[..5] ==> !(ARTIFACTS_DIR <= s.name) || s.name == ARTIFACTS_DIR
  {
    NamesApart();
  }

  lemma IndexChecks(l: Libs, inp: Inputs, out: Manifest, stored: seq<Stored>, a: Archive)
    requires LibsLawful(l) && StagedByHash(l, inp.artifacts, inp.staged) && MetadataFits(stored) && GivesBack(a, stored)
    requires |stored| >= 5 && stored[0].name == MANIFEST_NAME && stored[1].name == EVENTS_NAME
    requires stored[2].name == TREE_NAME && stored[3].name == ARTIFACTS_DIR
    requires stored[4] == Stored(INDEX_NAME, l.lossy(IndexJson(ToIndexAll(inp.artifacts))))
    requires ArtifactEntries(inp.artifacts, inp.staged).Ok?
    requires stored == stored[..5] + ArtifactEntries(inp.artifacts, inp.staged).value
    requires out.integrity.artifactsIndexSha256 == l.hash(stored[4].bytes)
    ensures CheckArtifacts(l, a, out) == Ok((true, true))
  {
    FixedEntriesFound(a, stored);
    ShaIsAscii(l.hash(stored[4].bytes));
    IndexReadBack(l, inp.artifacts);
    BaseNames(stored);
    ArtifactsCheck(l, inp, stored[..5], a);
  }

  /** Write, then verify: whatever finalize produced, signed or not, a bundle that was written opens
      and verifies in full, provided manifest, tree and index fit the entry cap. */
  lemma WriteThenVerify(l: Libs, inp: Inputs, m: Manifest, out: Manifest, stored: seq<Stored>, a: Archive)
    requires LibsLawful(l) && (inp.sign.Some? ==> Honest(l, inp.sign.value))
    requires m.sig.algorithm == "" && (!inp.captureArtifacts ==> m.integrity.artifactsIndexSha256 == "")
    requires inp.captureArtifacts ==> StagedByHash(l, inp.artifacts, inp.staged)
    requires Written(l, inp, m) == Ok((out, stored)) && MetadataFits(stored) && GivesBack(a, stored)
    ensures var raw := stored[0].bytes; |stored| > 0 && Verified(l, a, out, raw)
    ensures VerifyBundle(l, a, out, stored[0].bytes).value.signaturePresent <==> out.sig.algorithm != ""
  {
    WrittenShape(l, inp, m, out, stored);
    SignatureChecks(l, inp, Filled(l, inp, m), out, stored[0].bytes);
    SchemaAccepted();
    ManifestRoundTrip(l.codec, out);
    FixedEntriesFound(a, stored);
    assert CheckIntegrity(l, a, out) == Ok(true);
    if inp.captureArtifacts {
      IndexChecks(l, inp, out, stored, a);
    }
    AllChecked(l, a, out, stored[0].bytes);
  }

  /** Every outcome of finalize is staged by hash. */
  lemma FinalizeStagesByHash(l: Libs, cfg: Collector.Config, fs: string -> Collector.FileScript, paths: seq<string>)
    ensures var st := Collector.Collect(cfg, l.hash, fs, paths); StagedByHash(l, st.records, st.files)
  {
    var st := Collector.Collect(cfg, l.hash, fs, paths);
    Collector.StagedThroughout(cfg, l.hash, fs, paths);
    forall r | r in st.records && r.status.Captured? ensures r.sha256 in st.files && l.hash(st.files[r.sha256]) == r.sha256 {
      var i :| 0 <= i < |st.records| && st.records[i] == r;
      assert Collector.StagedOk(l.hash, st, i);
    }
  }

  /** Collect, write, then verify: files missing, symlinked, oversized, duplicated or over bound,
      under any configuration, the bundle written from the outcome of finalize verifies. */
  lemma CollectedBundleVerifies(l: Libs, cfg: Collector.Config, fs: string -> Collector.FileScript, paths: seq<string>,
                                inp: Inputs, m: Manifest, out: Manifest, stored: seq<Stored>, a: Archive)
    requires LibsLawful(l) && (inp.sign.Some? ==> Honest(l, inp.sign.value))
    requires m.sig.algorithm == "" && inp.captureArtifacts
    requires var st := Collector.Collect(cfg, l.hash, fs, paths); inp.artifacts == st.records && inp.staged == st.files
    requires Written(l, inp, m) == Ok((out, stored)) && MetadataFits(stored) && GivesBack(a, stored)
    ensures |stored| > 0 && Verified(l, a, out, stored[0].bytes)
  {
    FinalizeStagesByHash(l, cfg, fs, paths);
    WriteThenVerify(l, inp, m, out, stored, a);
  }

  /** Finalize never leaves a captured record without its staged file, so packing cannot fail. */
  lemma CollectedNeverMissing(l: Libs, cfg: Collector.Config, fs: string -> Collector.FileScript, paths: seq<string>)
    requires LibsLawful(l)
    ensures var st := Collector.Collect(cfg, l.hash, fs, paths); ArtifactEntries(st.records, st.files).Ok?
  {
    var st := Collector.Collect(cfg, l.hash, fs, paths);
    FinalizeStagesByHash(l, cfg, fs, paths);
    ArtifactEntriesAre(st.records, st.files, Stored("", ""));
  }

  // ----------------------------------------------------------------------------- write then read

  lemma NotInBase(base: seq<Stored>, files: seq<Stored>, a: Archive, i: nat)
    requires GivesBack(a, base + files) && i < |a.entries| && IsArtifact(a.entries[i])
    requires forall s :: s in base ==> !(ARTIFACTS_DIR <= s.name) || s.name == ARTIFACTS_DIR
    ensures i >= |base|
  {
  }

  /** Some captured record has this hash, and these bytes staged. */
  ghost predicate IsStaged(inp: Inputs, sha: string, bytes: string) {
    exists r :: r in inp.artifacts && r.status.Captured? && r.sha256 in inp.staged && sha == r.sha256 && bytes == inp.staged[sha]
  }

  lemma StagedIsRead(inp: Inputs, base: seq<Stored>, a: Archive, sha: string, bytes: string)
    requires forall r :: r in inp.artifacts && r.status.Captured? ==> ValidSha256(r.sha256) && r.sha256 in inp.staged
    requires ArtifactEntries(inp.artifacts, inp.staged).Ok?
    requires GivesBack(a, base + ArtifactEntries(inp.artifacts, inp.staged).value) && IsStaged(inp, sha, bytes)
    ensures (sha, bytes) in ArtifactSet(a)
  {
    var files := ArtifactEntries(inp.artifacts, inp.staged).value;
    var s := Stored(ARTIFACTS_DIR + sha, bytes);
    ArtifactEntriesAre(inp.artifacts, inp.staged, s);
    var k :| 0 <= k < |files| && files[k] == s;
    assert (base + files)[|base| + k] == s;
    ShaIsAscii(sha);
    ArtifactName(sha, a.entries[|base| + k]);
    ArtifactRead(a, |base| + k);
  }

  /** The artifact entries of a written archive are the captured records' staged files. */
  lemma ArtifactSetWritten(inp: Inputs, base: seq<Stored>, a: Archive, sha: string, bytes: string)
    requires forall r :: r in inp.artifacts && r.status.Captured? ==> ValidSha256(r.sha256) && r.sha256 in inp.staged
    requires ArtifactEntries(inp.artifacts, inp.staged).Ok?
    requires GivesBack(a, base + ArtifactEntries(inp.artifacts, inp.staged).value)
    requires forall s :: s in base ==> !(ARTIFACTS_DIR <= s.name) || s.name == ARTIFACTS_DIR
    ensures (sha, bytes) in ArtifactSet(a) <==> IsStaged(inp, sha, bytes)
  {
    var files := ArtifactEntries(inp.artifacts, inp.staged).value;
    var stored := base + files;
    if (sha, bytes) in ArtifactSet(a) {
      var i :| 0 <= i < |a.entries| && IsArtifact(a.entries[i]) && (sha, bytes) == (BaseName(a.entries[i]), a.entries[i].Bytes());
      NotInBase(base, files, a, i);
      assert stored[i] == files[i - |base|];
      ArtifactEntriesAre(inp.artifacts, inp.staged, stored[i]);
      var r :| r in inp.artifacts && r.status.Captured? && stored[i] == Stored(ARTIFACTS_DIR + r.sha256, inp.staged[r.sha256]);
      ShaIsAscii(r.sha256);
      ArtifactName(r.sha256, a.entries[i]);
    }
    if IsStaged(inp, sha, bytes) {
      StagedIsRead(inp, base, a, sha, bytes);
    }
  }

  lemma StagedAreValid(l: Libs, inp: Inputs)
    requires LibsLawful(l) && StagedByHash(l, inp.artifacts, inp.staged)
    ensures forall r :: r in inp.artifacts && r.status.Captured? ==> ValidSha256(r.sha256) && r.sha256 in inp.staged
  {
  }

  lemma DeliveredLines<J>(a: Archive, parse: string -> Option<J>, lines: seq<string>)
    requires EventBytes(a) == Ok(EventLog.LogBytes(lines)) && forall x :: x in lines ==> EventLog.Deliverable(parse, x)
    ensures DeliveredEvents(a, parse).Ok?
    ensures var (events, malformed) := DeliveredEvents(a, parse).value;
            && |events| == |lines| && malformed == 0
            && forall i :: 0 <= i < |lines| ==> parse(lines[i]) == Some(events[i])
  {
    var chunks := [EventLog.LogBytes(lines)];
    assert chunks[..0] == [];
    assert EventLog.Concat(chunks) == EventLog.LogBytes(lines);
    EventLog.LogRoundTrip(parse, lines, chunks);
  }

  lemma WrittenArtifacts(l: Libs, inp: Inputs, m: Manifest, out: Manifest, stored: seq<Stored>, a: Archive,
                         sha: string, bytes: string)
    requires LibsLawful(l) && inp.captureArtifacts && StagedByHash(l, inp.artifacts, inp.staged)
    requires Written(l, inp, m) == Ok((out, stored)) && GivesBack(a, stored)
    ensures (sha, bytes) in ArtifactSet(a) <==> IsStaged(inp, sha, bytes)
  {
    WrittenShape(l, inp, m, out, stored);
    StagedAreValid(l, inp);
    BaseNames(stored);
    ArtifactSetWritten(inp, stored[..5], a, sha, bytes);
  }

  lemma WrittenEvents(l: Libs, inp: Inputs, m: Manifest, out: Manifest, stored: seq<Stored>, a: Archive)
    requires Written(l, inp, m) == Ok((out, stored)) && MetadataFits(stored) && GivesBack(a, stored)
    ensures EventBytes(a) == Ok(inp.events)
  {
    WrittenShape(l, inp, m, out, stored);
    FixedEntriesFound(a, stored);
  }

  /** Write, then read.  A written bundle delivers one event per line of the log, in order, and its
      artifacts are the captured records' staged files. */
  lemma WriteThenRead<J>(l: Libs, inp: Inputs, m: Manifest, out: Manifest, stored: seq<Stored>, a: Archive,
                         parse: string -> Option<J>, lines: seq<string>)
    requires LibsLawful(l) && (inp.captureArtifacts ==> StagedByHash(l, inp.artifacts, inp.staged))
    requires Written(l, inp, m) == Ok((out, stored)) && MetadataFits(stored) && GivesBack(a, stored)
    requires inp.events == EventLog.LogBytes(lines)
    requires forall x :: x in lines ==> EventLog.Deliverable(parse, x)
    ensures DeliveredEvents(a, parse).Ok?
    ensures var (events, malformed) := DeliveredEvents(a, parse).value;
            && |events| == |lines| && malformed == 0
            && forall i :: 0 <= i < |lines| ==> parse(lines[i]) == Some(events[i])
    ensures inp.captureArtifacts ==> forall sha, bytes :: (sha, bytes) in ArtifactSet(a) <==> IsStaged(inp, sha, bytes)
  {
    WrittenEvents(l, inp, m, out, stored, a);
    DeliveredLines(a, parse, lines);
    if inp.captureArtifacts {
      forall sha, bytes ensures (sha, bytes) in ArtifactSet(a) <==> IsStaged(inp, sha, bytes) {
        WrittenArtifacts(l, inp, m, out, stored, a, sha, bytes);
      }
    }
  }

  /** The tree and the index are delivered as they were written. */
  lemma WrittenIsDelivered<T>(l: Libs, inp: Inputs, m: Manifest, out: Manifest, stored: seq<Stored>, a: Archive,
                              treeOf: string -> Result<T>)
    requires LibsLawful(l) && Written(l, inp, m) == Ok((out, stored)) && MetadataFits(stored) && GivesBack(a, stored)
    ensures inp.tree.Some? && DeliveredTree(a, treeOf) == treeOf(inp.tree.value.0)
    ensures inp.captureArtifacts ==> DeliveredIndex(l, a) == Ok(ScrubbedAll(l, ToIndexAll(inp.artifacts)))
  {
    WrittenShape(l, inp, m, out, stored);
    FixedEntriesFound(a, stored);
    if inp.captureArtifacts {
      IndexBack(ScrubbedAll(l, ToIndexAll(inp.artifacts)));
    }
  }

  /** A bundle made of any session's log, whatever its writes did: the events delivered and the lines
      that are malformed are together the events counted as written, and the torn end if there is one. */
  lemma SessionAccounts<J>(session: EventLog.Session, l: Libs, inp: Inputs, m: Manifest, out: Manifest,
                           stored: seq<Stored>, a: Archive, parse: string -> Option<J>)
    requires session.Valid() && inp.events == session.wal.file
    requires Written(l, inp, m) == Ok((out, stored)) && MetadataFits(stored) && GivesBack(a, stored)
    requires forall p :: p in session.puts ==> p.line != "" && EventLog.NoNewline(p.line)
    ensures DeliveredEvents(a, parse).Ok?
    ensures var (events, malformed) := DeliveredEvents(a, parse).value;
            |events| + malformed == session.eventsWritten + (if EventLog.Torn(session.puts) == "" then 0 else 1)
  {
    WrittenEvents(l, inp, m, out, stored, a);
    EventLog.TornLogAccounts(parse, session.puts, inp.events);
  }

  /** For a session whose writes never failed hard, that is one event per event counted as written. */
  lemma SessionReadsBack<J>(session: EventLog.Session, l: Libs, inp: Inputs, m: Manifest, out: Manifest,
                            stored: seq<Stored>, a: Archive, parse: string -> Option<J>)
    requires session.Valid() && !session.torn && inp.events == session.wal.file
    requires LibsLawful(l) && (inp.captureArtifacts ==> StagedByHash(l, inp.artifacts, inp.staged))
    requires Written(l, inp, m) == Ok((out, stored)) && MetadataFits(stored) && GivesBack(a, stored)
    requires forall x :: x in session.log ==> EventLog.Deliverable(parse, x)
    ensures DeliveredEvents(a, parse).Ok? && |DeliveredEvents(a, parse).value.0| == session.eventsWritten
  {
    WriteThenRead(l, inp, m, out, stored, a, parse, session.log);
  }

  // ------------------------------------------------------------------------------ what is written

  /** With a key the manifest carries the key's signature of the manifest without its signature block,
      under scope "manifest-v1" unless signing failed; without one the block is left as it was. */
  lemma SignedSays(l: Libs, inp: Inputs, m: Manifest, out: Manifest, stored: seq<Stored>)
    requires Written(l, inp, m) == Ok((out, stored))
    ensures inp.sign.None? ==> out.sig == m.sig
    ensures inp.sign.Some? ==>
              exists fields: map<Key, Json>, payload ::
                && ManifestJson(out) == Obj(fields) && l.codec.dump(Obj(fields - {Sig})) == Some(payload)
                && var s := inp.sign.value(payload);
                   out.sig == if s.algorithm == "" then s else s.(scope := "manifest-v1")
  {
    WrittenShape(l, inp, m, out, stored);
    var filled := Filled(l, inp, m);
    if inp.sign.Some? {
      var fields, payload := ManifestJson(out).fields, SigningPayload(l.codec, filled).value;
      assert out == filled.(sig := out.sig);
      assert WithoutSig(ManifestJson(filled)) == WithoutSig(ManifestJson(out));
      assert ManifestJson(out) == Obj(fields) && l.codec.dump(Obj(fields - {Sig})) == Some(payload);
    }
  }

  /** The fields the writer fills in, and those it leaves alone. */
  lemma FilledSays(l: Libs, inp: Inputs, m: Manifest, out: Manifest, stored: seq<Stored>)
    requires Written(l, inp, m) == Ok((out, stored))
    ensures inp.tree.Some?
    ensures out.schemaVersion == "0.2.0" && out.toolName == "vishaya" && out.toolVersion == "0.2.0"
    ensures out.integrity.eventsSha256 == l.hash(inp.events)
    ensures out.integrity.processTreeSha256 == l.hash(inp.tree.value.0)
    ensures out.integrity.artifactsIndexSha256
            == if inp.captureArtifacts then l.hash(l.lossy(IndexJson(ToIndexAll(inp.artifacts))))
               else m.integrity.artifactsIndexSha256
    ensures inp.tree.value.1 < 0x1_0000_0000_0000_0000 ==> out.counts.processesSeen == inp.tree.value.1
    ensures out.counts == m.counts.(processesSeen := out.counts.processesSeen)
    ensures out.capture == m.capture && out.target == m.target
    ensures out.isolation == m.isolation && out.coverage == m.coverage
  {
    WrittenShape(l, inp, m, out, stored);
  }

  /** The entries in their order: manifest, events, tree, the artifacts directory and, with artifact
      capture, the index and then the captured files. */
  lemma EntriesSay(l: Libs, inp: Inputs, m: Manifest, out: Manifest, stored: seq<Stored>)
    requires Written(l, inp, m) == Ok((out, stored))
    ensures |stored| >= 4 && inp.tree.Some?
    ensures stored[0].name == "manifest.json" && l.codec.pretty(ManifestJson(out)) == Some(stored[0].bytes)
    ensures stored[1] == Stored("events.ndjson", inp.events)
    ensures stored[2] == Stored("process_tree.json", inp.tree.value.0)
    ensures stored[3] == Stored("artifacts/", "")
    ensures !inp.captureArtifacts ==> |stored| == 4
    ensures inp.captureArtifacts ==>
              && |stored| >= 5 && stored[4] == Stored("artifacts.json", l.lossy(IndexJson(ToIndexAll(inp.artifacts))))
              && ArtifactEntries(inp.artifacts, inp.staged) == Ok(stored[5..])
  {
    WrittenShape(l, inp, m, out, stored);
  }

  /** A write fails exactly when the tree cannot be rebuilt, the library cannot dump what is signed or
      the manifest, or a captured record's file is not staged. */
  lemma WriteFailsIff(l: Libs, inp: Inputs, m: Manifest)
    ensures Written(l, inp, m).BundleError?
            <==> inp.tree.None?
                 || (inp.sign.Some? && SigningPayload(l.codec, Filled(l, inp, m)).None?)
                 || (Signed(l, inp, Filled(l, inp, m)).Ok?
                     && l.codec.pretty(ManifestJson(Signed(l, inp, Filled(l, inp, m)).value)).None?)
                 || (inp.captureArtifacts && ArtifactEntries(inp.artifacts, inp.staged).BundleError?)
  {
  }

  /** Packing fails exactly when a captured record with a valid hash has no staged file. */
  lemma {:induction false} PackFailsIff(records: seq<Collector.Record>, staged: map<string, string>)
    ensures ArtifactEntries(records, staged).BundleError?
            <==> exists r :: r in records && r.status.Captured? && ValidSha256(r.sha256) && r.sha256 !in staged
  {
    if records == [] {
    } else {
      var n := |records| - 1;
      PackFailsIff(records[..n], staged);
      assert forall r :: r in records <==> r in records[..n] || r == records[n];
    }
  }
}
