/** Bundles: the archive the writer packs, the hash and signature chain it builds, and the reader
    that checks it.

    An archive is a sequence of named entries, each delivered in chunks; `readable` and `cleanEnd`
    say whether libarchive reads the entry, and the archive's end, without an error.  SHA-256, the
    signature scheme and the JSON library are parameters. */
module Bundle {
  import opened Basics
  import opened Manifest
  import EventLog
  import Collector = ArtifactCollector

  const MAX_ENTRY_BYTES: nat := 256 * 1024 * 1024
  const MANIFEST_NAME: string := "manifest.json"
  const EVENTS_NAME: string := "events.ndjson"
  const TREE_NAME: string := "process_tree.json"
  const INDEX_NAME: string := "artifacts.json"
  const ARTIFACTS_DIR: string := "artifacts/"

  datatype Entry = Entry(name: string, chunks: seq<string>, readable: bool) {
    function Bytes(): string { EventLog.Concat(chunks) }
  }

  datatype Archive = Archive(entries: seq<Entry>, cleanEnd: bool)

  /** The libraries: hash, JSON codec, the lossy dump that replaces bad UTF-8 and its effect on one
      string, and signature verification over (public key, signature, data). */
  datatype Libs = Libs(hash: string -> string, codec: Codec, lossy: Json -> string, scrub: string -> string,
                       verifySig: (string, string, string) -> bool)

  // --------------------------------------------------------------------------- artifact index

  datatype IndexRecord = IndexRecord(sha256: string, size: u64, mode: u32, sourcePaths: seq<string>, status: string)

  function StatusText(s: Collector.Status): string {
    match s
    case Captured => "ok"
    case TooLarge => "skipped_too_large"
    case Symlink => "skipped_symlink"
    case Special => "skipped_special"
    case BoundExceeded => "skipped_bound_exceeded"
    case Missing => "missing_at_finalize"
    case Unreadable => "error_unreadable"
  }

  function ToIndex(r: Collector.Record): IndexRecord {
    IndexRecord(r.sha256, r.size % 0x1_0000_0000_0000_0000, r.mode % 0x1_0000_0000, r.sourcePaths, StatusText(r.status))
  }

  function ToIndexAll(records: seq<Collector.Record>): seq<IndexRecord> {
    seq(|records|, i requires 0 <= i < |records| => ToIndex(records[i]))
  }

  function IndexRecordJson(r: IndexRecord): Json {
    Obj(map[Sha256 := Str(r.sha256), Size := Num(r.size), Mode := Num(r.mode), SourcePaths := StrArr(r.sourcePaths),
            StatusKey := Str(r.status)])
  }

  function IndexJson(rs: seq<IndexRecord>): Json {
    Arr(seq(|rs|, i requires 0 <= i < |rs| => IndexRecordJson(rs[i])))
  }

  function IndexRecordOf(j: Json): Result<IndexRecord> {
    var sha256 :- GetStr(j, Sha256);
    var size :- GetU64(j, Size);
    var mode :- GetU32(j, Mode);
    var status :- GetStr(j, StatusKey);
    var paths :- GetStrings(j, SourcePaths);
    Ok(IndexRecord(sha256, size, mode, paths, status))
  }

  function IndexRecordsOf(items: seq<Json>): Result<seq<IndexRecord>> {
    if items == [] then Ok([])
    else
      var first :- IndexRecordOf(items[0]);
      var rest :- IndexRecordsOf(items[1..]);
      Ok([first] + rest)
  }

  function IndexFromText(c: Codec, text: string): Result<seq<IndexRecord>> {
    match c.parse(text)
    case Some(Arr(items)) => IndexRecordsOf(items)
    case _ => BundleError
  }

  lemma IndexRecordBack(r: IndexRecord)
    ensures IndexRecordOf(IndexRecordJson(r)) == Ok(r)
  {
    var j := IndexRecordJson(r);
    StringsOfArr(r.sourcePaths);
    assert GetStr(j, Sha256) == Ok(r.sha256) && GetU64(j, Size) == Ok(r.size) && GetU32(j, Mode) == Ok(r.mode);
    assert GetStr(j, StatusKey) == Ok(r.status) && GetStrings(j, SourcePaths) == Ok(r.sourcePaths);
  }

  /** The index survives serialization. */
  lemma {:induction false} IndexBack(rs: seq<IndexRecord>)
    ensures IndexRecordsOf(IndexJson(rs).items) == Ok(rs)
  {
    if rs == [] {
    } else {
      IndexRecordBack(rs[0]);
      IndexBack(rs[1..]);
      assert IndexJson(rs).items[1..] == IndexJson(rs[1..]).items;
      assert [rs[0]] + rs[1..] == rs;
    }
  }

  predicate ValidSha256(s: string) {
    |s| == 64 && forall i :: 0 <= i < 64 ==> '0' <= s[i] <= '9' || 'a' <= s[i] <= 'f'
  }

  // ----------------------------------------------------------------------------------- lookup

  /** The index of the first entry of that name, or the number of entries. */
  function FirstNamed(entries: seq<Entry>, name: string): (i: nat)
    ensures i <= |entries|
    ensures i < |entries| ==> entries[i].name == name
    ensures forall j :: 0 <= j < i ==> entries[j].name != name
  {
    if entries == [] || entries[0].name == name then 0 else 1 + FirstNamed(entries[1..], name)
  }

  /** None at a clean end of the archive, an error when its end cannot be read. */
  function Lookup(a: Archive, name: string): Result<Option<Entry>> {
    var i := FirstNamed(a.entries, name);
    if i < |a.entries| then Ok(Some(a.entries[i])) else if a.cleanEnd then Ok(None) else BundleError
  }

  function Required(a: Archive, name: string): Result<Entry> {
    var found :- Lookup(a, name);
    if found.Some? then Ok(found.value) else BundleError
  }

  /** A metadata entry read whole, under the 256 MiB cap. */
  function Slurp(e: Entry): Result<string> {
    if e.readable && |e.Bytes()| <= MAX_ENTRY_BYTES then Ok(e.Bytes()) else BundleError
  }

  function EntryText(a: Archive, name: string): Result<string> {
    var e :- Required(a, name);
    Slurp(e)
  }

  function Stream(e: Entry): Result<string> {
    if e.readable then Ok(e.Bytes()) else BundleError
  }

  function EventBytes(a: Archive): Result<string> {
    var e :- Required(a, EVENTS_NAME);
    Stream(e)
  }

  // ---------------------------------------------------------------------------- what verify says

  datatype VerifyReport = VerifyReport(integrityOk: bool, signaturePresent: bool, signatureOk: bool,
                                       artifactsIndexOk: bool, artifactsContentOk: bool) {
    predicate AllOk() {
      integrityOk && artifactsIndexOk && artifactsContentOk && (!signaturePresent || signatureOk)
    }
  }

  function OpenBundle(l: Libs, a: Archive): Result<(Manifest, string)> {
    var raw :- EntryText(a, MANIFEST_NAME);
    var m :- ManifestFromText(l.codec, raw);
    Ok((m, raw))
  }

  function CheckIntegrity(l: Libs, a: Archive, m: Manifest): Result<bool> {
    var events :- EventBytes(a);
    var tree :- EntryText(a, TREE_NAME);
    Ok(l.hash(events) == m.integrity.eventsSha256 && l.hash(tree) == m.integrity.processTreeSha256)
  }

  predicate IsArtifact(e: Entry) {
    ARTIFACTS_DIR <= e.name && e.name != ARTIFACTS_DIR
  }

  function BaseName(e: Entry): string
    requires IsArtifact(e)
  {
    e.name[|ARTIFACTS_DIR|..]
  }

  function Expected(records: seq<IndexRecord>): set<string> {
    set r | r in records && r.status == "ok" && r.sha256 != "" :: r.sha256
  }

  predicate EntryOk(l: Libs, e: Entry, expected: set<string>) {
    IsArtifact(e) ==> l.hash(e.Bytes()) == BaseName(e) && BaseName(e) in expected
  }

  predicate Present(entries: seq<Entry>, sha: string) {
    exists i :: 0 <= i < |entries| && IsArtifact(entries[i]) && BaseName(entries[i]) == sha
  }

  /** Every artifact entry hashes to its own name and is expected, and nothing expected is missing. */
  predicate ContentOk(l: Libs, entries: seq<Entry>, expected: set<string>) {
    && (forall i :: 0 <= i < |entries| ==> EntryOk(l, entries[i], expected))
    && (forall sha :: sha in expected ==> Present(entries, sha))
  }

  predicate ArtifactsReadable(a: Archive) {
    a.cleanEnd && forall i :: 0 <= i < |a.entries| && IsArtifact(a.entries[i]) ==> a.entries[i].readable
  }

  /** The two artifact flags of the report. */
  function CheckArtifacts(l: Libs, a: Archive, m: Manifest): Result<(bool, bool)> {
    if m.integrity.artifactsIndexSha256 == "" then Ok((true, true))
    else
      var found :- Lookup(a, INDEX_NAME);
      if found.None? then Ok((false, false))
      else
        var text :- Slurp(found.value);
        var indexOk := l.hash(text) == m.integrity.artifactsIndexSha256;
        match IndexFromText(l.codec, text)
        case BundleError => Ok((indexOk, false))
        case Ok(records) =>
          if !ArtifactsReadable(a) then BundleError
          else Ok((indexOk, ContentOk(l, a.entries, Expected(records))))
  }

  function SignedPayload(l: Libs, m: Manifest, raw: string): Option<string> {
    if m.sig.scope == "manifest-v1" then CanonicalPayload(l.codec, raw)
    else Some(m.integrity.eventsSha256 + "\n" + m.integrity.processTreeSha256 + "\n")
  }

  function VerifySignature(l: Libs, sig: Signature, data: string): bool {
    sig.algorithm == "Ed25519" && l.verifySig(sig.pubkeyB64, sig.sigB64, data)
  }

  function VerifyBundle(l: Libs, a: Archive, m: Manifest, raw: string): Result<VerifyReport> {
    var integrityOk :- CheckIntegrity(l, a, m);
    var artifacts :- CheckArtifacts(l, a, m);
    if m.sig.algorithm == "" then Ok(VerifyReport(integrityOk, false, false, artifacts.0, artifacts.1))
    else
      match SignedPayload(l, m, raw)
      case None => BundleError
      case Some(payload) =>
        Ok(VerifyReport(integrityOk, true, VerifySignature(l, m.sig, payload), artifacts.0, artifacts.1))
  }

  // ----------------------------------------------------------------------------------- the reader

  /** Walk the archive to the named entry. */
  method FindEntry(a: Archive, name: string) returns (r: Result<Option<Entry>>)
    ensures r == Lookup(a, name)
  {
    for i := 0 to |a.entries|
      invariant FirstNamed(a.entries, name) == i + FirstNamed(a.entries[i..], name)
    {
      if a.entries[i].name == name {
        return Ok(Some(a.entries[i]));
      }
      assert a.entries[i..][1..] == a.entries[i + 1..];
    }
    r := if a.cleanEnd then Ok(None) else BundleError;
  }

  lemma {:induction false} ConcatGrows(chunks: seq<string>, k: nat)
    requires k <= |chunks|
    ensures |EventLog.Concat(chunks[..k])| <= |EventLog.Concat(chunks)|
    decreases |chunks|
  {
    if k == |chunks| {
      assert chunks[..k] == chunks;
    } else {
      ConcatGrows(chunks[..|chunks| - 1], k);
      assert chunks[..|chunks| - 1][..k] == chunks[..k];
    }
  }

  /** Read an entry chunk by chunk, refusing to load more than the cap. */
  method ReadEntryBytes(e: Entry) returns (r: Result<string>)
    ensures r == Slurp(e)
  {
    var out := "";
    for k := 0 to |e.chunks|
      invariant out == EventLog.Concat(e.chunks[..k]) && |out| <= MAX_ENTRY_BYTES
    {
      assert e.chunks[..k + 1][..k] == e.chunks[..k];
      if |out| + |e.chunks[k]| > MAX_ENTRY_BYTES {
        ConcatGrows(e.chunks, k + 1);
        return BundleError;
      }
      out := out + e.chunks[k];
    }
    assert e.chunks[..|e.chunks|] == e.chunks;
    r := if e.readable then Ok(out) else BundleError;
  }

  method ReadRequired(a: Archive, name: string) returns (r: Result<string>)
    ensures r == EntryText(a, name)
  {
    var found := FindEntry(a, name);
    if found.BundleError? || found.value.None? {
      return BundleError;
    }
    r := ReadEntryBytes(found.value.value);
  }

  /** Hash an entry as it streams past. */
  method StreamHash(l: Libs, e: Entry) returns (r: Result<string>)
    ensures r == if e.readable then Ok(l.hash(e.Bytes())) else BundleError
  {
    var seen := "";
    for k := 0 to |e.chunks|
      invariant seen == EventLog.Concat(e.chunks[..k])
    {
      assert e.chunks[..k + 1][..k] == e.chunks[..k];
      seen := seen + e.chunks[k];
    }
    assert e.chunks[..|e.chunks|] == e.chunks;
    r := if e.readable then Ok(l.hash(seen)) else BundleError;
  }

  /** One pass over the archive: check every artifact entry, then look for missing ones. */
  method ScanArtifacts(l: Libs, a: Archive, expected: set<string>) returns (r: Result<bool>)
    ensures r == if ArtifactsReadable(a) then Ok(ContentOk(l, a.entries, expected)) else BundleError
  {
    var seen: set<string> := {};
    var contentOk := true;
    for i := 0 to |a.entries|
      invariant forall j :: 0 <= j < i && IsArtifact(a.entries[j]) ==> a.entries[j].readable
      invariant contentOk <==> forall j :: 0 <= j < i ==> EntryOk(l, a.entries[j], expected)
      invariant forall s :: s in seen <==> exists j :: 0 <= j < i && IsArtifact(a.entries[j]) && BaseName(a.entries[j]) == s
    {
      var e := a.entries[i];
      if !IsArtifact(e) {
        continue;
      }
      var base := BaseName(e);
      var digest := StreamHash(l, e);
      if digest.BundleError? {
        return BundleError;
      }
      seen := seen + {base};
      if digest.value != base {
        contentOk := false;
      } else if base !in expected {
        contentOk := false;
      }
    }
    if !a.cleanEnd {
      return BundleError;
    }
    assert forall s :: s in seen <==> Present(a.entries, s);
    if !(expected <= seen) {
      contentOk := false;
    }
    r := Ok(contentOk);
  }

  function DeliveredEvents<J>(a: Archive, parse: string -> Option<J>): Result<(seq<J>, nat)> {
    var bytes :- EventBytes(a);
    var end := EventLog.Flush(parse, EventLog.FeedAll(parse, bytes));
    Ok((end.events, end.malformed))
  }

  function DeliveredTree<T>(a: Archive, treeOf: string -> Result<T>): Result<T> {
    var text :- EntryText(a, TREE_NAME);
    treeOf(text)
  }

  function DeliveredIndex(l: Libs, a: Archive): Result<seq<IndexRecord>> {
    var found :- Lookup(a, INDEX_NAME);
    if found.None? then Ok([])
    else
      var text :- Slurp(found.value);
      IndexFromText(l.codec, text)
  }

  /** `treeOf` stands for tree_from_json. */
  class Reader<T> {
    const libs: Libs
    const archive: Archive
    const treeOf: string -> Result<T>
    const manifest: Manifest
    const rawManifest: string
    var processTree: Option<T>
    var index: Option<seq<IndexRecord>>

    /** What is cached is what the archive holds. */
    ghost predicate Valid()
      reads this
    {
      && OpenBundle(libs, archive) == Ok((manifest, rawManifest))
      && (processTree.Some? ==> DeliveredTree(archive, treeOf) == Ok(processTree.value))
      && (index.Some? ==> DeliveredIndex(libs, archive) == Ok(index.value))
    }

    constructor (libs: Libs, archive: Archive, treeOf: string -> Result<T>, manifest: Manifest, rawManifest: string)
      requires OpenBundle(libs, archive) == Ok((manifest, rawManifest))
      ensures Valid() && this.libs == libs && this.archive == archive && this.manifest == manifest
              && this.rawManifest == rawManifest && this.treeOf == treeOf
    {
      this.libs, this.archive, this.treeOf, this.manifest, this.rawManifest := libs, archive, treeOf, manifest, rawManifest;
      processTree, index := None, None;
    }

    method ProcessTree() returns (r: Result<T>)
      requires Valid()
      modifies this
      ensures Valid() && r == DeliveredTree(archive, treeOf)
    {
      if processTree.Some? {
        return Ok(processTree.value);
      }
      var text := ReadRequired(archive, TREE_NAME);
      if text.BundleError? {
        return BundleError;
      }
      r := treeOf(text.value);
      if r.Ok? {
        processTree := Some(r.value);
      }
    }

    method Artifacts() returns (r: Result<seq<IndexRecord>>)
      requires Valid()
      modifies this
      ensures Valid() && r == DeliveredIndex(libs, archive)
    {
      if index.Some? {
        return Ok(index.value);
      }
      var found := FindEntry(archive, INDEX_NAME);
      if found.BundleError? {
        return BundleError;
      }
      r := Ok([]);
      if found.value.Some? {
        var text := ReadEntryBytes(found.value.value);
        if text.BundleError? {
          return BundleError;
        }
        r := IndexFromText(libs.codec, text.value);
        if r.BundleError? {
          return;
        }
      }
      index := Some(r.value);
    }

    method ForEachEvent<J>(parse: string -> Option<J>) returns (r: Result<(seq<J>, nat)>)
      requires Valid()
      ensures r == DeliveredEvents(archive, parse)
    {
      var found := FindEntry(archive, EVENTS_NAME);
      if found.BundleError? || found.value.None? {
        return BundleError;
      }
      var e := found.value.value;
      var events, malformed, ok := EventLog.ForEachEvent(parse, e.chunks, !e.readable);
      r := if ok then Ok((events, malformed)) else BundleError;
    }

    method VerifyIntegrity() returns (r: Result<bool>)
      requires Valid()
      ensures r == CheckIntegrity(libs, archive, manifest)
    {
      var ok := true;
      var found := FindEntry(archive, EVENTS_NAME);
      if found.BundleError? || found.value.None? {
        return BundleError;
      }
      var digest := StreamHash(libs, found.value.value);
      if digest.BundleError? {
        return BundleError;
      }
      if digest.value != manifest.integrity.eventsSha256 {
        ok := false;
      }
      var tree := ReadRequired(archive, TREE_NAME);
      if tree.BundleError? {
        return BundleError;
      }
      if libs.hash(tree.value) != manifest.integrity.processTreeSha256 {
        ok := false;
      }
      r := Ok(ok);
    }

    method VerifyArtifacts() returns (r: Result<(bool, bool)>)
      requires Valid()
      ensures r == CheckArtifacts(libs, archive, manifest)
    {
      if manifest.integrity.artifactsIndexSha256 == "" {
        return Ok((true, true));
      }
      var indexOk := true;
      var found := FindEntry(archive, INDEX_NAME);
      if found.BundleError? {
        return BundleError;
      }
      if found.value.None? {
        return Ok((false, false));
      }
      var text := ReadEntryBytes(found.value.value);
      if text.BundleError? {
        return BundleError;
      }
      if libs.hash(text.value) != manifest.integrity.artifactsIndexSha256 {
        indexOk := false;
      }
      var records := IndexFromText(libs.codec, text.value);
      if records.BundleError? {
        return Ok((indexOk, false));
      }
      var contentOk := ScanArtifacts(libs, archive, Expected(records.value));
      r := if contentOk.BundleError? then BundleError else Ok((indexOk, contentOk.value));
    }

    method Verify() returns (r: Result<VerifyReport>)
      requires Valid()
      ensures r == VerifyBundle(libs, archive, manifest, rawManifest)
    {
      var integrity := VerifyIntegrity();
      if integrity.BundleError? {
        return BundleError;
      }
      var artifacts := VerifyArtifacts();
      if artifacts.BundleError? {
        return BundleError;
      }
      var report := VerifyReport(integrity.value, manifest.sig.algorithm != "", false, artifacts.value.0, artifacts.value.1);
      if report.signaturePresent {
        var payload := manifest.integrity.eventsSha256 + "\n" + manifest.integrity.processTreeSha256 + "\n";
        if manifest.sig.scope == "manifest-v1" {
          var canonical := CanonicalPayload(libs.codec, rawManifest);
          if canonical.None? {
            return BundleError;
          }
          payload := canonical.value;
        }
        report := report.(signatureOk := VerifySignature(libs, manifest.sig, payload));
      }
      r := Ok(report);
    }
  }

  // ---------------------------------------------------------------- verification determines content

  /** The artifact entries, as names with their bytes. */
  function ArtifactSet(a: Archive): set<(string, string)> {
    set i | 0 <= i < |a.entries| && IsArtifact(a.entries[i]) :: (BaseName(a.entries[i]), a.entries[i].Bytes())
  }

  /** Two different texts of the set have the same hash. */
  ghost predicate Collide(h: string -> string, texts: set<string>) {
    exists x, y :: x in texts && y in texts && x != y && h(x) == h(y)
  }

  ghost predicate Injective(h: string -> string) {
    forall x, y :: h(x) == h(y) ==> x == y
  }

  lemma SameHash(h: string -> string, texts: set<string>, x: string, y: string)
    requires !Collide(h, texts) && x in texts && y in texts && h(x) == h(y)
    ensures x == y
  {
  }

  /** The archive opens with this manifest text and verifies in full. */
  ghost predicate Verified(l: Libs, a: Archive, m: Manifest, raw: string) {
    && OpenBundle(l, a) == Ok((m, raw))
    && VerifyBundle(l, a, m, raw).Ok? && VerifyBundle(l, a, m, raw).value.AllOk()
  }

  lemma VerifiedParts(l: Libs, a: Archive, m: Manifest, raw: string)
    requires Verified(l, a, m, raw)
    ensures CheckIntegrity(l, a, m) == Ok(true) && CheckArtifacts(l, a, m) == Ok((true, true))
  {
  }

  lemma VerifiedHashes(l: Libs, a: Archive, m: Manifest)
    requires CheckIntegrity(l, a, m) == Ok(true)
    ensures EventBytes(a).Ok? && l.hash(EventBytes(a).value) == m.integrity.eventsSha256
    ensures EntryText(a, TREE_NAME).Ok? && l.hash(EntryText(a, TREE_NAME).value) == m.integrity.processTreeSha256
  {
  }

  /** The text of the index entry, when there is one. */
  function IndexText(a: Archive): Result<string> {
    EntryText(a, INDEX_NAME)
  }

  lemma VerifiedIndex(l: Libs, a: Archive, m: Manifest)
    requires CheckArtifacts(l, a, m) == Ok((true, true)) && m.integrity.artifactsIndexSha256 != ""
    ensures IndexText(a).Ok? && l.hash(IndexText(a).value) == m.integrity.artifactsIndexSha256
    ensures DeliveredIndex(l, a) == IndexFromText(l.codec, IndexText(a).value) && DeliveredIndex(l, a).Ok?
    ensures ContentOk(l, a.entries, Expected(DeliveredIndex(l, a).value))
  {
  }

  /** In a verified archive the artifacts are exactly one content per expected hash. */
  lemma ArtifactSetByHash(l: Libs, a: Archive, expected: set<string>, base: string, bytes: string)
    requires Injective(l.hash) && ContentOk(l, a.entries, expected)
    ensures (base, bytes) in ArtifactSet(a) <==> base in expected && l.hash(bytes) == base
  {
    if (base, bytes) in ArtifactSet(a) {
      var i :| 0 <= i < |a.entries| && IsArtifact(a.entries[i]) && (base, bytes) == (BaseName(a.entries[i]), a.entries[i].Bytes());
      assert EntryOk(l, a.entries[i], expected);
    }
    if base in expected && l.hash(bytes) == base {
      assert Present(a.entries, base);
      var i :| 0 <= i < |a.entries| && IsArtifact(a.entries[i]) && BaseName(a.entries[i]) == base;
      assert EntryOk(l, a.entries[i], expected);
      assert l.hash(a.entries[i].Bytes()) == l.hash(bytes);
      assert (BaseName(a.entries[i]), a.entries[i].Bytes()) in ArtifactSet(a);
    }
  }

  /** What a verification hashes: the events, the tree, the index and the artifacts. */
  ghost function TextsRead(a: Archive): set<string> {
    (if EventBytes(a).Ok? then {EventBytes(a).value} else {})
    + (if EntryText(a, TREE_NAME).Ok? then {EntryText(a, TREE_NAME).value} else {})
    + (if IndexText(a).Ok? then {IndexText(a).value} else {})
    + (set i | 0 <= i < |a.entries| && IsArtifact(a.entries[i]) :: a.entries[i].Bytes())
  }

  lemma ArtifactRead(a: Archive, i: nat)
    requires i < |a.entries| && IsArtifact(a.entries[i])
    ensures a.entries[i].Bytes() in TextsRead(a)
    ensures (BaseName(a.entries[i]), a.entries[i].Bytes()) in ArtifactSet(a)
  {
  }

  /** Where no two of the texts read collide, an artifact of one verified archive is one of the other. */
  lemma ArtifactInBoth(l: Libs, a: Archive, b: Archive, expected: set<string>, base: string, bytes: string)
    requires !Collide(l.hash, TextsRead(a) + TextsRead(b))
    requires ContentOk(l, a.entries, expected) && ContentOk(l, b.entries, expected)
    requires (base, bytes) in ArtifactSet(a)
    ensures (base, bytes) in ArtifactSet(b)
  {
    var i :| 0 <= i < |a.entries| && IsArtifact(a.entries[i]) && (base, bytes) == (BaseName(a.entries[i]), a.entries[i].Bytes());
    assert EntryOk(l, a.entries[i], expected);
    assert Present(b.entries, base);
    var k :| 0 <= k < |b.entries| && IsArtifact(b.entries[k]) && BaseName(b.entries[k]) == base;
    assert EntryOk(l, b.entries[k], expected);
    ArtifactRead(a, i);
    ArtifactRead(b, k);
    SameHash(l.hash, TextsRead(a) + TextsRead(b), bytes, b.entries[k].Bytes());
  }

  lemma SameArtifacts(l: Libs, a: Archive, b: Archive, m: Manifest)
    requires !Collide(l.hash, TextsRead(a) + TextsRead(b)) && m.integrity.artifactsIndexSha256 != ""
    requires CheckArtifacts(l, a, m) == Ok((true, true)) && CheckArtifacts(l, b, m) == Ok((true, true))
    ensures DeliveredIndex(l, a).Ok? && DeliveredIndex(l, a) == DeliveredIndex(l, b)
    ensures ArtifactSet(a) == ArtifactSet(b)
  {
    VerifiedIndex(l, a, m);
    VerifiedIndex(l, b, m);
    SameHash(l.hash, TextsRead(a) + TextsRead(b), IndexText(a).value, IndexText(b).value);
    var expected := Expected(DeliveredIndex(l, a).value);
    forall p | p in ArtifactSet(a) ensures p in ArtifactSet(b) {
      ArtifactInBoth(l, a, b, expected, p.0, p.1);
    }
    assert TextsRead(b) + TextsRead(a) == TextsRead(a) + TextsRead(b);
    forall p | p in ArtifactSet(b) ensures p in ArtifactSet(a) {
      ArtifactInBoth(l, b, a, expected, p.0, p.1);
    }
  }

  lemma SameEventsAndTree(l: Libs, a: Archive, b: Archive, m: Manifest)
    requires !Collide(l.hash, TextsRead(a) + TextsRead(b))
    requires CheckIntegrity(l, a, m) == Ok(true) && CheckIntegrity(l, b, m) == Ok(true)
    ensures EventBytes(a).Ok? && EventBytes(a) == EventBytes(b)
    ensures EntryText(a, TREE_NAME).Ok? && EntryText(a, TREE_NAME) == EntryText(b, TREE_NAME)
  {
    VerifiedHashes(l, a, m);
    VerifiedHashes(l, b, m);
    var texts := TextsRead(a) + TextsRead(b);
    SameHash(l.hash, texts, EventBytes(a).value, EventBytes(b).value);
    SameHash(l.hash, texts, EntryText(a, TREE_NAME).value, EntryText(b, TREE_NAME).value);
  }

  /** Two archives deliver the same events and process tree and, when the manifest declares an index,
      the same index and the same artifact names and bytes. */
  ghost predicate SameContent<T, J>(l: Libs, a: Archive, b: Archive, m: Manifest, treeOf: string -> Result<T>,
                                    parse: string -> Option<J>)
  {
    && DeliveredEvents(a, parse).Ok? && DeliveredEvents(a, parse) == DeliveredEvents(b, parse)
    && DeliveredTree(a, treeOf) == DeliveredTree(b, treeOf)
    && (m.integrity.artifactsIndexSha256 != "" ==>
          && DeliveredIndex(l, a).Ok? && DeliveredIndex(l, a) == DeliveredIndex(l, b)
          && ArtifactSet(a) == ArtifactSet(b))
  }

  /** Verification determines content: two archives with the same manifest text that both verify
      deliver the same content, whatever else they contain, or two different texts that their
      verification hashed have the same hash. */
  lemma ContentOrCollision<T, J>(l: Libs, a: Archive, b: Archive, m: Manifest, raw: string,
                                 treeOf: string -> Result<T>, parse: string -> Option<J>)
    requires Verified(l, a, m, raw) && Verified(l, b, m, raw)
    ensures SameContent(l, a, b, m, treeOf, parse) || Collide(l.hash, TextsRead(a) + TextsRead(b))
  {
    VerifiedParts(l, a, m, raw);
    VerifiedParts(l, b, m, raw);
    if !Collide(l.hash, TextsRead(a) + TextsRead(b)) {
      SameEventsAndTree(l, a, b, m);
      if m.integrity.artifactsIndexSha256 != "" {
        SameArtifacts(l, a, b, m);
      }
    }
  }

  /** With an injective hash only the first alternative is left. */
  lemma VerificationDeterminesContent<T, J>(l: Libs, a: Archive, b: Archive, m: Manifest, raw: string,
                                            treeOf: string -> Result<T>, parse: string -> Option<J>)
    requires Injective(l.hash) && Verified(l, a, m, raw) && Verified(l, b, m, raw)
    ensures SameContent(l, a, b, m, treeOf, parse)
  {
    ContentOrCollision(l, a, b, m, raw, treeOf, parse);
  }

  // ---------------------------------------------------- when a bundle verifies, by the archive alone

  ghost predicate FirstEntry(a: Archive, name: string, i: nat) {
    && i < |a.entries| && a.entries[i].name == name
    && forall j :: 0 <= j < i ==> a.entries[j].name != name
  }

  lemma FirstEntryIs(a: Archive, name: string, i: nat)
    ensures FirstEntry(a, name, i) <==> i < |a.entries| && FirstNamed(a.entries, name) == i
  {
  }

  /** A metadata text is that of the first entry of the name, readable and of at most 256 MiB. */
  lemma TextIff(a: Archive, name: string, text: string)
    ensures EntryText(a, name) == Ok(text)
            <==> exists i: nat :: FirstEntry(a, name, i) && a.entries[i].readable && a.entries[i].Bytes() == text
                                  && |text| <= 268435456
  {
    FirstEntryIs(a, name, FirstNamed(a.entries, name));
    if EntryText(a, name) == Ok(text) {
      assert FirstEntry(a, name, FirstNamed(a.entries, name));
    }
    if i: nat :| FirstEntry(a, name, i) && a.entries[i].readable && a.entries[i].Bytes() == text && |text| <= 268435456 {
      FirstEntryIs(a, name, i);
    }
  }

  /** The events are those of the first entry of that name, of any size. */
  lemma EventsIff(a: Archive, text: string)
    ensures EventBytes(a) == Ok(text)
            <==> exists i: nat :: FirstEntry(a, "events.ndjson", i) && a.entries[i].readable && a.entries[i].Bytes() == text
  {
    var name := "events.ndjson";
    FirstEntryIs(a, name, FirstNamed(a.entries, name));
    if EventBytes(a) == Ok(text) {
      assert FirstEntry(a, name, FirstNamed(a.entries, name));
    }
    if i: nat :| FirstEntry(a, name, i) && a.entries[i].readable && a.entries[i].Bytes() == text {
      FirstEntryIs(a, name, i);
    }
  }

  /** The text a signature must cover: for scope "manifest-v1" the dump of the manifest text as parsed,
      without its signature block; else the two content hashes, each followed by a newline. */
  ghost predicate MustCover(l: Libs, m: Manifest, raw: string, text: string) {
    if m.sig.scope == "manifest-v1" then
      exists fields: map<Key, Json> ::
        && l.codec.parse(raw) == Some(Obj(fields))
        && l.codec.dump(Obj(map k | k in fields && k != Sig :: fields[k])) == Some(text)
    else text == m.integrity.eventsSha256 + "\n" + m.integrity.processTreeSha256 + "\n"
  }

  /** The manifest is unsigned, or an Ed25519 signature of the text it must cover verifies. */
  ghost predicate Authentic(l: Libs, m: Manifest, raw: string) {
    m.sig.algorithm == ""
    || (m.sig.algorithm == "Ed25519"
        && exists text :: MustCover(l, m, raw, text) && l.verifySig(m.sig.pubkeyB64, m.sig.sigB64, text))
  }

  lemma CoverIs(l: Libs, m: Manifest, raw: string, text: string)
    requires ManifestFromText(l.codec, raw) == Ok(m)
    ensures MustCover(l, m, raw, text) <==> SignedPayload(l, m, raw) == Some(text)
  {
    var fields := l.codec.parse(raw).value.fields;
    assert (map k | k in fields && k != Sig :: fields[k]) == fields - {Sig};
  }

  /** A report says that a signature is present iff the manifest names an algorithm, and that it is good
      iff the manifest is authentic: a forged signature never passes. */
  lemma SignatureIff(l: Libs, m: Manifest, raw: string, a: Archive)
    requires OpenBundle(l, a) == Ok((m, raw)) && VerifyBundle(l, a, m, raw).Ok?
    ensures var report := VerifyBundle(l, a, m, raw).value;
            && (report.signaturePresent <==> m.sig.algorithm != "")
            && (report.signaturePresent ==> (report.signatureOk <==> Authentic(l, m, raw)))
            && (report.AllOk() ==> Authentic(l, m, raw))
  {
    if m.sig.algorithm != "" {
      var payload := SignedPayload(l, m, raw).value;
      CoverIs(l, m, raw, payload);
      if text :| MustCover(l, m, raw, text) && l.verifySig(m.sig.pubkeyB64, m.sig.sigB64, text) {
        CoverIs(l, m, raw, text);
      }
    }
  }

  /** An artifact entry stands under the hash of its bytes, which an ok record of the index names. */
  ghost predicate Listed(l: Libs, e: Entry, records: seq<IndexRecord>) {
    "artifacts/" <= e.name && e.name != "artifacts/" ==>
      && e.readable && e.name == "artifacts/" + l.hash(e.Bytes())
      && exists r :: r in records && r.status == "ok" && r.sha256 == l.hash(e.Bytes())
  }

  ghost predicate Packed(a: Archive, sha: string) {
    exists i :: 0 <= i < |a.entries| && a.entries[i].name == "artifacts/" + sha
  }

  /** The index is these records and hashes to what is declared, every artifact entry is listed, and
      every ok record is packed. */
  ghost predicate IndexHolds(l: Libs, a: Archive, m: Manifest, text: string, records: seq<IndexRecord>) {
    && EntryText(a, "artifacts.json") == Ok(text) && l.hash(text) == m.integrity.artifactsIndexSha256
    && IndexFromText(l.codec, text) == Ok(records) && a.cleanEnd
    && (forall i :: 0 <= i < |a.entries| ==> Listed(l, a.entries[i], records))
    && (forall r :: r in records && r.status == "ok" && r.sha256 != "" ==> Packed(a, r.sha256))
  }

  /** No index is declared, or one holds. */
  ghost predicate ArtifactsHold(l: Libs, a: Archive, m: Manifest) {
    m.integrity.artifactsIndexSha256 == "" || exists text, records :: IndexHolds(l, a, m, text, records)
  }

  lemma NameOfArtifact(e: Entry, sha: string)
    ensures IsArtifact(e) <==> "artifacts/" <= e.name && e.name != "artifacts/"
    ensures IsArtifact(e) ==> (BaseName(e) == sha <==> e.name == "artifacts/" + sha) && BaseName(e) != ""
    ensures e.name == "artifacts/" + sha && sha != "" ==> IsArtifact(e)
  {
    if "artifacts/" <= e.name {
      assert e.name == "artifacts/" + e.name[10..];
    }
  }

  lemma ListedIff(l: Libs, e: Entry, records: seq<IndexRecord>)
    ensures Listed(l, e, records) <==> (IsArtifact(e) ==> e.readable) && EntryOk(l, e, Expected(records))
  {
    NameOfArtifact(e, l.hash(e.Bytes()));
  }

  lemma PackedIff(a: Archive, sha: string)
    requires sha != ""
    ensures Packed(a, sha) <==> Present(a.entries, sha)
  {
    forall i | 0 <= i < |a.entries|
      ensures a.entries[i].name == "artifacts/" + sha <==> IsArtifact(a.entries[i]) && BaseName(a.entries[i]) == sha
    {
      NameOfArtifact(a.entries[i], sha);
    }
  }

  lemma ContentIff(l: Libs, a: Archive, records: seq<IndexRecord>)
    ensures ArtifactsReadable(a) && ContentOk(l, a.entries, Expected(records))
            <==> a.cleanEnd
                 && (forall i :: 0 <= i < |a.entries| ==> Listed(l, a.entries[i], records))
                 && (forall r :: r in records && r.status == "ok" && r.sha256 != "" ==> Packed(a, r.sha256))
  {
    forall i | 0 <= i < |a.entries|
      ensures Listed(l, a.entries[i], records)
              <==> (IsArtifact(a.entries[i]) ==> a.entries[i].readable) && EntryOk(l, a.entries[i], Expected(records))
    {
      ListedIff(l, a.entries[i], records);
    }
    forall r | r in records && r.status == "ok" && r.sha256 != ""
      ensures r.sha256 in Expected(records) && (Packed(a, r.sha256) <==> Present(a.entries, r.sha256))
    {
      PackedIff(a, r.sha256);
    }
  }

  lemma ArtifactsIff(l: Libs, a: Archive, m: Manifest)
    ensures CheckArtifacts(l, a, m) == Ok((true, true)) <==> ArtifactsHold(l, a, m)
  {
    if m.integrity.artifactsIndexSha256 != "" {
      if CheckArtifacts(l, a, m) == Ok((true, true)) {
        var text := EntryText(a, "artifacts.json").value;
        var records := IndexFromText(l.codec, text).value;
        ContentIff(l, a, records);
        assert IndexHolds(l, a, m, text, records);
      }
      if text, records :| IndexHolds(l, a, m, text, records) {
        ContentIff(l, a, records);
      }
    }
  }

  /** A declared index that is missing or malformed fails the content flag without an error, and so
      does a wrong index hash the index flag; nothing is checked when none is declared. */
  lemma ArtifactFlags(l: Libs, a: Archive, m: Manifest)
    ensures m.integrity.artifactsIndexSha256 == "" ==> CheckArtifacts(l, a, m) == Ok((true, true))
    ensures m.integrity.artifactsIndexSha256 != "" && a.cleanEnd && (forall e :: e in a.entries ==> e.name != "artifacts.json") ==>
              CheckArtifacts(l, a, m) == Ok((false, false))
    ensures m.integrity.artifactsIndexSha256 != "" && EntryText(a, "artifacts.json").Ok?
            && IndexFromText(l.codec, EntryText(a, "artifacts.json").value).BundleError? ==>
              CheckArtifacts(l, a, m)
              == Ok((l.hash(EntryText(a, "artifacts.json").value) == m.integrity.artifactsIndexSha256, false))
  {
    var i := FirstNamed(a.entries, "artifacts.json");
    if i < |a.entries| {
      assert a.entries[i] in a.entries;
    }
  }

  /** Integrity is an error iff the events or the tree cannot be read, and true iff both hashes agree. */
  lemma IntegrityIff(l: Libs, a: Archive, m: Manifest)
    ensures CheckIntegrity(l, a, m).Ok? <==> EventBytes(a).Ok? && EntryText(a, "process_tree.json").Ok?
    ensures CheckIntegrity(l, a, m).Ok? ==>
              (CheckIntegrity(l, a, m).value
               <==> l.hash(EventBytes(a).value) == m.integrity.eventsSha256
                    && l.hash(EntryText(a, "process_tree.json").value) == m.integrity.processTreeSha256)
  {
  }

  lemma AuthenticDecides(l: Libs, a: Archive, m: Manifest, raw: string)
    requires OpenBundle(l, a) == Ok((m, raw))
    requires CheckIntegrity(l, a, m) == Ok(true) && CheckArtifacts(l, a, m) == Ok((true, true))
    ensures Verified(l, a, m, raw) <==> Authentic(l, m, raw)
  {
    if VerifyBundle(l, a, m, raw).Ok? {
      SignatureIff(l, m, raw, a);
    } else {
      forall text ensures !MustCover(l, m, raw, text) {
        CoverIs(l, m, raw, text);
      }
    }
  }

  /** The verdict, exactly.  An archive that opens verifies in full if and only if its events and tree
      hash to what the manifest says, its artifacts hold, and the manifest is authentic. */
  lemma VerifiedIff(l: Libs, a: Archive, m: Manifest, raw: string)
    requires OpenBundle(l, a) == Ok((m, raw))
    ensures Verified(l, a, m, raw)
            <==> && (exists text :: EventBytes(a) == Ok(text) && l.hash(text) == m.integrity.eventsSha256)
                 && (exists text :: EntryText(a, "process_tree.json") == Ok(text) && l.hash(text) == m.integrity.processTreeSha256)
                 && ArtifactsHold(l, a, m) && Authentic(l, m, raw)
  {
    IntegrityIff(l, a, m);
    ArtifactsIff(l, a, m);
    if CheckIntegrity(l, a, m) == Ok(true) && CheckArtifacts(l, a, m) == Ok((true, true)) {
      AuthenticDecides(l, a, m, raw);
    }
  }

  // ---------------------------------------------------------------------------- tampering is detected

  /** The verifier accepts this key's signatures on one text only. */
  ghost predicate SignsOnly(l: Libs, pubkey: string, text: string) {
    forall sig, data :: l.verifySig(pubkey, sig, data) ==> data == text
  }

  /** Under a key that has signed one manifest only, a bundle signed with scope "manifest-v1" verifies
      only with that manifest's fields, whatever its signature block holds: every other manifest text,
      unmodelled keys included, is refused. */
  lemma TamperingDetected(l: Libs, a: Archive, m: Manifest, raw: string, original: Manifest, signed: string)
    requires Lawful(l.codec) && AcceptedVersion(original.schemaVersion)
    requires SigningPayload(l.codec, original) == Some(signed) && SignsOnly(l, m.sig.pubkeyB64, signed)
    requires OpenBundle(l, a) == Ok((m, raw)) && m.sig.algorithm != "" && m.sig.scope == "manifest-v1"
    ensures Verified(l, a, m, raw) ==> m == original.(sig := m.sig)
    ensures CanonicalPayload(l.codec, raw) != Some(signed) ==> !Verified(l, a, m, raw)
  {
    if Verified(l, a, m, raw) {
      SignatureIff(l, m, raw, a);
      var text :| MustCover(l, m, raw, text) && l.verifySig(m.sig.pubkeyB64, m.sig.sigB64, text);
      CoverIs(l, m, raw, text);
      PayloadDetermines(l.codec, original, raw, m);
    }
  }

  // -------------------------------------------------------------------------------------- the index

  /** What the index says of a record, status by status. */
  lemma IndexSays(r: Collector.Record)
    ensures var x := ToIndex(r);
            && x.sha256 == r.sha256 && x.sourcePaths == r.sourcePaths
            && (r.size < 0x1_0000_0000_0000_0000 ==> x.size == r.size) && (r.mode < 0x1000 ==> x.mode == r.mode)
    ensures ToIndex(r.(status := Collector.Captured)).status == "ok"
    ensures ToIndex(r.(status := Collector.TooLarge)).status == "skipped_too_large"
    ensures ToIndex(r.(status := Collector.Symlink)).status == "skipped_symlink"
    ensures ToIndex(r.(status := Collector.Special)).status == "skipped_special"
    ensures ToIndex(r.(status := Collector.BoundExceeded)).status == "skipped_bound_exceeded"
    ensures ToIndex(r.(status := Collector.Missing)).status == "missing_at_finalize"
    ensures ToIndex(r.(status := Collector.Unreadable)).status == "error_unreadable"
  {
  }

  // ---------------------------------------------------------------------------- what is delivered

  /** The tree is what tree_from_json makes of the first entry of that name. */
  lemma TreeIff<T>(a: Archive, treeOf: string -> Result<T>, tree: T)
    ensures DeliveredTree(a, treeOf) == Ok(tree)
            <==> exists text :: EntryText(a, "process_tree.json") == Ok(text) && treeOf(text) == Ok(tree)
  {
  }

  /** An index record is read iff it is an object whose fields have their types; absent ones are empty. */
  ghost predicate ReadsAs(j: Json, r: IndexRecord) {
    && j.Obj? && GetStr(j, Sha256) == Ok(r.sha256) && GetU64(j, Size) == Ok(r.size) && GetU32(j, Mode) == Ok(r.mode)
    && GetStr(j, StatusKey) == Ok(r.status) && GetStrings(j, SourcePaths) == Ok(r.sourcePaths)
  }

  lemma IndexRecordIff(j: Json, r: IndexRecord)
    ensures IndexRecordOf(j) == Ok(r) <==> ReadsAs(j, r)
  {
  }

  lemma {:induction false} IndexRecordsIff(items: seq<Json>, records: seq<IndexRecord>)
    ensures IndexRecordsOf(items) == Ok(records)
            <==> |items| == |records| && forall i :: 0 <= i < |items| ==> ReadsAs(items[i], records[i])
  {
    if items != [] && records != [] {
      IndexRecordsIff(items[1..], records[1..]);
      IndexRecordIff(items[0], records[0]);
      assert records == [records[0]] + records[1..];
      assert forall i :: 0 < i < |items| ==> items[i] == items[1..][i - 1];
      assert forall i :: 0 < i < |records| ==> records[i] == records[1..][i - 1];
    }
  }

  /** An index text is read iff it is an array of such records; one that is not spoils the whole index. */
  lemma IndexTextIff(c: Codec, text: string, records: seq<IndexRecord>)
    ensures IndexFromText(c, text) == Ok(records)
            <==> exists items: seq<Json> ::
                   && c.parse(text) == Some(Arr(items)) && |items| == |records|
                   && forall i :: 0 <= i < |items| ==> ReadsAs(items[i], records[i])
  {
    if c.parse(text).Some? && c.parse(text).value.Arr? {
      IndexRecordsIff(c.parse(text).value.items, records);
    }
  }

  /** The index delivered is empty when the archive, read to its end, has none, else that of the first
      entry of the name. */
  lemma IndexIff(l: Libs, a: Archive, records: seq<IndexRecord>)
    ensures DeliveredIndex(l, a) == Ok(records)
            <==> (a.cleanEnd && records == [] && forall e :: e in a.entries ==> e.name != "artifacts.json")
                 || exists text :: EntryText(a, "artifacts.json") == Ok(text) && IndexFromText(l.codec, text) == Ok(records)
  {
    var i := FirstNamed(a.entries, "artifacts.json");
    if i < |a.entries| {
      assert a.entries[i] in a.entries;
    } else {
      assert forall e :: e in a.entries ==> e.name != "artifacts.json";
    }
  }

  lemma HexDigit(c: char)
    ensures c in "0123456789abcdef" <==> '0' <= c <= '9' || 'a' <= c <= 'f'
  {
    var digits := "0123456789abcdef";
    if '0' <= c <= '9' {
      assert digits[(c - '0') as nat] == c;
    } else if 'a' <= c <= 'f' {
      assert digits[10 + (c - 'a') as nat] == c;
    }
  }

  /** A name under artifacts/ is packed only for 64 lowercase hexadecimal digits. */
  lemma ValidShaIff(s: string)
    ensures ValidSha256(s) <==> |s| == 64 && forall c :: c in s ==> c in "0123456789abcdef"
  {
    var digits := "0123456789abcdef";
    forall c ensures c in digits <==> '0' <= c <= '9' || 'a' <= c <= 'f' {
      HexDigit(c);
    }
    assert forall i :: 0 <= i < |s| ==> s[i] in s;
  }
}
