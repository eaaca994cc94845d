/** The manifest: its JSON form, parsing it back, and the two payloads a signature may cover.

    JSON text is handled by a codec given as a parameter, with the laws a JSON library keeps:
    parsing what was dumped gives the value back.  A dump fails (None) where the library throws on
    text that is not UTF-8.  Object keys the program knows are named; any other key is Unmodelled. */
module Manifest {
  import opened Basics

  // ------------------------------------------------------------------------------------- JSON

  datatype Key =
    | SchemaVersion | Tool | Name | Version
    | Capture | StartedAt | EndedAt | DurationSeconds | ClockRealtimeNs | ClockMonotonicNs
    | Host | Kernel | Arch | Distro | Hostname
    | Target | Path | Sha256 | Size | Args | EnvCount
    | Isolation | Namespaces | CgroupPath | CgroupId
    | Coverage | Families | SyscallsCaptured | NetworkLayers | ArtifactsCaptured
    | Counts | EventsTotal | EventsDropped | ProcessesSeen | ArtifactsCount
    | Integrity | EventsSha256 | ProcessTreeSha256 | ArtifactsIndexSha256
    | Sig | Algorithm | Scope | PubkeyB64 | SigB64
    | Mode | SourcePaths | StatusKey
    | Unmodelled(name: string)

  datatype Json =
    | Null
    | Bool(flag: bool)
    | Num(num: int)
    | Str(text: string)
    | Arr(items: seq<Json>)
    | Obj(fields: map<Key, Json>)

  type u64 = x: int | 0 <= x < 0x1_0000_0000_0000_0000
  type u32 = x: int | 0 <= x < 0x1_0000_0000
  type i32 = x: int | -0x8000_0000 <= x < 0x8000_0000

  function Field(j: Json, key: Key): Option<Json> {
    if j.Obj? && key in j.fields then Some(j.fields[key]) else None
  }

  /** The library's value(key, default): a missing key gives the default, a value of the wrong type
      is an error, and so is asking anything but an object. */
  function GetStr(j: Json, key: Key): Result<string> {
    if !j.Obj? then BundleError
    else
      match Field(j, key)
      case None => Ok("")
      case Some(Str(s)) => Ok(s)
      case _ => BundleError
  }

  function GetU64(j: Json, key: Key): Result<u64> {
    if !j.Obj? then BundleError
    else
      match Field(j, key)
      case None => Ok(0)
      case Some(Num(n)) => Ok(n % 0x1_0000_0000_0000_0000)
      case _ => BundleError
  }

  /** Reading a number narrower than 64 bits also accepts a boolean. */
  function GetU32(j: Json, key: Key): Result<u32> {
    if !j.Obj? then BundleError
    else
      match Field(j, key)
      case None => Ok(0)
      case Some(Num(n)) => Ok(n % 0x1_0000_0000)
      case Some(Bool(b)) => Ok(if b then 1 else 0)
      case _ => BundleError
  }

  function GetInt(j: Json, key: Key): Result<i32> {
    if !j.Obj? then BundleError
    else
      match Field(j, key)
      case None => Ok(0)
      case Some(Num(n)) => Ok((n + 0x8000_0000) % 0x1_0000_0000 - 0x8000_0000)
      case Some(Bool(b)) => Ok(if b then 1 else 0)
      case _ => BundleError
  }

  function GetBool(j: Json, key: Key): Result<bool> {
    if !j.Obj? then BundleError
    else
      match Field(j, key)
      case None => Ok(false)
      case Some(Bool(b)) => Ok(b)
      case _ => BundleError
  }

  function Strings(items: seq<Json>): Result<seq<string>> {
    if items == [] then Ok([])
    else if !items[0].Str? then BundleError
    else
      var rest :- Strings(items[1..]);
      Ok([items[0].text] + rest)
  }

  /** A list of strings; absent, or not an array, means empty. */
  function GetStrings(j: Json, key: Key): Result<seq<string>> {
    match Field(j, key)
    case Some(Arr(items)) => Strings(items)
    case _ => Ok([])
  }

  function StrArr(ss: seq<string>): Json {
    Arr(seq(|ss|, i requires 0 <= i < |ss| => Str(ss[i])))
  }

  lemma {:induction false} StringsOfArr(ss: seq<string>)
    ensures Strings(StrArr(ss).items) == Ok(ss)
  {
    if ss != [] {
      assert StrArr(ss).items[1..] == StrArr(ss[1..]).items;
      StringsOfArr(ss[1..]);
      assert [ss[0]] + ss[1..] == ss;
    }
  }

  // --------------------------------------------------------------------------------- the struct

  datatype HostInfo = HostInfo(kernel: string, arch: string, distro: string, hostname: string)

  datatype CaptureInfo = CaptureInfo(startedAt: string, endedAt: string, durationSeconds: u64, host: HostInfo,
                                     clockRealtimeNs: u64, clockMonotonicNs: u64)

  datatype TargetInfo = TargetInfo(path: string, sha256: string, size: u64, args: seq<string>, envCount: i32)

  datatype IsolationInfo = IsolationInfo(namespaces: seq<string>, cgroupPath: string, cgroupId: u64)

  datatype CoverageInfo = CoverageInfo(families: seq<string>, syscallsCaptured: bool, networkLayers: seq<string>,
                                       artifactsCaptured: bool)

  datatype CountsInfo = CountsInfo(eventsTotal: u64, eventsDropped: u64, processesSeen: u64, artifactsCount: u64)

  datatype IntegrityInfo = IntegrityInfo(eventsSha256: string, processTreeSha256: string, artifactsIndexSha256: string)

  datatype Signature = Signature(algorithm: string, scope: string, pubkeyB64: string, sigB64: string)

  datatype Manifest = Manifest(schemaVersion: string, toolName: string, toolVersion: string, capture: CaptureInfo,
                               target: TargetInfo, isolation: IsolationInfo, coverage: CoverageInfo, counts: CountsInfo,
                               integrity: IntegrityInfo, sig: Signature)

  const NO_HOST: HostInfo := HostInfo("", "", "", "")
  const NO_SIG: Signature := Signature("", "", "", "")

  function ToolJson(m: Manifest): Json {
    Obj(map[Name := Str(m.toolName), Version := Str(m.toolVersion)])
  }

  function HostJson(h: HostInfo): Json {
    Obj(map[Kernel := Str(h.kernel), Arch := Str(h.arch), Distro := Str(h.distro), Hostname := Str(h.hostname)])
  }

  function CaptureJson(c: CaptureInfo): Json {
    Obj(map[StartedAt := Str(c.startedAt), EndedAt := Str(c.endedAt), DurationSeconds := Num(c.durationSeconds),
            ClockRealtimeNs := Num(c.clockRealtimeNs), ClockMonotonicNs := Num(c.clockMonotonicNs),
            Host := HostJson(c.host)])
  }

  function TargetJson(t: TargetInfo): Json {
    Obj(map[Path := Str(t.path), Sha256 := Str(t.sha256), Size := Num(t.size), Args := StrArr(t.args),
            EnvCount := Num(t.envCount)])
  }

  function IsolationJson(i: IsolationInfo): Json {
    Obj(map[Namespaces := StrArr(i.namespaces), CgroupPath := Str(i.cgroupPath), CgroupId := Num(i.cgroupId)])
  }

  function CoverageJson(c: CoverageInfo): Json {
    Obj(map[Families := StrArr(c.families), SyscallsCaptured := Bool(c.syscallsCaptured),
            NetworkLayers := StrArr(c.networkLayers), ArtifactsCaptured := Bool(c.artifactsCaptured)])
  }

  function CountsJson(c: CountsInfo): Json {
    Obj(map[EventsTotal := Num(c.eventsTotal), EventsDropped := Num(c.eventsDropped),
            ProcessesSeen := Num(c.processesSeen), ArtifactsCount := Num(c.artifactsCount)])
  }

  function IntegrityJson(i: IntegrityInfo): Json {
    Obj(map[EventsSha256 := Str(i.eventsSha256), ProcessTreeSha256 := Str(i.processTreeSha256),
            ArtifactsIndexSha256 := Str(i.artifactsIndexSha256)])
  }

  function SigJson(s: Signature): Json {
    Obj(map[Algorithm := Str(s.algorithm), Scope := Str(s.scope), PubkeyB64 := Str(s.pubkeyB64), SigB64 := Str(s.sigB64)])
  }

  function TopLevel(version: Json, tool: Json, capture: Json, target: Json, isolation: Json, coverage: Json, counts: Json,
                    integrity: Json, sig: Json): Json
  {
    Obj(map[SchemaVersion := version, Tool := tool, Capture := capture, Target := target, Isolation := isolation,
            Coverage := coverage, Counts := counts, Integrity := integrity, Sig := sig])
  }

  function ManifestJson(m: Manifest): Json {
    TopLevel(Str(m.schemaVersion), ToolJson(m), CaptureJson(m.capture), TargetJson(m.target), IsolationJson(m.isolation),
             CoverageJson(m.coverage), CountsJson(m.counts), IntegrityJson(m.integrity), SigJson(m.sig))
  }

  // ------------------------------------------------------------------------------------ parsing

  /** A member that is present and an object. */
  function Section(j: Json, key: Key): Option<Json> {
    match Field(j, key)
    case Some(Obj(fields)) => Some(Obj(fields))
    case _ => None
  }

  function HostOf(j: Option<Json>): Result<HostInfo> {
    if j.None? then Ok(NO_HOST)
    else
      var kernel :- GetStr(j.value, Kernel);
      var arch :- GetStr(j.value, Arch);
      var distro :- GetStr(j.value, Distro);
      var hostname :- GetStr(j.value, Hostname);
      Ok(HostInfo(kernel, arch, distro, hostname))
  }

  function ToolOf(j: Option<Json>): Result<(string, string)> {
    if j.None? then Ok(("", ""))
    else
      var name :- GetStr(j.value, Name);
      var version :- GetStr(j.value, Version);
      Ok((name, version))
  }

  function CaptureOf(j: Option<Json>): Result<CaptureInfo> {
    if j.None? then Ok(CaptureInfo("", "", 0, NO_HOST, 0, 0))
    else
      var startedAt :- GetStr(j.value, StartedAt);
      var endedAt :- GetStr(j.value, EndedAt);
      var duration :- GetU64(j.value, DurationSeconds);
      var realtime :- GetU64(j.value, ClockRealtimeNs);
      var monotonic :- GetU64(j.value, ClockMonotonicNs);
      var host :- HostOf(Section(j.value, Host));
      Ok(CaptureInfo(startedAt, endedAt, duration, host, realtime, monotonic))
  }

  function TargetOf(j: Option<Json>): Result<TargetInfo> {
    if j.None? then Ok(TargetInfo("", "", 0, [], 0))
    else
      var path :- GetStr(j.value, Path);
      var sha256 :- GetStr(j.value, Sha256);
      var size :- GetU64(j.value, Size);
      var args :- GetStrings(j.value, Args);
      var envCount :- GetInt(j.value, EnvCount);
      Ok(TargetInfo(path, sha256, size, args, envCount))
  }

  function IsolationOf(j: Option<Json>): Result<IsolationInfo> {
    if j.None? then Ok(IsolationInfo([], "", 0))
    else
      var namespaces :- GetStrings(j.value, Namespaces);
      var cgroupPath :- GetStr(j.value, CgroupPath);
      var cgroupId :- GetU64(j.value, CgroupId);
      Ok(IsolationInfo(namespaces, cgroupPath, cgroupId))
  }

  function CoverageOf(j: Option<Json>): Result<CoverageInfo> {
    if j.None? then Ok(CoverageInfo([], false, [], false))
    else
      var families :- GetStrings(j.value, Families);
      var syscalls :- GetBool(j.value, SyscallsCaptured);
      var layers :- GetStrings(j.value, NetworkLayers);
      var artifacts :- GetBool(j.value, ArtifactsCaptured);
      Ok(CoverageInfo(families, syscalls, layers, artifacts))
  }

  function CountsOf(j: Option<Json>): Result<CountsInfo> {
    if j.None? then Ok(CountsInfo(0, 0, 0, 0))
    else
      var total :- GetU64(j.value, EventsTotal);
      var dropped :- GetU64(j.value, EventsDropped);
      var processes :- GetU64(j.value, ProcessesSeen);
      var artifacts :- GetU64(j.value, ArtifactsCount);
      Ok(CountsInfo(total, dropped, processes, artifacts))
  }

  function IntegrityOf(j: Option<Json>): Result<IntegrityInfo> {
    if j.None? then Ok(IntegrityInfo("", "", ""))
    else
      var events :- GetStr(j.value, EventsSha256);
      var tree :- GetStr(j.value, ProcessTreeSha256);
      var index :- GetStr(j.value, ArtifactsIndexSha256);
      Ok(IntegrityInfo(events, tree, index))
  }

  function SigOf(j: Option<Json>): Result<Signature> {
    if j.None? then Ok(NO_SIG)
    else
      var algorithm :- GetStr(j.value, Algorithm);
      var scope :- GetStr(j.value, Scope);
      var pubkey :- GetStr(j.value, PubkeyB64);
      var sig :- GetStr(j.value, SigB64);
      Ok(Signature(algorithm, scope, pubkey, sig))
  }

  /** The digits a text starts with, as a number; None if it starts with none. */
  function LeadingNumber(s: string, acc: nat, any: bool): Option<nat> {
    if s != "" && '0' <= s[0] <= '9' then LeadingNumber(s[1..], acc * 10 + ((s[0] - '0') as nat), true)
    else if any then Some(acc) else None
  }

  predicate IsSpace(c: char) {
    c in {' ', '\t', '\n', '\r', 11 as char, 12 as char}
  }

  /** What sscanf("%d") stores: leading space, an optional sign, digits; -1 stays if there is no number. */
  function ParseMajor(s: string): int {
    if s == "" then -1
    else if IsSpace(s[0]) then ParseMajor(s[1..])
    else
      var signed := s[0] == '-' || s[0] == '+';
      match LeadingNumber(if signed then s[1..] else s, 0, false)
      case None => -1
      case Some(n) => if s[0] == '-' then 0 - n else n
  }

  const SCHEMA_MAJOR: int := 0
  const SCHEMA_VERSION: string := "0.2.0"
  const TOOL_NAME: string := "vishaya"
  const TOOL_VERSION: string := "0.2.0"

  predicate AcceptedVersion(v: string) {
    v != "" && 0 <= ParseMajor(v) <= SCHEMA_MAJOR
  }

  function ManifestOf(j: Json): Result<Manifest> {
    var version :- GetStr(j, SchemaVersion);
    if !AcceptedVersion(version) then BundleError
    else
      var tool :- ToolOf(Section(j, Tool));
      var capture :- CaptureOf(Section(j, Capture));
      var target :- TargetOf(Section(j, Target));
      var isolation :- IsolationOf(Section(j, Isolation));
      var coverage :- CoverageOf(Section(j, Coverage));
      var counts :- CountsOf(Section(j, Counts));
      var integrity :- IntegrityOf(Section(j, Integrity));
      var sig :- SigOf(Section(j, Sig));
      Ok(Manifest(version, tool.0, tool.1, capture, target, isolation, coverage, counts, integrity, sig))
  }

  // --------------------------------------------------------------------------- text and payloads

  /** The JSON library: compact and indented dumps, and the parser. */
  datatype Codec = Codec(dump: Json -> Option<string>, pretty: Json -> Option<string>, parse: string -> Option<Json>)

  ghost predicate Lawful(c: Codec) {
    && (forall j :: c.dump(j).Some? ==> c.parse(c.dump(j).value) == Some(j))
    && (forall j :: c.pretty(j).Some? ==> c.parse(c.pretty(j).value) == Some(j))
  }

  function ManifestFromText(c: Codec, text: string): Result<Manifest> {
    match c.parse(text)
    case None => BundleError
    case Some(j) => ManifestOf(j)
  }

  function WithoutSig(j: Json): Json {
    if j.Obj? then Obj(j.fields - {Sig}) else j
  }

  /** What the writer signs: everything but the signature block. */
  function SigningPayload(c: Codec, m: Manifest): Option<string> {
    c.dump(WithoutSig(ManifestJson(m)))
  }

  /** What the reader checks the signature against, from the bytes on disk. */
  function CanonicalPayload(c: Codec, text: string): Option<string> {
    match c.parse(text)
    case None => None
    case Some(j) => c.dump(WithoutSig(j))
  }

  // ---------------------------------------------------------------------------------- lockstep

  lemma HostBack(h: HostInfo)
    ensures HostOf(Some(HostJson(h))) == Ok(h)
  {
    var j := HostJson(h);
    assert GetStr(j, Kernel) == Ok(h.kernel) && GetStr(j, Arch) == Ok(h.arch);
    assert GetStr(j, Distro) == Ok(h.distro) && GetStr(j, Hostname) == Ok(h.hostname);
  }

  lemma CaptureBack(c: CaptureInfo)
    ensures CaptureOf(Some(CaptureJson(c))) == Ok(c)
  {
    var j := CaptureJson(c);
    HostBack(c.host);
    assert GetStr(j, StartedAt) == Ok(c.startedAt) && GetStr(j, EndedAt) == Ok(c.endedAt);
    assert GetU64(j, DurationSeconds) == Ok(c.durationSeconds);
    assert GetU64(j, ClockRealtimeNs) == Ok(c.clockRealtimeNs) && GetU64(j, ClockMonotonicNs) == Ok(c.clockMonotonicNs);
    assert Section(j, Host) == Some(HostJson(c.host));
  }

  lemma TargetBack(t: TargetInfo)
    ensures TargetOf(Some(TargetJson(t))) == Ok(t)
  {
    var j := TargetJson(t);
    StringsOfArr(t.args);
    assert GetStr(j, Path) == Ok(t.path) && GetStr(j, Sha256) == Ok(t.sha256) && GetU64(j, Size) == Ok(t.size);
    assert GetStrings(j, Args) == Ok(t.args) && GetInt(j, EnvCount) == Ok(t.envCount);
  }

  lemma IsolationBack(i: IsolationInfo)
    ensures IsolationOf(Some(IsolationJson(i))) == Ok(i)
  {
    var j := IsolationJson(i);
    StringsOfArr(i.namespaces);
    assert GetStrings(j, Namespaces) == Ok(i.namespaces);
    assert GetStr(j, CgroupPath) == Ok(i.cgroupPath) && GetU64(j, CgroupId) == Ok(i.cgroupId);
  }

  lemma CoverageBack(c: CoverageInfo)
    ensures CoverageOf(Some(CoverageJson(c))) == Ok(c)
  {
    var j := CoverageJson(c);
    StringsOfArr(c.families);
    StringsOfArr(c.networkLayers);
    assert GetStrings(j, Families) == Ok(c.families) && GetBool(j, SyscallsCaptured) == Ok(c.syscallsCaptured);
    assert GetStrings(j, NetworkLayers) == Ok(c.networkLayers) && GetBool(j, ArtifactsCaptured) == Ok(c.artifactsCaptured);
  }

  lemma CountsBack(c: CountsInfo)
    ensures CountsOf(Some(CountsJson(c))) == Ok(c)
  {
    var j := CountsJson(c);
    assert GetU64(j, EventsTotal) == Ok(c.eventsTotal) && GetU64(j, EventsDropped) == Ok(c.eventsDropped);
    assert GetU64(j, ProcessesSeen) == Ok(c.processesSeen) && GetU64(j, ArtifactsCount) == Ok(c.artifactsCount);
  }

  lemma IntegrityBack(i: IntegrityInfo)
    ensures IntegrityOf(Some(IntegrityJson(i))) == Ok(i)
  {
    var j := IntegrityJson(i);
    assert GetStr(j, EventsSha256) == Ok(i.eventsSha256) && GetStr(j, ProcessTreeSha256) == Ok(i.processTreeSha256);
    assert GetStr(j, ArtifactsIndexSha256) == Ok(i.artifactsIndexSha256);
  }

  lemma SigBack(s: Signature)
    ensures SigOf(Some(SigJson(s))) == Ok(s)
  {
    var j := SigJson(s);
    assert GetStr(j, Algorithm) == Ok(s.algorithm) && GetStr(j, Scope) == Ok(s.scope);
    assert GetStr(j, PubkeyB64) == Ok(s.pubkeyB64) && GetStr(j, SigB64) == Ok(s.sigB64);
  }

  lemma ToolBack(m: Manifest)
    ensures ToolOf(Some(ToolJson(m))) == Ok((m.toolName, m.toolVersion))
  {
    var j := ToolJson(m);
    assert GetStr(j, Name) == Ok(m.toolName) && GetStr(j, Version) == Ok(m.toolVersion);
  }

  lemma TopLevelFields(version: Json, tool: Json, capture: Json, target: Json, isolation: Json, coverage: Json,
                       counts: Json, integrity: Json, sig: Json)
    ensures var j := TopLevel(version, tool, capture, target, isolation, coverage, counts, integrity, sig);
            && Field(j, SchemaVersion) == Some(version) && Field(j, Tool) == Some(tool)
            && Field(j, Capture) == Some(capture) && Field(j, Target) == Some(target)
            && Field(j, Isolation) == Some(isolation) && Field(j, Coverage) == Some(coverage)
            && Field(j, Counts) == Some(counts) && Field(j, Integrity) == Some(integrity) && Field(j, Sig) == Some(sig)
  {
    var fields := TopLevel(version, tool, capture, target, isolation, coverage, counts, integrity, sig).fields;
    assert fields.Keys == {SchemaVersion, Tool, Capture, Target, Isolation, Coverage, Counts, Integrity, Sig};
    assert fields[SchemaVersion] == version && fields[Tool] == tool && fields[Capture] == capture;
    assert fields[Target] == target && fields[Isolation] == isolation && fields[Coverage] == coverage;
    assert fields[Counts] == counts && fields[Integrity] == integrity && fields[Sig] == sig;
  }

  lemma SectionsOf(m: Manifest)
    ensures var j := ManifestJson(m);
            && GetStr(j, SchemaVersion) == Ok(m.schemaVersion)
            && Section(j, Tool) == Some(ToolJson(m)) && Section(j, Capture) == Some(CaptureJson(m.capture))
            && Section(j, Target) == Some(TargetJson(m.target)) && Section(j, Isolation) == Some(IsolationJson(m.isolation))
            && Section(j, Coverage) == Some(CoverageJson(m.coverage)) && Section(j, Counts) == Some(CountsJson(m.counts))
            && Section(j, Integrity) == Some(IntegrityJson(m.integrity)) && Section(j, Sig) == Some(SigJson(m.sig))
  {
    TopLevelFields(Str(m.schemaVersion), ToolJson(m), CaptureJson(m.capture), TargetJson(m.target),
                   IsolationJson(m.isolation), CoverageJson(m.coverage), CountsJson(m.counts),
                   IntegrityJson(m.integrity), SigJson(m.sig));
  }

  lemma ManifestOfSections(j: Json, m: Manifest)
    requires AcceptedVersion(m.schemaVersion)
    requires GetStr(j, SchemaVersion) == Ok(m.schemaVersion)
    requires ToolOf(Section(j, Tool)) == Ok((m.toolName, m.toolVersion))
    requires CaptureOf(Section(j, Capture)) == Ok(m.capture) && TargetOf(Section(j, Target)) == Ok(m.target)
    requires IsolationOf(Section(j, Isolation)) == Ok(m.isolation) && CoverageOf(Section(j, Coverage)) == Ok(m.coverage)
    requires CountsOf(Section(j, Counts)) == Ok(m.counts) && IntegrityOf(Section(j, Integrity)) == Ok(m.integrity)
    requires SigOf(Section(j, Sig)) == Ok(m.sig)
    ensures ManifestOf(j) == Ok(m)
  {
  }

  /** Every field that is written is read back. */
  lemma ManifestBack(m: Manifest)
    requires AcceptedVersion(m.schemaVersion)
    ensures ManifestOf(ManifestJson(m)) == Ok(m)
  {
    SectionsOf(m);
    ToolBack(m);
    CaptureBack(m.capture);
    TargetBack(m.target);
    IsolationBack(m.isolation);
    CoverageBack(m.coverage);
    CountsBack(m.counts);
    IntegrityBack(m.integrity);
    SigBack(m.sig);
    ManifestOfSections(ManifestJson(m), m);
  }

  /** Parsing a serialized manifest gives it back. */
  lemma ManifestRoundTrip(c: Codec, m: Manifest)
    requires Lawful(c) && AcceptedVersion(m.schemaVersion) && c.pretty(ManifestJson(m)).Some?
    ensures ManifestFromText(c, c.pretty(ManifestJson(m)).value) == Ok(m)
  {
    ManifestBack(m);
  }

  /** The writer's and the reader's payload agree, whatever the signature block holds. */
  lemma PayloadsAgree(c: Codec, m: Manifest, sig: Signature)
    requires Lawful(c) && c.pretty(ManifestJson(m.(sig := sig))).Some?
    ensures CanonicalPayload(c, c.pretty(ManifestJson(m.(sig := sig))).value) == SigningPayload(c, m)
  {
    assert WithoutSig(ManifestJson(m.(sig := sig))) == WithoutSig(ManifestJson(m));
  }

  lemma SameSections(j: Json, j': Json)
    requires j.Obj? && j'.Obj? && forall k: Key :: !k.Unmodelled? ==> Field(j', k) == Field(j, k)
    ensures ManifestOf(j') == ManifestOf(j)
  {
    assert GetStr(j', SchemaVersion) == GetStr(j, SchemaVersion);
    assert Section(j', Tool) == Section(j, Tool) && Section(j', Capture) == Section(j, Capture);
    assert Section(j', Target) == Section(j, Target) && Section(j', Isolation) == Section(j, Isolation);
    assert Section(j', Coverage) == Section(j, Coverage) && Section(j', Counts) == Section(j, Counts);
    assert Section(j', Integrity) == Section(j, Integrity) && Section(j', Sig) == Section(j, Sig);
  }

  ghost predicate Parts(j: Json, m: Manifest) {
    && GetStr(j, SchemaVersion) == Ok(m.schemaVersion)
    && ToolOf(Section(j, Tool)) == Ok((m.toolName, m.toolVersion))
    && CaptureOf(Section(j, Capture)) == Ok(m.capture) && TargetOf(Section(j, Target)) == Ok(m.target)
    && IsolationOf(Section(j, Isolation)) == Ok(m.isolation) && CoverageOf(Section(j, Coverage)) == Ok(m.coverage)
    && CountsOf(Section(j, Counts)) == Ok(m.counts) && IntegrityOf(Section(j, Integrity)) == Ok(m.integrity)
  }

  lemma PartsOf(j: Json, m: Manifest)
    requires ManifestOf(j) == Ok(m)
    ensures Parts(j, m)
  {
  }

  ghost predicate AgreeBesidesSig(j: Json, k: Json) {
    && Section(j, Tool) == Section(k, Tool) && Section(j, Capture) == Section(k, Capture)
    && Section(j, Target) == Section(k, Target) && Section(j, Isolation) == Section(k, Isolation)
    && Section(j, Coverage) == Section(k, Coverage) && Section(j, Counts) == Section(k, Counts)
    && Section(j, Integrity) == Section(k, Integrity)
  }

  lemma FieldsAgree(j: Json, k: Json)
    requires forall key :: key != Sig ==> Field(j, key) == Field(k, key)
    ensures AgreeBesidesSig(j, k)
  {
  }

  lemma PartsDetermine(j: Json, k: Json, read: Manifest, m: Manifest)
    requires Parts(j, read) && Parts(k, m) && AgreeBesidesSig(j, k) && GetStr(j, SchemaVersion) == GetStr(k, SchemaVersion)
    ensures read == m.(sig := read.sig)
  {
  }

  /** A key this build does not model leaves the parsed manifest as it was, but changes what the
      signature covers. */
  lemma UnmodelledKeyIsSigned(c: Codec, before: map<Key, Json>, key: string, value: Json, text: string, text': string)
    requires Lawful(c) && Unmodelled(key) !in before
    requires c.parse(text) == Some(Obj(before)) && c.parse(text') == Some(Obj(before[Unmodelled(key) := value]))
    ensures ManifestFromText(c, text') == ManifestFromText(c, text)
    ensures CanonicalPayload(c, text).Some? && CanonicalPayload(c, text').Some? ==>
              CanonicalPayload(c, text') != CanonicalPayload(c, text)
  {
    var j, j' := Obj(before), Obj(before[Unmodelled(key) := value]);
    SameSections(j, j');
    assert WithoutSig(j') != WithoutSig(j) by {
      assert Unmodelled(key) in WithoutSig(j').fields;
    }
  }

  // ------------------------------------------------------------------------------- what is accepted

  /** The decimal digits of a number. */
  function Decimal(n: nat): string {
    if n < 10 then [('0' as int + n) as char] else Decimal(n / 10) + [('0' as int + n % 10) as char]
  }

  lemma DigitValue(n: nat)
    requires n < 10
    ensures var c := ('0' as int + n) as char; '0' <= c <= '9' && (c - '0') as nat == n
  {
  }

  lemma {:induction false} DecimalIsRead(n: nat, rest: string, any: bool)
    ensures LeadingNumber(Decimal(n) + rest, 0, any) == LeadingNumber(rest, n, true)
    decreases n
  {
    var last := [('0' as int + n % 10) as char];
    DigitValue(n % 10);
    if n < 10 {
      assert (Decimal(n) + rest)[1..] == rest;
    } else {
      assert Decimal(n) + rest == Decimal(n / 10) + (last + rest);
      DecimalIsRead(n / 10, last + rest, any);
      assert (last + rest)[1..] == rest;
    }
  }

  lemma {:induction false} DecimalStarts(n: nat)
    ensures Decimal(n) != "" && '0' <= Decimal(n)[0] <= '9'
  {
    if n >= 10 {
      DecimalStarts(n / 10);
    }
    DigitValue(n % 10);
  }

  /** A version that starts with the number n is accepted if and only if n is zero: every newer major
      is refused, and every minor of this one is accepted. */
  lemma NewerMajorRefused(n: nat, rest: string)
    requires rest == "" || !('0' <= rest[0] <= '9')
    ensures ParseMajor(Decimal(n) + rest) == n
    ensures AcceptedVersion(Decimal(n) + rest) <==> n == 0
  {
    var v := Decimal(n) + rest;
    DecimalStarts(n);
    assert v[0] == Decimal(n)[0];
    DecimalIsRead(n, rest, false);
    assert LeadingNumber(rest, n, true) == Some(n);
  }

  /** A version without a leading number is refused, and so is a manifest without an accepted one. */
  lemma NoVersionRefused(j: Json, v: string)
    ensures v == "" || !(IsSpace(v[0]) || v[0] in {'-', '+'} || '0' <= v[0] <= '9') ==> !AcceptedVersion(v)
    ensures !j.Obj? || SchemaVersion !in j.fields ==> ManifestOf(j) == BundleError
    ensures j.Obj? && SchemaVersion in j.fields && !j.fields[SchemaVersion].Str? ==> ManifestOf(j) == BundleError
    ensures j.Obj? && SchemaVersion in j.fields && j.fields[SchemaVersion] == Str(v) && !AcceptedVersion(v) ==>
              ManifestOf(j) == BundleError
  {
  }

  /** Sections that are absent are read as empty. */
  lemma AbsentSectionsAreEmpty(v: string)
    requires AcceptedVersion(v)
    ensures ManifestOf(Obj(map[SchemaVersion := Str(v)]))
            == Ok(Manifest(v, "", "", CaptureInfo("", "", 0, HostInfo("", "", "", ""), 0, 0), TargetInfo("", "", 0, [], 0),
                           IsolationInfo([], "", 0), CoverageInfo([], false, [], false), CountsInfo(0, 0, 0, 0),
                           IntegrityInfo("", "", ""), Signature("", "", "", "")))
  {
    var j := Obj(map[SchemaVersion := Str(v)]);
    assert Section(j, Tool) == None && Section(j, Capture) == None && Section(j, Target) == None;
    assert Section(j, Isolation) == None && Section(j, Coverage) == None && Section(j, Counts) == None;
    assert Section(j, Integrity) == None && Section(j, Sig) == None;
    ManifestOfSections(j, Manifest(v, "", "", CaptureInfo("", "", 0, NO_HOST, 0, 0), TargetInfo("", "", 0, [], 0),
                                   IsolationInfo([], "", 0), CoverageInfo([], false, [], false), CountsInfo(0, 0, 0, 0),
                                   IntegrityInfo("", "", ""), NO_SIG));
  }

  /** A field that is absent has its type's empty value, but nothing can be asked of what is no object. */
  lemma AbsentFieldIsEmpty(j: Json, key: Key)
    requires !j.Obj? || key !in j.fields
    ensures j.Obj? ==> GetStr(j, key) == Ok("") && GetU64(j, key) == Ok(0) && GetU32(j, key) == Ok(0)
                       && GetInt(j, key) == Ok(0) && GetBool(j, key) == Ok(false)
    ensures !j.Obj? ==> GetStr(j, key).BundleError? && GetU64(j, key).BundleError? && GetU32(j, key).BundleError?
                        && GetInt(j, key).BundleError? && GetBool(j, key).BundleError?
    ensures GetStrings(j, key) == Ok([])
  {
  }

  /** A list is read iff all its members are strings; what is no list is read as empty. */
  lemma {:induction false} StringsIff(items: seq<Json>)
    ensures Strings(items).Ok? <==> forall i :: 0 <= i < |items| ==> items[i].Str?
    ensures Strings(items).Ok? ==> |Strings(items).value| == |items|
                                   && forall i :: 0 <= i < |items| ==> items[i] == Str(Strings(items).value[i])
  {
    if items != [] {
      StringsIff(items[1..]);
      assert forall i :: 0 < i < |items| ==> items[i] == items[1..][i - 1];
    }
  }

  lemma ListsAreTyped(j: Json, key: Key)
    requires j.Obj? && key in j.fields
    ensures var x := j.fields[key];
            && (!x.Arr? ==> GetStrings(j, key) == Ok([]))
            && (x.Arr? ==> (GetStrings(j, key).Ok? <==> forall i :: 0 <= i < |x.items| ==> x.items[i].Str?))
            && (x.Arr? && GetStrings(j, key).Ok? ==> x == StrArr(GetStrings(j, key).value))
  {
    if j.fields[key].Arr? {
      StringsIff(j.fields[key].items);
    }
  }

  lemma Wraps(n: int, width: int)
    requires width == 0x1_0000_0000 || width == 0x1_0000_0000_0000_0000
    ensures (n % width - n) % width == 0
  {
    assert n % width - n == -(n / width) * width;
  }

  /** A field of the wrong type is an error; a number is cut to its width, which changes it by a
      multiple of that only. */
  lemma FieldsAreTyped(j: Json, key: Key)
    requires j.Obj? && key in j.fields
    ensures var x := j.fields[key];
            && (GetStr(j, key).Ok? <==> x.Str?) && (x.Str? ==> GetStr(j, key) == Ok(x.text))
            && (GetBool(j, key).Ok? <==> x.Bool?) && (x.Bool? ==> GetBool(j, key) == Ok(x.flag))
            && (GetU64(j, key).Ok? <==> x.Num?)
            && (GetU32(j, key).Ok? <==> x.Num? || x.Bool?)
            && (GetInt(j, key).Ok? <==> x.Num? || x.Bool?)
    ensures var x := j.fields[key];
            x.Num? ==> && (GetU64(j, key).value - x.num) % 0x1_0000_0000_0000_0000 == 0
                       && (GetU32(j, key).value - x.num) % 0x1_0000_0000 == 0
                       && (GetInt(j, key).value - x.num) % 0x1_0000_0000 == 0
  {
    var x := j.fields[key];
    if x.Num? {
      Wraps(x.num, 0x1_0000_0000_0000_0000);
      Wraps(x.num, 0x1_0000_0000);
      Wraps(x.num + 0x8000_0000, 0x1_0000_0000);
    }
  }

  /** The member at a path of keys. */
  function At(j: Json, path: seq<Key>): Option<Json> {
    if path == [] then Some(j)
    else
      match Field(j, path[0])
      case None => None
      case Some(x) => At(x, path[1..])
  }

  lemma At2(j: Json, a: Key, b: Key)
    ensures At(j, [a, b]) == if Field(j, a).Some? then Field(Field(j, a).value, b) else None
  {
    assert [a, b][1..] == [b] && [b][1..] == [];
    if Field(j, a).Some? {
      var x := Field(j, a).value;
      assert At(x, [b]) == Field(x, b);
    }
  }

  lemma At3(j: Json, a: Key, b: Key, c: Key)
    ensures At(j, [a, b, c]) == if At(j, [a, b]).Some? then Field(At(j, [a, b]).value, c) else None
  {
    At2(j, a, b);
    assert [a, b, c][1..] == [b, c];
    if Field(j, a).Some? {
      At2(Field(j, a).value, b, c);
    }
  }

  /** The format: where verification finds the hashes and the signature. */
  lemma WhereFieldsStand(m: Manifest)
    ensures At(ManifestJson(m), [Integrity, EventsSha256]) == Some(Str(m.integrity.eventsSha256))
    ensures At(ManifestJson(m), [Integrity, ProcessTreeSha256]) == Some(Str(m.integrity.processTreeSha256))
    ensures At(ManifestJson(m), [Integrity, ArtifactsIndexSha256]) == Some(Str(m.integrity.artifactsIndexSha256))
    ensures At(ManifestJson(m), [Sig, Algorithm]) == Some(Str(m.sig.algorithm))
    ensures At(ManifestJson(m), [Sig, Scope]) == Some(Str(m.sig.scope))
    ensures At(ManifestJson(m), [Sig, PubkeyB64]) == Some(Str(m.sig.pubkeyB64))
    ensures At(ManifestJson(m), [Sig, SigB64]) == Some(Str(m.sig.sigB64))
  {
    SectionsOf(m);
    At2(ManifestJson(m), Integrity, EventsSha256);
    At2(ManifestJson(m), Integrity, ProcessTreeSha256);
    At2(ManifestJson(m), Integrity, ArtifactsIndexSha256);
    At2(ManifestJson(m), Sig, Algorithm);
    At2(ManifestJson(m), Sig, Scope);
    At2(ManifestJson(m), Sig, PubkeyB64);
    At2(ManifestJson(m), Sig, SigB64);
  }

  /** Where the counts and the names of the tool stand. */
  lemma WhereCountsStand(m: Manifest)
    ensures At(ManifestJson(m), [Counts, EventsTotal]) == Some(Num(m.counts.eventsTotal))
    ensures At(ManifestJson(m), [Counts, EventsDropped]) == Some(Num(m.counts.eventsDropped))
    ensures At(ManifestJson(m), [Counts, ProcessesSeen]) == Some(Num(m.counts.processesSeen))
    ensures At(ManifestJson(m), [Counts, ArtifactsCount]) == Some(Num(m.counts.artifactsCount))
    ensures At(ManifestJson(m), [Tool, Name]) == Some(Str(m.toolName))
    ensures At(ManifestJson(m), [Tool, Version]) == Some(Str(m.toolVersion))
  {
    SectionsOf(m);
    At2(ManifestJson(m), Counts, EventsTotal);
    At2(ManifestJson(m), Counts, EventsDropped);
    At2(ManifestJson(m), Counts, ProcessesSeen);
    At2(ManifestJson(m), Counts, ArtifactsCount);
    At2(ManifestJson(m), Tool, Name);
    At2(ManifestJson(m), Tool, Version);
  }

  /** Where the times and the host of the capture stand. */
  lemma WhereCaptureStands(m: Manifest)
    ensures At(ManifestJson(m), [Capture, StartedAt]) == Some(Str(m.capture.startedAt))
    ensures At(ManifestJson(m), [Capture, EndedAt]) == Some(Str(m.capture.endedAt))
    ensures At(ManifestJson(m), [Capture, DurationSeconds]) == Some(Num(m.capture.durationSeconds))
    ensures At(ManifestJson(m), [Capture, ClockRealtimeNs]) == Some(Num(m.capture.clockRealtimeNs))
    ensures At(ManifestJson(m), [Capture, ClockMonotonicNs]) == Some(Num(m.capture.clockMonotonicNs))
    ensures At(ManifestJson(m), [Capture, Host]) == Some(HostJson(m.capture.host))
  {
    SectionsOf(m);
    At2(ManifestJson(m), Capture, StartedAt);
    At2(ManifestJson(m), Capture, EndedAt);
    At2(ManifestJson(m), Capture, DurationSeconds);
    At2(ManifestJson(m), Capture, ClockRealtimeNs);
    At2(ManifestJson(m), Capture, ClockMonotonicNs);
    At2(ManifestJson(m), Capture, Host);
  }

  lemma WhereHostStands(m: Manifest)
    ensures At(ManifestJson(m), [Capture, Host, Kernel]) == Some(Str(m.capture.host.kernel))
    ensures At(ManifestJson(m), [Capture, Host, Arch]) == Some(Str(m.capture.host.arch))
    ensures At(ManifestJson(m), [Capture, Host, Distro]) == Some(Str(m.capture.host.distro))
    ensures At(ManifestJson(m), [Capture, Host, Hostname]) == Some(Str(m.capture.host.hostname))
  {
    SectionsOf(m);
    At2(ManifestJson(m), Capture, Host);
    At3(ManifestJson(m), Capture, Host, Kernel);
    At3(ManifestJson(m), Capture, Host, Arch);
    At3(ManifestJson(m), Capture, Host, Distro);
    At3(ManifestJson(m), Capture, Host, Hostname);
  }

  /** Where the target, and then the isolation and the coverage, stand. */
  lemma WhereTargetStands(m: Manifest)
    ensures At(ManifestJson(m), [Target, Path]) == Some(Str(m.target.path))
    ensures At(ManifestJson(m), [Target, Sha256]) == Some(Str(m.target.sha256))
    ensures At(ManifestJson(m), [Target, Size]) == Some(Num(m.target.size))
    ensures At(ManifestJson(m), [Target, Args]) == Some(StrArr(m.target.args))
    ensures At(ManifestJson(m), [Target, EnvCount]) == Some(Num(m.target.envCount))
  {
    SectionsOf(m);
    At2(ManifestJson(m), Target, Path);
    At2(ManifestJson(m), Target, Sha256);
    At2(ManifestJson(m), Target, Size);
    At2(ManifestJson(m), Target, Args);
    At2(ManifestJson(m), Target, EnvCount);
  }

  lemma WhereCoverageStands(m: Manifest)
    ensures At(ManifestJson(m), [Isolation, Namespaces]) == Some(StrArr(m.isolation.namespaces))
    ensures At(ManifestJson(m), [Isolation, CgroupPath]) == Some(Str(m.isolation.cgroupPath))
    ensures At(ManifestJson(m), [Isolation, CgroupId]) == Some(Num(m.isolation.cgroupId))
    ensures At(ManifestJson(m), [Coverage, Families]) == Some(StrArr(m.coverage.families))
    ensures At(ManifestJson(m), [Coverage, SyscallsCaptured]) == Some(Bool(m.coverage.syscallsCaptured))
    ensures At(ManifestJson(m), [Coverage, NetworkLayers]) == Some(StrArr(m.coverage.networkLayers))
    ensures At(ManifestJson(m), [Coverage, ArtifactsCaptured]) == Some(Bool(m.coverage.artifactsCaptured))
  {
    SectionsOf(m);
    At2(ManifestJson(m), Isolation, Namespaces);
    At2(ManifestJson(m), Isolation, CgroupPath);
    At2(ManifestJson(m), Isolation, CgroupId);
    At2(ManifestJson(m), Coverage, Families);
    At2(ManifestJson(m), Coverage, SyscallsCaptured);
    At2(ManifestJson(m), Coverage, NetworkLayers);
    At2(ManifestJson(m), Coverage, ArtifactsCaptured);
  }

  // ---------------------------------------------------------------------- what the signature covers

  lemma SameBesidesSig(j: Json, k: Json)
    requires j.Obj? && k.Obj? && WithoutSig(j) == WithoutSig(k)
    ensures GetStr(j, SchemaVersion) == GetStr(k, SchemaVersion)
    ensures forall key :: key != Sig ==> Field(j, key) == Field(k, key)
  {
    forall key | key != Sig ensures Field(j, key) == Field(k, key) {
      assert Field(j, key) == Field(WithoutSig(j), key);
      assert Field(k, key) == Field(WithoutSig(k), key);
    }
  }

  lemma ReadsAsWritten(j: Json, m: Manifest, read: Manifest)
    requires AcceptedVersion(m.schemaVersion) && ManifestOf(j) == Ok(read)
    requires GetStr(j, SchemaVersion) == GetStr(ManifestJson(m), SchemaVersion)
    requires forall key :: key != Sig ==> Field(j, key) == Field(ManifestJson(m), key)
    ensures read == m.(sig := read.sig)
  {
    ManifestBack(m);
    PartsOf(j, read);
    PartsOf(ManifestJson(m), m);
    FieldsAgree(j, ManifestJson(m));
    PartsDetermine(j, ManifestJson(m), read, m);
  }

  /** The signed payload determines every field of the manifest except the signature block. */
  lemma PayloadDetermines(c: Codec, m: Manifest, text: string, read: Manifest)
    requires Lawful(c) && AcceptedVersion(m.schemaVersion) && SigningPayload(c, m).Some?
    requires ManifestFromText(c, text) == Ok(read) && CanonicalPayload(c, text) == SigningPayload(c, m)
    ensures read == m.(sig := read.sig)
  {
    var j := c.parse(text).value;
    var k := ManifestJson(m);
    assert c.parse(c.dump(WithoutSig(j)).value) == Some(WithoutSig(j));
    assert c.parse(c.dump(WithoutSig(k)).value) == Some(WithoutSig(k));
    SameBesidesSig(j, k);
    ReadsAsWritten(j, m, read);
  }
}
