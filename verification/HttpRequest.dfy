/** The plaintext HTTP/1.x detector, and what it recovers of a status line and a request line.  What
    it makes of the Host header is the subject of HttpHost.

    A capture is the first bytes of a message; characters stand for bytes. */
module HttpRequest {
  import opened Basics
  import opened NetworkEvent

  datatype HttpEvent =
    | Request(verb: string, path: string, version: string, host: string)
    | Response(version: string, status: nat, reason: string)

  const METHODS: seq<string> := ["GET", "POST", "PUT", "DELETE", "HEAD", "PATCH", "OPTIONS", "CONNECT", "TRACE"]

  /** The spellings of the header name the decoder tries. */
  predicate HostName(name: string) {
    name == "Host" || name == "host" || name == "HOST"
  }

  function HostMarker(name: string): string { "\r\n" + name + ": " }

  predicate MatchAt(s: string, pat: string, i: nat) {
    i + |pat| <= |s| && s[i..i + |pat|] == pat
  }

  /** The first place at or after `from` where `pat` occurs, or -1. */
  function Find(s: string, pat: string, from: nat): (r: int)
    ensures r == -1 || from <= r <= |s| - |pat|
    decreases if from <= |s| then |s| - from + 1 else 0
  {
    if from > |s| then -1
    else if MatchAt(s, pat, from) then from
    else Find(s, pat, from + 1)
  }

  lemma {:induction false} FindIsFirst(s: string, pat: string, from: nat)
    ensures var r := Find(s, pat, from);
            && (r == -1 ==> forall i: nat :: from <= i ==> !MatchAt(s, pat, i))
            && (r >= 0 ==> MatchAt(s, pat, r) && forall i: nat :: from <= i < r ==> !MatchAt(s, pat, i))
    decreases if from <= |s| then |s| - from + 1 else 0
  {
    if from <= |s| && !MatchAt(s, pat, from) {
      FindIsFirst(s, pat, from + 1);
    }
  }

  /** The only place that meets FindIsFirst. */
  lemma FindIs(s: string, pat: string, from: nat, at: nat)
    requires from <= at && MatchAt(s, pat, at)
    requires forall i: nat :: from <= i < at ==> !MatchAt(s, pat, i)
    ensures Find(s, pat, from) == at
  {
    FindIsFirst(s, pat, from);
  }

  lemma FindNothing(s: string, pat: string, from: nat)
    requires forall i: nat :: from <= i ==> !MatchAt(s, pat, i)
    ensures Find(s, pat, from) == -1
  {
    FindIsFirst(s, pat, from);
  }

  predicate LooksLikeResponse(p: string) {
    |p| >= 12 && "HTTP/1." <= p
  }

  /** The first of `verbs` that starts the payload and is followed by a space. */
  function LeadingMethod(p: string, verbs: seq<string>): Option<string> {
    if verbs == [] then None
    else if verbs[0] + " " <= p then Some(verbs[0])
    else LeadingMethod(p, verbs[1..])
  }

  function Digit(c: char): Option<nat> {
    if '0' <= c <= '9' then Some((c - '0') as nat) else None
  }

  /** Three digits that make a status code. */
  function StatusOf(status: string): Option<nat> {
    if |status| != 3 then None
    else
      match (Digit(status[0]), Digit(status[1]), Digit(status[2]))
      case (Some(a), Some(b), Some(c)) =>
        var code := a * 100 + b * 10 + c;
        if 100 <= code <= 599 then Some(code) else None
      case _ => None
  }

  /** The response whose status code lies between the spaces at `a` and `b`. */
  function ResponseBetween(p: string, a: nat, b: nat): Option<HttpEvent>
    requires a < b < |p|
  {
    match StatusOf(p[a + 1..b])
    case None => None
    case Some(code) =>
      var eol := Find(p, "\r", b + 1);
      Some(Response(p[..a], code, p[b + 1..if eol < 0 then |p| else eol]))
  }

  function DecodeResponse(p: string): Option<HttpEvent> {
    var sp1 := Find(p, " ", 0);
    if sp1 < 0 || sp1 + 4 > |p| then None
    else
      var sp2 := Find(p, " ", sp1 + 1);
      if sp2 < 0 then None else ResponseBetween(p, sp1, sp2)
  }

  /** Where the first-choice spelling of the Host header that occurs at all first occurs, or -1. */
  function HostPos(p: string): (r: int)
    ensures r == -1 || 0 <= r <= |p| - 8
  {
    var a, b, c := Find(p, HostMarker("Host"), 0), Find(p, HostMarker("host"), 0), Find(p, HostMarker("HOST"), 0);
    if a >= 0 then a else if b >= 0 then b else c
  }

  /** The header value of the marker at `hpos`, up to the end of its line or of the capture. */
  function HostAt(p: string, hpos: int): string {
    if 0 <= hpos && hpos + 8 <= |p| then
      var end := Find(p, "\r", hpos + 8);
      p[hpos + 8..if end < 0 then |p| else end]
    else ""
  }

  function HostValue(p: string): string {
    HostAt(p, HostPos(p))
  }

  /** The request whose path starts at `at`. */
  function DecodeTarget(p: string, verb: string, at: nat): Option<HttpEvent>
    requires at < |p|
  {
    var sp2 := Find(p, " ", at);
    if sp2 < 0 || sp2 == at then None
    else
      var eol := Find(p, "\r", sp2 + 1);
      var version := p[sp2 + 1..if eol < 0 then |p| else eol];
      if "HTTP/" <= version then Some(Request(verb, p[at..sp2], version, HostValue(p))) else None
  }

  function DecodeRequest(p: string): Option<HttpEvent> {
    match LeadingMethod(p, METHODS)
    case None => None
    case Some(verb) =>
      if |verb| + 1 >= |p| then None else DecodeTarget(p, verb, |verb| + 1)
  }

  function Decode(p: string): Option<HttpEvent> {
    if LooksLikeResponse(p) then DecodeResponse(p) else DecodeRequest(p)
  }

  predicate LooksLikeHttpFlow(e: NetMeta) {
    && e.payloadLen >= 12
    && e.kind in {WRITE, SENDTO, SENDMSG, READ, RECVFROM, RECVMSG}
    && e.remotePort != 53 && e.localPort != 53
  }

  method RecoverHost(p: string) returns (host: string)
    ensures host == HostValue(p)
  {
    host := "";
    var hpos := Find(p, HostMarker("Host"), 0);
    if hpos == -1 {
      hpos := Find(p, HostMarker("host"), 0);
    }
    if hpos == -1 {
      hpos := Find(p, HostMarker("HOST"), 0);
    }
    assert hpos == HostPos(p);
    if hpos != -1 {
      var hostEnd := Find(p, "\r", hpos + 8);
      if hostEnd == -1 {
        hostEnd := |p|;
      }
      host := p[hpos + 8..hostEnd];
    }
  }

  /** The request branch: method, path, version, then the Host header. */
  method RecoverRequest(p: string) returns (out: Option<HttpEvent>)
    ensures out == DecodeRequest(p)
  {
    var verb := LeadingMethod(p, METHODS);
    if verb.None? || |verb.value| + 1 >= |p| {
      return None;
    }
    var at := |verb.value| + 1;
    assert DecodeRequest(p) == DecodeTarget(p, verb.value, at);
    var sp2 := Find(p, " ", at);
    if sp2 == -1 {
      return None;
    }
    var path := p[at..sp2];
    if path == "" {
      return None;
    }
    var eol := Find(p, "\r", sp2 + 1);
    if eol == -1 {
      eol := |p|;
    }
    var version := p[sp2 + 1..eol];
    if !("HTTP/" <= version) {
      return None;
    }
    var host := RecoverHost(p);
    return Some(Request(verb.value, path, version, host));
  }

  /** The decoder as it runs over the captured payload. */
  method TryDecodeHttp(e: NetMeta, payload: string) returns (out: Option<HttpEvent>)
    requires |payload| == PAYLOAD_LEN
    ensures out == if LooksLikeHttpFlow(e)
                   then Decode(payload[..if e.payloadLen < 128 then e.payloadLen else 128])
                   else None
  {
    if e.payloadLen < 12 {
      return None;
    }
    var isSend := e.kind == WRITE || e.kind == SENDTO || e.kind == SENDMSG;
    var isRecv := e.kind == READ || e.kind == RECVFROM || e.kind == RECVMSG;
    if !isSend && !isRecv {
      return None;
    }
    if e.remotePort == 53 || e.localPort == 53 {
      return None;
    }
    var p := payload[..if e.payloadLen < PAYLOAD_LEN then e.payloadLen else PAYLOAD_LEN];
    if LooksLikeResponse(p) {
      return DecodeResponse(p);
    }
    out := RecoverRequest(p);
  }

  // --------------------------------------------------------------------------- response recovery

  predicate Free(s: string, c: char) {
    forall i :: 0 <= i < |s| ==> s[i] != c
  }

  predicate ThreeDigits(status: string) {
    |status| == 3 && forall i :: 0 <= i < 3 ==> '0' <= status[i] <= '9'
  }

  function StatusCode(status: string): nat
    requires ThreeDigits(status)
  {
    (status[0] - '0') as nat * 100 + (status[1] - '0') as nat * 10 + (status[2] - '0') as nat
  }

  /** The decoder's result from the landmarks it finds. */
  lemma ResponseFrom(p: string, v: nat, n: nat, status: string)
    requires LooksLikeResponse(p) && v + 5 <= n <= |p| && ThreeDigits(status) && p[v + 1..v + 4] == status
    requires Find(p, " ", 0) == v && Find(p, " ", v + 1) == v + 4
    requires var eol := Find(p, "\r", v + 5); n == if eol < 0 then |p| else eol
    ensures Decode(p)
            == if 100 <= StatusCode(status) <= 599 then Some(Response(p[..v], StatusCode(status), p[v + 5..n])) else None
  {
  }

  lemma StatusParts(p: string, version: string, status: string, reason: string)
    requires |status| == 3
    requires var n := |version| + 5 + |reason|; n <= |p| && p[..n] == version + " " + status + " " + reason
    ensures var v := |version|;
            && p[..v] == version && p[v] == ' ' && p[v + 1..v + 4] == status && p[v + 4] == ' '
            && p[v + 5..v + 5 + |reason|] == reason
  {
    var v, n := |version|, |version| + 5 + |reason|;
    var line := version + " " + status + " " + reason;
    assert p[v] == line[v] && p[v + 4] == line[v + 4];
    assert p[..v] == line[..v];
    assert p[v + 1..v + 4] == line[v + 1..v + 4] == status;
    assert p[v + 5..n] == line[v + 5..n] == reason;
  }

  lemma CharMatch(s: string, c: char, i: nat)
    ensures MatchAt(s, [c], i) <==> i < |s| && s[i] == c
  {
    if i < |s| {
      assert s[i..i + 1] == [s[i]];
    }
  }

  /** The first `c` of `a + rest` from `from` on, when `a` has none there. */
  lemma FindChar(s: string, c: char, from: nat, to: nat)
    requires from <= to <= |s|
    requires forall i :: from <= i < to ==> s[i] != c
    ensures to < |s| && s[to] == c ==> Find(s, [c], from) == to
    ensures to == |s| ==> Find(s, [c], from) == -1
  {
    forall i: nat ensures MatchAt(s, [c], i) <==> i < |s| && s[i] == c {
      CharMatch(s, c, i);
    }
    if to < |s| && s[to] == c {
      FindIs(s, [c], from, to);
    } else if to == |s| {
      FindNothing(s, [c], from);
    }
  }

  /** The first `c` from `a` on lies at `b`, when `text` between them is free of it. */
  lemma FindAfter(p: string, c: char, a: nat, b: nat, text: string)
    requires a <= b <= |p| && p[a..b] == text && Free(text, c)
    ensures b < |p| && p[b] == c ==> Find(p, [c], a) == b
    ensures b == |p| ==> Find(p, [c], a) == -1
  {
    assert forall i :: a <= i < b ==> p[i] == text[i - a];
    FindChar(p, c, a, b);
  }

  /** A captured status line (section 3.1.2 of RFC 7230) gives an event exactly when its code lies
      between 100 and 599; version and code come back exactly, and as reason what was captured of it. */
  lemma StatusLineRecovered(p: string, version: string, status: string, reason: string)
    requires "HTTP/1." <= version && Free(version, ' ') && ThreeDigits(status) && Free(reason, '\r')
    requires var n := |version| + 5 + |reason|;
             && 12 <= n <= |p| && p[..n] == version + " " + status + " " + reason
             && (n == |p| || p[n] == '\r')
    ensures Decode(p) == if 100 <= StatusCode(status) <= 599 then Some(Response(version, StatusCode(status), reason)) else None
  {
    var v, n := |version|, |version| + 5 + |reason|;
    StatusParts(p, version, status, reason);
    assert version[..7] == p[..7];
    assert p[0..v] == version && p[v + 5..n] == reason;
    FindAfter(p, ' ', 0, v, version);
    assert Free(status, ' ');
    FindAfter(p, ' ', v + 1, v + 4, status);
    FindAfter(p, '\r', v + 5, n, reason);
    ResponseFrom(p, v, n, status);
  }

  // --------------------------------------------------------------------------- request recovery

  function RequestLine(verb: string, path: string, version: string): string {
    verb + " " + path + " " + version
  }

  lemma MatchChar(s: string, pat: string, i: nat, j: nat)
    requires j < |pat|
    ensures MatchAt(s, pat, i) ==> i + j < |s| && s[i + j] == pat[j]
  {
    if MatchAt(s, pat, i) {
      assert s[i..i + |pat|][j] == pat[j];
    }
  }

  predicate Distinguished(a: string, b: string) {
    exists i :: 0 <= i < |a| && i < |b| && a[i] != b[i]
  }

  lemma VerbsDiffer(i: nat, k: nat)
    requires i < k < |METHODS|
    ensures Distinguished(METHODS[i] + " ", METHODS[k] + " ")
  {
    var a, b := METHODS[i] + " ", METHODS[k] + " ";
    assert a[0] != b[0] || a[1] != b[1];
  }

  lemma {:induction false} VerbAt(p: string, k: nat, j: nat)
    requires j <= k < |METHODS| && METHODS[k] + " " <= p
    ensures LeadingMethod(p, METHODS[j..]) == Some(METHODS[k])
    decreases k - j
  {
    if j < k {
      VerbsDiffer(j, k);
      var a, b := METHODS[j] + " ", METHODS[k] + " ";
      var i :| 0 <= i < |a| && i < |b| && a[i] != b[i];
      assert p[i] == b[i];
      VerbAt(p, k, j + 1);
      assert METHODS[j..][1..] == METHODS[j + 1..];
    }
  }

  lemma VerbIsFound(p: string, verb: string)
    requires verb in METHODS && verb + " " <= p
    ensures LeadingMethod(p, METHODS) == Some(verb) && !LooksLikeResponse(p)
    ensures Free(verb, '\r') && 3 <= |verb| <= 7
  {
    var k :| 0 <= k < |METHODS| && METHODS[k] == verb;
    VerbAt(p, k, 0);
    var a := METHODS[k] + " ";
    assert a[0] != "HTTP/1."[0] || a[1] != "HTTP/1."[1];
    assert p[0] == a[0] && p[1] == a[1];
  }

  /** Where the parts of a captured request line lie. */
  lemma LineParts(p: string, verb: string, path: string, version: string)
    requires RequestLine(verb, path, version) <= p
    ensures var a, b, n := |verb| + 1, |verb| + 1 + |path|, |RequestLine(verb, path, version)|;
            && verb + " " <= p && a <= b < b + 1 + |version| == n <= |p|
            && p[a..b] == path && p[b] == ' ' && p[b + 1..n] == version
  {
    var a, b, n := |verb| + 1, |verb| + 1 + |path|, |RequestLine(verb, path, version)|;
    var line := RequestLine(verb, path, version);
    assert p[..n] == line;
    assert p[..a] == line[..a] == verb + " ";
    assert p[a..b] == line[a..b] == path;
    assert p[b] == line[b];
    assert p[b + 1..n] == line[b + 1..n] == version;
  }

  /** The decoder's result from the landmarks it finds. */
  lemma TargetFrom(p: string, verb: string, a: nat, b: nat, n: nat)
    requires a < b <= n - 1 < |p| && Find(p, " ", a) == b
    requires var eol := Find(p, "\r", b + 1); n == if eol < 0 then |p| else eol
    requires "HTTP/" <= p[b + 1..n]
    ensures DecodeTarget(p, verb, a) == Some(Request(verb, p[a..b], p[b + 1..n], HostValue(p)))
  {
  }

  lemma TargetOf(p: string, verb: string, a: nat, b: nat, n: nat, path: string, version: string)
    requires a <= b < b + 1 <= n <= |p| && p[a..b] == path && p[b] == ' ' && p[b + 1..n] == version
    requires path != "" && Free(path, ' ') && "HTTP/" <= version && Free(version, '\r')
    requires n == |p| || p[n] == '\r'
    ensures DecodeTarget(p, verb, a) == Some(Request(verb, path, version, HostValue(p)))
  {
    FindAfter(p, ' ', a, b, path);
    FindAfter(p, '\r', b + 1, n, version);
    TargetFrom(p, verb, a, b, n);
  }

  lemma DecodeByTarget(p: string, verb: string)
    requires LeadingMethod(p, METHODS) == Some(verb) && !LooksLikeResponse(p) && |verb| + 1 < |p|
    ensures Decode(p) == DecodeTarget(p, verb, |verb| + 1)
  {
  }

  /** The request line is recovered from any capture that contains it. */
  lemma RequestLineRecovered(p: string, verb: string, path: string, version: string)
    requires verb in METHODS && path != "" && Free(path, ' ') && "HTTP/" <= version && Free(version, '\r')
    requires RequestLine(verb, path, version) <= p
    requires var n := |RequestLine(verb, path, version)|; n == |p| || p[n] == '\r'
    ensures Decode(p) == Some(Request(verb, path, version, HostValue(p)))
  {
    var a, b, n := |verb| + 1, |verb| + 1 + |path|, |RequestLine(verb, path, version)|;
    LineParts(p, verb, path, version);
    VerbIsFound(p, verb);
    DecodeByTarget(p, verb);
    TargetOf(p, verb, a, b, n, path, version);
  }

  lemma Pieces(s: string, at: nat, a: string, b: string)
    requires at + |a + b| <= |s| && s[at..at + |a + b|] == a + b
    ensures s[at..at + |a|] == a && s[at + |a|..at + |a| + |b|] == b
  {
    var whole := s[at..at + |a + b|];
    assert whole[..|a|] == a && whole[|a|..] == b;
  }

  // ---------------------------------------------------------------- exactly which texts are decoded

  /** The methods the decoder knows. */
  lemma MethodIff(verb: string)
    ensures verb in METHODS
            <==> verb == "GET" || verb == "POST" || verb == "PUT" || verb == "DELETE" || verb == "HEAD"
                 || verb == "PATCH" || verb == "OPTIONS" || verb == "CONNECT" || verb == "TRACE"
  {
    var all := ["GET", "POST", "PUT", "DELETE", "HEAD", "PATCH", "OPTIONS", "CONNECT", "TRACE"];
    assert METHODS == all;
    assert METHODS[0] == "GET" && METHODS[1] == "POST" && METHODS[2] == "PUT" && METHODS[3] == "DELETE" && METHODS[4] == "HEAD";
    assert METHODS[5] == "PATCH" && METHODS[6] == "OPTIONS" && METHODS[7] == "CONNECT" && METHODS[8] == "TRACE";
  }

  /** Which flows are looked at: twelve bytes captured, a write or send or a read or receive, and no port
      of DNS. */
  lemma HttpGateIff(e: NetMeta)
    ensures LooksLikeHttpFlow(e)
            <==> e.payloadLen >= 12 && e.remotePort != 53 && e.localPort != 53
                 && (e.kind == 19 || e.kind == 7 || e.kind == 16 || e.kind == 18 || e.kind == 8 || e.kind == 17)
  {
  }

  lemma FreeUpTo(p: string, c: char, a: nat)
    requires a <= |p|
    ensures var r := Find(p, [c], a); var end := if r < 0 then |p| else r;
            a <= end <= |p| && Free(p[a..end], c) && (end < |p| ==> p[end] == c) && (r >= 0 ==> end < |p|)
  {
    FindIsFirst(p, [c], a);
    var r := Find(p, [c], a);
    var end := if r < 0 then |p| else r;
    forall i | a <= i < end ensures p[i] != c {
      CharMatch(p, c, i);
    }
    if r >= 0 {
      CharMatch(p, c, r);
    }
  }

  /** `p` starts with this status line, cut or ended by a carriage return. */
  predicate IsStatusLine(p: string, version: string, status: string, reason: string) {
    var n := |version| + 5 + |reason|;
    && Free(version, ' ') && ThreeDigits(status) && Free(reason, '\r')
    && n <= |p| && p[..n] == version + " " + status + " " + reason && (n == |p| || p[n] == '\r')
  }

  /** `p` starts with this request line, cut or ended by a carriage return. */
  predicate IsRequestLine(p: string, verb: string, path: string, version: string) {
    var n := |RequestLine(verb, path, version)|;
    && verb in METHODS && path != "" && Free(path, ' ') && "HTTP/" <= version && Free(version, '\r')
    && RequestLine(verb, path, version) <= p && (n == |p| || p[n] == '\r')
  }

  lemma VersionLeads(p: string, version: string, status: string, reason: string)
    requires "HTTP/1." <= p && IsStatusLine(p, version, status, reason)
    ensures "HTTP/1." <= version
  {
    StatusParts(p, version, status, reason);
    var head := "HTTP/1.";
    assert p[..7] == head;
    assert forall i :: 0 <= i < 7 ==> p[i] == head[i] && head[i] != ' ';
    assert version == p[..|version|];
    assert version[..7] == p[..7];
  }

  /** The spaces around the code of a decoded response. */
  lemma ResponseSpaces(p: string)
    requires DecodeResponse(p).Some?
    ensures var a := Find(p, " ", 0);
            && a >= 0
            && var b := Find(p, " ", a + 1); b >= 0 && DecodeResponse(p) == ResponseBetween(p, a, b)
  {
  }

  lemma DecodeOfResponse(p: string)
    requires |p| >= 12 && "HTTP/1." <= p
    ensures Decode(p) == DecodeResponse(p)
  {
  }

  lemma StatusOfIff(status: string, code: nat)
    ensures StatusOf(status) == Some(code) <==> ThreeDigits(status) && StatusCode(status) == code && 100 <= code <= 599
  {
  }

  lemma ResponseLandmarks(p: string, a: nat, b: nat, version: string, code: nat, reason: string)
    requires a < b < |p| && ResponseBetween(p, a, b) == Some(Response(version, code, reason))
    ensures version == p[..a] && StatusOf(p[a + 1..b]) == Some(code)
    ensures var eol := Find(p, "\r", b + 1); reason == p[b + 1..if eol < 0 then |p| else eol]
  {
  }

  lemma FiveParts(p: string, a: nat, b: nat, n: nat)
    requires a < b < n <= |p|
    ensures p[..n] == p[..a] + [p[a]] + p[a + 1..b] + [p[b]] + p[b + 1..n]
  {
  }

  lemma StatusLineStands(p: string, a: nat, version: string, status: string, reason: string)
    requires |status| == 3 && a + 5 + |reason| <= |p| && p[a] == ' ' && p[a + 4] == ' '
    requires version == p[..a] && status == p[a + 1..a + 4] && reason == p[a + 5..a + 5 + |reason|]
    ensures p[..a + 5 + |reason|] == version + " " + status + " " + reason && |version| == a
  {
    FiveParts(p, a, a + 4, a + 5 + |reason|);
  }

  lemma BetweenIsStatusLine(p: string, a: nat, b: nat, version: string, code: nat, reason: string)
    requires a < b < |p| && p[a] == ' ' && p[b] == ' ' && Free(p[..a], ' ')
    requires ResponseBetween(p, a, b) == Some(Response(version, code, reason))
    ensures exists status :: IsStatusLine(p, version, status, reason) && StatusCode(status) == code && 100 <= code <= 599
  {
    var status := p[a + 1..b];
    ResponseLandmarks(p, a, b, version, code, reason);
    StatusOfIff(status, code);
    FreeUpTo(p, '\r', b + 1);
    StatusLineStands(p, a, version, status, reason);
    assert IsStatusLine(p, version, status, reason);
  }

  lemma ResponseIsStatusLine(p: string, version: string, code: nat, reason: string)
    requires |p| >= 12 && "HTTP/1." <= p && Decode(p) == Some(Response(version, code, reason))
    ensures exists status :: IsStatusLine(p, version, status, reason) && StatusCode(status) == code && 100 <= code <= 599
  {
    DecodeOfResponse(p);
    ResponseSpaces(p);
    var a := Find(p, " ", 0);
    var b := Find(p, " ", a + 1);
    FreeUpTo(p, ' ', 0);
    FreeUpTo(p, ' ', a + 1);
    assert p[0..a] == p[..a];
    BetweenIsStatusLine(p, a, b, version, code, reason);
  }

  /** Responses, exactly: a capture of at least 12 bytes that starts with "HTTP/1." gives a response if
      and only if it starts with a status line whose code lies between 100 and 599, and then that one. */
  lemma ResponseIff(p: string, version: string, code: nat, reason: string)
    requires |p| >= 12 && "HTTP/1." <= p
    ensures Decode(p) == Some(Response(version, code, reason))
            <==> exists status :: IsStatusLine(p, version, status, reason) && StatusCode(status) == code && 100 <= code <= 599
  {
    if status :| IsStatusLine(p, version, status, reason) && StatusCode(status) == code && 100 <= code <= 599 {
      VersionLeads(p, version, status, reason);
      StatusLineRecovered(p, version, status, reason);
    }
    if Decode(p) == Some(Response(version, code, reason)) {
      ResponseIsStatusLine(p, version, code, reason);
    }
  }

  lemma {:induction false} LeadingIsMember(p: string, verbs: seq<string>)
    requires LeadingMethod(p, verbs).Some?
    ensures LeadingMethod(p, verbs).value in verbs && LeadingMethod(p, verbs).value + " " <= p
  {
    if !(verbs[0] + " " <= p) {
      LeadingIsMember(p, verbs[1..]);
    }
  }

  /** The landmarks behind a decoded request. */
  lemma RequestLandmarks(p: string, verb: string, path: string, version: string, host: string)
    requires !LooksLikeResponse(p) && Decode(p) == Some(Request(verb, path, version, host))
    ensures LeadingMethod(p, METHODS) == Some(verb) && |verb| + 1 < |p|
    ensures DecodeTarget(p, verb, |verb| + 1) == Some(Request(verb, path, version, host))
  {
  }

  lemma TargetLandmarks(p: string, verb: string, at: nat, path: string, version: string, host: string)
    requires at < |p| && DecodeTarget(p, verb, at) == Some(Request(verb, path, version, host))
    ensures var b := Find(p, " ", at);
            && at < b < |p| && path == p[at..b] && "HTTP/" <= version && host == HostValue(p)
            && var eol := Find(p, "\r", b + 1); version == p[b + 1..if eol < 0 then |p| else eol]
  {
  }

  /** Where the path and the version of a decoded request end. */
  lemma TargetEnds(p: string, verb: string, at: nat, path: string, version: string, host: string) returns (b: nat, n: nat)
    requires at < |p| && DecodeTarget(p, verb, at) == Some(Request(verb, path, version, host))
    ensures at < b < n <= |p| && p[b] == ' ' && path == p[at..b] && version == p[b + 1..n]
    ensures Free(path, ' ') && Free(version, '\r') && (n == |p| || p[n] == '\r')
    ensures "HTTP/" <= version && host == HostValue(p)
  {
    TargetLandmarks(p, verb, at, path, version, host);
    FreeUpTo(p, ' ', at);
    b := Find(p, " ", at);
    var eol := Find(p, "\r", b + 1);
    n := if eol < 0 then |p| else eol;
    FreeUpTo(p, '\r', b + 1);
  }

  lemma FourParts(p: string, verb: string, at: nat, b: nat, n: nat)
    requires verb + " " <= p && at == |verb| + 1 && at <= b < n <= |p| && p[b] == ' '
    ensures p[..n] == RequestLine(verb, p[at..b], p[b + 1..n])
  {
    assert p[..at] == verb + " ";
    assert p[..n] == p[..at] + p[at..b] + [p[b]] + p[b + 1..n];
  }

  lemma LineStands(p: string, verb: string, b: nat, n: nat, path: string, version: string)
    requires verb + " " <= p && |verb| + 1 <= b < n <= |p| && p[b] == ' ' && path == p[|verb| + 1..b] && version == p[b + 1..n]
    ensures |RequestLine(verb, path, version)| == n && RequestLine(verb, path, version) <= p
  {
    FourParts(p, verb, |verb| + 1, b, n);
  }

  lemma TargetIsLine(p: string, verb: string, path: string, version: string, host: string)
    requires verb + " " <= p && |verb| + 1 < |p|
    requires DecodeTarget(p, verb, |verb| + 1) == Some(Request(verb, path, version, host))
    ensures path != "" && Free(path, ' ') && "HTTP/" <= version && Free(version, '\r') && host == HostValue(p)
    ensures RequestLine(verb, path, version) <= p
    ensures var n := |RequestLine(verb, path, version)|; n == |p| || p[n] == '\r'
  {
    var b, n := TargetEnds(p, verb, |verb| + 1, path, version, host);
    LineStands(p, verb, b, n, path, version);
  }

  lemma RequestIsRequestLine(p: string, verb: string, path: string, version: string, host: string)
    requires !LooksLikeResponse(p) && Decode(p) == Some(Request(verb, path, version, host))
    ensures IsRequestLine(p, verb, path, version) && host == HostValue(p)
  {
    var at := |verb| + 1;
    RequestLandmarks(p, verb, path, version, host);
    LeadingIsMember(p, METHODS);
    TargetIsLine(p, verb, path, version, host);
    assert |RequestLine(verb, path, version)| <= |p|;
  }

  /** Requests, exactly: any other capture gives a request if and only if it starts with a request line
      of a known method, and then that one. */
  lemma RequestIff(p: string, verb: string, path: string, version: string, host: string)
    requires !(|p| >= 12 && "HTTP/1." <= p)
    ensures Decode(p) == Some(Request(verb, path, version, host)) <==> IsRequestLine(p, verb, path, version) && host == HostValue(p)
  {
    if IsRequestLine(p, verb, path, version) {
      RequestLineRecovered(p, verb, path, version);
    }
    if Decode(p) == Some(Request(verb, path, version, host)) {
      RequestIsRequestLine(p, verb, path, version, host);
    }
  }

  /** A capture never gives a response unless it looks like one, nor a request if it does. */
  lemma KindByPrefix(p: string)
    ensures Decode(p).Some? ==> (Decode(p).value.Response? <==> |p| >= 12 && "HTTP/1." <= p)
  {
  }
}
