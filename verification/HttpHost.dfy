/** What the HTTP detector makes of the Host header, from any cut of a request.

    The header is taken as section 3.2 of RFC 7230 has it: its name in any case, a colon, optional
    blanks, the value, optional blanks. */
module HttpHost {
  import opened Basics
  import opened HttpRequest

  datatype HostField = HostField(name: string, ows: string, value: string, trailing: string)

  /** A request as sent: its request line, the header lines before the Host header, that header, and
      the rest, which is empty or starts with a line break. */
  datatype Sent = Sent(verb: string, path: string, version: string, before: seq<string>, field: HostField, rest: string)

  /** Header lines, each preceded by its line break. */
  function Lines(lines: seq<string>): string {
    if lines == [] then "" else "\r\n" + lines[0] + Lines(lines[1..])
  }

  function FieldText(f: HostField): string {
    "\r\n" + f.name + ":" + f.ows + f.value + f.trailing
  }

  /** Everything before the Host header. */
  function Front(m: Sent): string {
    RequestLine(m.verb, m.path, m.version) + Lines(m.before)
  }

  function Message(m: Sent): string {
    Front(m) + (FieldText(m.field) + m.rest)
  }

  predicate IsBlank(c: char) {
    c == ' ' || c == '\t'
  }

  predicate Blank(s: string) {
    forall i :: 0 <= i < |s| ==> IsBlank(s[i])
  }

  /** The field name of the Host header, in any case. */
  predicate SpellsHost(name: string) {
    && |name| == 4
    && name[0] in "Hh" && name[1] in "Oo" && name[2] in "Ss" && name[3] in "Tt"
  }

  /** A header line the decoder would take for the Host header. */
  predicate HostHeader(line: string) {
    |line| >= 6 && HostName(line[..4]) && line[4..6] == ": "
  }

  predicate ValidField(f: HostField) {
    && SpellsHost(f.name) && Blank(f.ows) && Blank(f.trailing) && Free(f.value, '\r')
    && (if f.value == "" then f.trailing == "" else !IsBlank(f.value[0]) && !IsBlank(f.value[|f.value| - 1]))
  }

  ghost predicate WellFormed(m: Sent) {
    && m.verb in METHODS
    && m.path != "" && Free(m.path, ' ') && Free(m.path, '\r')
    && "HTTP/" <= m.version && Free(m.version, '\r')
    && (forall l :: l in m.before ==> Free(l, '\r') && !HostHeader(l))
    && ValidField(m.field)
    && (m.rest == "" || m.rest[0] == '\r')
  }

  /** Where the value starts. */
  function ValueAt(m: Sent): nat {
    |Front(m)| + 3 + |m.field.name| + |m.field.ows|
  }

  /** The part of the true host that lies in the first `n` bytes. */
  function Captured(m: Sent, n: nat): string {
    if n <= ValueAt(m) then ""
    else if n - ValueAt(m) < |m.field.value| then m.field.value[..n - ValueAt(m)]
    else m.field.value
  }

  /** The decoder's search string starts this header. */
  predicate Readable(f: HostField) {
    HostName(f.name) && f.ows != "" && f.ows[0] == ' '
  }

  /** What follows the search string in the header line. */
  function RawValue(f: HostField): string
    requires f.ows != ""
  {
    f.ows[1..] + f.value + f.trailing
  }

  // ------------------------------------------------------------- where the decoder reads, by the text

  /** No spelling the decoder tries before `name` occurs in the capture. */
  ghost predicate NoEarlierSpelling(p: string, name: string) {
    && (name != "Host" ==> forall i: nat :: !MatchAt(p, HostMarker("Host"), i))
    && (name == "HOST" ==> forall i: nat :: !MatchAt(p, HostMarker("host"), i))
  }

  /** A spelling tried first of all that occur starts at `q`, and nowhere before. */
  ghost predicate ReadBy(p: string, q: nat, name: string) {
    && HostName(name) && MatchAt(p, HostMarker(name), q) && NoEarlierSpelling(p, name)
    && forall i: nat :: i < q ==> !MatchAt(p, HostMarker(name), i)
  }

  ghost predicate ReadAt(p: string, q: nat) {
    exists name :: ReadBy(p, q, name)
  }

  ghost predicate Unmarked(p: string) {
    forall name, i: nat :: HostName(name) ==> !MatchAt(p, HostMarker(name), i)
  }

  /** `text` is what stands from `from` to the end of its line or of the capture. */
  predicate IsLine(p: string, from: nat, text: string) {
    && from + |text| <= |p| && p[from..from + |text|] == text && Free(text, '\r')
    && (from + |text| == |p| || p[from + |text|] == '\r')
  }

  lemma ReadByIsPlace(p: string, q: nat, name: string)
    requires ReadBy(p, q, name)
    ensures HostPos(p) == q
  {
    FindIs(p, HostMarker(name), 0, q);
    if name != "Host" {
      FindNothing(p, HostMarker("Host"), 0);
    }
    if name == "HOST" {
      FindNothing(p, HostMarker("host"), 0);
    }
  }

  lemma PlaceIsReadBy(p: string)
    ensures HostPos(p) >= 0 ==> ReadAt(p, HostPos(p))
    ensures HostPos(p) < 0 ==> Unmarked(p)
  {
    FindIsFirst(p, HostMarker("Host"), 0);
    FindIsFirst(p, HostMarker("host"), 0);
    FindIsFirst(p, HostMarker("HOST"), 0);
    var q := HostPos(p);
    if q >= 0 {
      var name := if Find(p, HostMarker("Host"), 0) >= 0 then "Host"
                  else if Find(p, HostMarker("host"), 0) >= 0 then "host" else "HOST";
      assert ReadBy(p, q, name);
    }
  }

  /** The decoder reads at `q` iff ReadAt says so, and nowhere iff the capture is unmarked. */
  lemma PlaceIff(p: string, q: nat)
    ensures HostPos(p) == q <==> ReadAt(p, q)
    ensures HostPos(p) < 0 <==> Unmarked(p)
  {
    PlaceIsReadBy(p);
    if name :| ReadBy(p, q, name) {
      ReadByIsPlace(p, q, name);
    }
    if HostPos(p) >= 0 {
      var name :| ReadBy(p, HostPos(p), name);
    }
  }

  lemma LineIsNotShorter(p: string, from: nat, a: string, b: string)
    requires IsLine(p, from, a) && IsLine(p, from, b)
    ensures |a| >= |b|
  {
  }

  lemma LineIsUnique(p: string, from: nat, a: string, b: string)
    requires IsLine(p, from, a) && IsLine(p, from, b)
    ensures a == b
  {
    LineIsNotShorter(p, from, a, b);
    LineIsNotShorter(p, from, b, a);
  }

  lemma LineEnds(p: string, from: nat)
    requires from <= |p|
    ensures var end := Find(p, "\r", from); IsLine(p, from, p[from..if end < 0 then |p| else end])
  {
    FindIsFirst(p, "\r", from);
    var end := Find(p, "\r", from);
    var stop := if end < 0 then |p| else end;
    forall i | from <= i < stop ensures p[i] != '\r' {
      CharMatch(p, '\r', i);
    }
    if end >= 0 {
      CharMatch(p, '\r', end);
    }
  }

  /** What is reported is the line after the place read, or nothing. */
  lemma ValueIsLine(p: string)
    ensures HostPos(p) >= 0 ==> IsLine(p, HostPos(p) + 8, HostValue(p))
    ensures HostPos(p) < 0 ==> HostValue(p) == ""
  {
    var q := HostPos(p);
    if q >= 0 {
      LineEnds(p, q + 8);
    }
  }

  // ------------------------------------------------------------- no spelling before the true header

  /** `text` stands at `at`, followed by a carriage return. */
  ghost predicate TextAt(s: string, at: nat, text: string) {
    at + |text| < |s| && s[at..at + |text|] == text && s[at + |text|] == '\r'
  }

  lemma FirstPiece(s: string, at: nat, l: string, tail: string)
    requires TextAt(s, at, "\r\n" + l + tail) && (tail == "" || tail[0] == '\r')
    ensures var mid := at + 2 + |l|;
            && TextAt(s, mid, tail) && s[mid] == '\r'
            && s[at + 1] == '\n' && s[at + 2..mid] == l
  {
    Pieces(s, at, "\r\n" + l, tail);
    Pieces(s, at, "\r\n", l);
    assert s[at + 1] == s[at..at + 2][1];
    if tail != "" {
      assert s[at + 2 + |l|] == tail[0];
    }
  }

  lemma FirstLine(s: string, at: nat, lines: seq<string>)
    requires lines != [] && TextAt(s, at, Lines(lines))
    ensures var mid := at + 2 + |lines[0]|;
            && mid < |s| && s[mid] == '\r' && TextAt(s, mid, Lines(lines[1..]))
            && at + |Lines(lines)| == mid + |Lines(lines[1..])|
            && s[at + 1] == '\n' && s[at + 2..mid] == lines[0]
  {
    FirstPiece(s, at, lines[0], Lines(lines[1..]));
  }

  lemma MarkerText(name: string)
    ensures HostMarker(name) == "\r\n" + (name + ": ")
  {
  }

  lemma MatchParts(s: string, at: nat, name: string)
    requires |name| == 4 && MatchAt(s, HostMarker(name), at)
    ensures at + 8 <= |s| && s[at + 2..at + 6] == name && s[at + 6..at + 8] == ": "
  {
    MarkerText(name);
    Pieces(s, at, "\r\n", name + ": ");
    Pieces(s, at + 2, name, ": ");
  }

  lemma NoMarkerAtLine(s: string, at: nat, l: string, name: string)
    requires at + 2 + |l| < |s| && s[at + 2..at + 2 + |l|] == l && s[at + 2 + |l|] == '\r'
    requires !HostHeader(l) && HostName(name)
    ensures !MatchAt(s, HostMarker(name), at)
  {
    if |l| < 6 {
      MatchChar(s, HostMarker(name), at, 2 + |l|);
    } else if MatchAt(s, HostMarker(name), at) {
      MatchParts(s, at, name);
      assert l == l[..4] + (l[4..6] + l[6..]);
      Pieces(s, at + 2, l[..4], l[4..6] + l[6..]);
      Pieces(s, at + 6, l[4..6], l[6..]);
    }
  }

  /** No spelling of the Host header can start inside the header lines before it. */
  lemma {:induction false} NoMarkerInLines(s: string, at: nat, lines: seq<string>, name: string, i: nat)
    requires TextAt(s, at, Lines(lines))
    requires forall l :: l in lines ==> Free(l, '\r') && !HostHeader(l)
    requires HostName(name)
    requires at <= i < at + |Lines(lines)|
    ensures !MatchAt(s, HostMarker(name), i)
    decreases |lines|
  {
    var l, mid := lines[0], at + 2 + |lines[0]|;
    FirstLine(s, at, lines);
    if i >= mid {
      NoMarkerInLines(s, mid, lines[1..], name, i);
    } else if i > at {
      assert l in lines;
      assert i > at + 1 ==> s[i] == s[at + 2..mid][i - at - 2];
      MatchChar(s, HostMarker(name), i, 0);
    } else {
      NoMarkerAtLine(s, at, l, name);
    }
  }

  lemma LineFreeOfCr(verb: string, path: string, version: string)
    requires verb in METHODS && Free(path, '\r') && Free(version, '\r')
    ensures Free(RequestLine(verb, path, version), '\r')
  {
    VerbIsFound(verb + " ", verb);
  }

  lemma LinesFollow(line: string, lines: string, tail: string)
    requires tail != ""
    ensures var s := line + lines + tail;
            s[|line|..|line| + |lines|] == lines && s[|line| + |lines|] == tail[0]
  {
  }

  /** Nor inside the request line: no spelling of the Host header starts before its true place. */
  lemma NoMarkerBefore(m: Sent, name: string, i: nat)
    requires WellFormed(m) && HostName(name) && i < |Front(m)|
    ensures !MatchAt(Message(m), HostMarker(name), i)
  {
    var line := RequestLine(m.verb, m.path, m.version);
    var tail := FieldText(m.field) + m.rest;
    var s := Message(m);
    if i < |line| {
      LineFreeOfCr(m.verb, m.path, m.version);
      assert s[i] == line[i];
      MatchChar(s, HostMarker(name), i, 0);
    } else {
      assert tail[0] == '\r';
      LinesFollow(line, Lines(m.before), tail);
      NoMarkerInLines(s, |line|, m.before, name, i);
    }
  }

  // ------------------------------------------------------------------ nor inside it, but at its start

  lemma FieldFreeOfCr(f: HostField, k: nat)
    requires ValidField(f) && 0 < k < |FieldText(f)|
    ensures FieldText(f)[k] != '\r'
  {
    assert FieldText(f) == "\r\n" + (f.name + (":" + (f.ows + (f.value + f.trailing))));
  }

  /** The character after the colon. */
  lemma AfterColon(f: HostField, rest: string)
    requires ValidField(f) && (rest == "" || rest[0] == '\r')
    ensures var t := FieldText(f) + rest;
            && |FieldText(f)| >= 7 && t[..2] == "\r\n" && t[2..6] == f.name && t[6] == ':'
            && (f.ows != "" ==> |t| > 7 && t[7] == f.ows[0])
            && (f.ows == "" && |t| > 7 ==> t[7] != ' ')
  {
    var t := FieldText(f) + rest;
    assert t == "\r\n" + f.name + ":" + (f.ows + f.value + f.trailing + rest);
    assert t == "\r\n" + (f.name + (":" + (f.ows + f.value + f.trailing + rest)));
    assert t[2..6] == f.name;
    if f.ows == "" && |t| > 7 {
      assert t[7] == (f.value + f.trailing + rest)[0];
    }
  }

  lemma MarkerParts(t: string, name: string)
    requires |name| == 4 && |t| >= 7 && t[..2] == "\r\n"
    ensures MatchAt(t, HostMarker(name), 0) <==> |t| >= 8 && t[2..6] == name && t[6] == ':' && t[7] == ' '
  {
    var k := HostMarker(name);
    MarkerText(name);
    if MatchAt(t, k, 0) {
      MatchParts(t, 0, name);
      assert t[6..8] == ": ";
    }
  }

  lemma Shift(front: string, t: string, pat: string)
    ensures MatchAt(front + t, pat, |front|) <==> MatchAt(t, pat, 0)
  {
    if |pat| <= |t| {
      assert (front + t)[|front|..|front| + |pat|] == t[0..|pat|];
    }
  }

  /** At its start the header matches a search string exactly if it is spelled so and a space follows
      the colon. */
  lemma MarkerAtField(front: string, f: HostField, rest: string, name: string)
    requires ValidField(f) && HostName(name) && (rest == "" || rest[0] == '\r')
    ensures MatchAt(front + (FieldText(f) + rest), HostMarker(name), |front|) <==> f.name == name && Readable(f)
  {
    var t := FieldText(f) + rest;
    AfterColon(f, rest);
    Shift(front, t, HostMarker(name));
    MarkerParts(t, name);
  }

  lemma MatchInPrefix(s: string, n: nat, pat: string, i: nat)
    requires n <= |s|
    ensures MatchAt(s[..n], pat, i) <==> MatchAt(s, pat, i) && i + |pat| <= n
  {
    if i + |pat| <= n {
      assert s[..n][i..i + |pat|] == s[i..i + |pat|];
    }
  }

  lemma MarkerLength(name: string)
    requires HostName(name)
    ensures |HostMarker(name)| == 8
  {
  }

  /** Up to the end of the Host header, a search string occurs in a cut only at the header's start,
      and there exactly if the header is readable and its search string was captured. */
  lemma MarkersIn(m: Sent, n: nat, name: string, i: nat)
    requires WellFormed(m) && n <= |Message(m)| && HostName(name) && i < |Front(m)| + |FieldText(m.field)|
    ensures MatchAt(Message(m)[..n], HostMarker(name), i)
            <==> i == |Front(m)| && m.field.name == name && Readable(m.field) && |Front(m)| + 8 <= n
  {
    var s := Message(m);
    MarkerLength(name);
    MatchInPrefix(s, n, HostMarker(name), i);
    if i < |Front(m)| {
      NoMarkerBefore(m, name, i);
    } else if i == |Front(m)| {
      MarkerAtField(Front(m), m.field, m.rest, name);
    } else {
      FieldFreeOfCr(m.field, i - |Front(m)|);
      assert s[i] == FieldText(m.field)[i - |Front(m)|];
      MatchChar(s, HostMarker(name), i, 0);
    }
  }

  /** The decoder reads the host at its true place if and only if the header is readable, its search
      string was captured, and no spelling tried earlier occurs anywhere in the capture. */
  lemma HostPlaceIff(m: Sent, n: nat)
    requires WellFormed(m) && n <= |Message(m)|
    ensures var p := Message(m)[..n];
            HostPos(p) == |Front(m)|
            <==> Readable(m.field) && |Front(m)| + 8 <= n && NoEarlierSpelling(p, m.field.name)
  {
    var p, hpos := Message(m)[..n], |Front(m)|;
    PlaceIff(p, hpos);
    if name :| ReadBy(p, hpos, name) {
      MarkersIn(m, n, name, hpos);
    }
    if Readable(m.field) && hpos + 8 <= n && NoEarlierSpelling(p, m.field.name) {
      forall i: nat | i <= hpos ensures MatchAt(p, HostMarker(m.field.name), i) <==> i == hpos {
        MarkersIn(m, n, m.field.name, i);
      }
      assert ReadBy(p, hpos, m.field.name);
    }
  }

  // -------------------------------------------------------------------------- what is reported there

  function Cut(s: string, k: nat): string {
    if k < |s| then s[..k] else s
  }

  lemma Prefix(s: string, from: nat, n: nat, k: nat)
    requires k <= n && from + n <= |s|
    ensures s[from..from + n][..k] == s[from..from + k]
  {
  }

  lemma CutLine(front: string, text: string, rest: string, n: nat)
    requires Free(text, '\r') && (rest == "" || rest[0] == '\r')
    requires |front| <= n <= |front + text + rest|
    ensures IsLine((front + text + rest)[..n], |front|, Cut(text, n - |front|))
  {
    var s := front + text + rest;
    var c := Cut(text, n - |front|);
    assert s[|front|..|front| + |text|] == text;
    Prefix(s, |front|, |text|, |c|);
    assert s[..n][|front|..|front| + |c|] == s[|front|..|front| + |c|];
  }

  lemma ReadableText(f: HostField)
    requires ValidField(f) && Readable(f)
    ensures FieldText(f) == HostMarker(f.name) + RawValue(f) && Free(RawValue(f), '\r')
  {
    assert f.ows == " " + f.ows[1..];
    assert Free(f.ows[1..], '\r') && Free(f.trailing, '\r');
  }

  lemma Regroup(a: string, b: string, c: string, d: string)
    ensures a + ((b + c) + d) == a + b + c + d
  {
  }

  /** In a readable header the search string is followed by the rest of the line. */
  lemma RawLine(m: Sent, n: nat)
    requires WellFormed(m) && Readable(m.field) && |Front(m)| + 8 <= n <= |Message(m)|
    ensures IsLine(Message(m)[..n], |Front(m)| + 8, Cut(RawValue(m.field), n - |Front(m)| - 8))
  {
    var f := m.field;
    var lead := Front(m) + HostMarker(f.name);
    ReadableText(f);
    Regroup(Front(m), HostMarker(f.name), RawValue(f), m.rest);
    MarkerLength(f.name);
    CutLine(lead, RawValue(f), m.rest, n);
  }

  /** The first `k` characters after the search string are the captured part of the value if and only
      if there are none, or the colon is followed by one space alone and no trailing blank is among
      them. */
  lemma RawIsValueIff(f: HostField, k: nat)
    requires ValidField(f) && Readable(f)
    ensures var skip := |f.ows| - 1;
            Cut(RawValue(f), k) == (if k <= skip then "" else Cut(f.value, k - skip))
            <==> k == 0 || (f.ows == " " && (f.trailing == "" || k <= |f.value|))
  {
    var raw, w := RawValue(f), f.ows[1..];
    if k == 0 {
    } else if w != "" {
      assert raw[0] == w[0] && IsBlank(f.ows[1]);
      assert Cut(raw, k)[0] == raw[0];
    } else {
      assert f.ows == " " && raw == f.value + f.trailing;
      if k <= |f.value| {
        assert Cut(raw, k) == f.value[..k] == Cut(f.value, k);
      } else if f.trailing == "" {
        assert raw == f.value;
      } else {
        assert |Cut(raw, k)| > |f.value|;
      }
    }
  }

  // --------------------------------------------------------------------------------------- recovery

  /** The decoder reads at the true place and the text there is the value: the search string has just
      been captured, or one space follows the colon and no trailing blank was captured. */
  ghost predicate ReadRight(m: Sent, n: nat) {
    && Readable(m.field) && |Front(m)| + 8 <= n <= |Message(m)|
    && NoEarlierSpelling(Message(m)[..n], m.field.name)
    && (n == |Front(m)| + 8
        || (m.field.ows == " " && (m.field.trailing == "" || n <= ValueAt(m) + |m.field.value|)))
  }

  /** Some other place is read, and the line there happens to say the same. */
  ghost predicate SaidElsewhere(m: Sent, n: nat)
    requires n <= |Message(m)|
  {
    exists q: nat :: q != |Front(m)| && ReadAt(Message(m)[..n], q) && IsLine(Message(m)[..n], q + 8, Captured(m, n))
  }

  lemma CapturedAfter(m: Sent, n: nat)
    requires ValidField(m.field) && Readable(m.field) && |Front(m)| + 8 <= n
    ensures var k, skip := n - |Front(m)| - 8, |m.field.ows| - 1;
            Captured(m, n) == if k <= skip then "" else Cut(m.field.value, k - skip)
  {
  }

  lemma ReadHere(m: Sent, n: nat)
    requires WellFormed(m) && n <= |Message(m)| && HostPos(Message(m)[..n]) == |Front(m)|
    ensures HostValue(Message(m)[..n]) == Captured(m, n) <==> ReadRight(m, n)
  {
    var p, hpos := Message(m)[..n], |Front(m)|;
    HostPlaceIff(m, n);
    ValueIsLine(p);
    RawLine(m, n);
    CapturedAfter(m, n);
    LineIsUnique(p, hpos + 8, HostValue(p), Cut(RawValue(m.field), n - hpos - 8));
    RawIsValueIff(m.field, n - hpos - 8);
  }

  lemma NoOtherPlace(m: Sent, n: nat)
    requires n <= |Message(m)| && HostPos(Message(m)[..n]) in {-1, |Front(m)|}
    ensures !SaidElsewhere(m, n)
  {
    var p := Message(m)[..n];
    forall q: nat | q != |Front(m)| ensures !ReadAt(p, q) {
      PlaceIff(p, q);
    }
  }

  lemma ElsewhereIff(m: Sent, n: nat)
    requires n <= |Message(m)|
    requires var q := HostPos(Message(m)[..n]); q >= 0 && q != |Front(m)|
    ensures HostValue(Message(m)[..n]) == Captured(m, n) <==> SaidElsewhere(m, n)
  {
    var p, host := Message(m)[..n], Captured(m, n);
    var q := HostPos(p);
    ValueIsLine(p);
    PlaceIff(p, q);
    if HostValue(p) == host {
      assert ReadAt(p, q) && IsLine(p, q + 8, host);
    }
    if SaidElsewhere(m, n) {
      var r: nat :| r != |Front(m)| && ReadAt(p, r) && IsLine(p, r + 8, host);
      PlaceIff(p, r);
      LineIsUnique(p, q + 8, HostValue(p), host);
    }
  }

  /** Host recovery, exactly.  From any cut, what is reported is the captured part of the true host if
      and only if the true place is read and the text there is the value, or no search string occurs
      and none of the value was captured, or another place that is read says the same. */
  lemma HostRecoveredIff(m: Sent, n: nat)
    requires WellFormed(m) && n <= |Message(m)|
    ensures var p := Message(m)[..n];
            HostValue(p) == Captured(m, n)
            <==> ReadRight(m, n) || (Unmarked(p) && Captured(m, n) == "") || SaidElsewhere(m, n)
  {
    var p, hpos, host := Message(m)[..n], |Front(m)|, Captured(m, n);
    HostPlaceIff(m, n);
    ValueIsLine(p);
    PlaceIff(p, hpos);
    if HostPos(p) == hpos {
      ReadHere(m, n);
      NoOtherPlace(m, n);
    } else if HostPos(p) >= 0 {
      ElsewhereIff(m, n);
    } else {
      NoOtherPlace(m, n);
    }
  }

  /** From a cut that holds some of the value, with no search string after the header, the host is
      recovered if and only if its name is a spelling the decoder tries, exactly one space follows the
      colon, and no trailing blank was captured. */
  lemma UnobscuredHostIff(m: Sent, n: nat)
    requires WellFormed(m) && ValueAt(m) < n <= |Message(m)| && m.field.value != ""
    requires forall name, i: nat :: HostName(name) && i > |Front(m)| ==> !MatchAt(Message(m)[..n], HostMarker(name), i)
    ensures HostValue(Message(m)[..n]) == Captured(m, n)
            <==> (m.field.name == "Host" || m.field.name == "host" || m.field.name == "HOST") && m.field.ows == " "
                 && (m.field.trailing == "" || n <= ValueAt(m) + |m.field.value|)
  {
    var p, hpos := Message(m)[..n], |Front(m)|;
    forall name, i: nat | HostName(name)
      ensures MatchAt(p, HostMarker(name), i) ==> i == hpos && name == m.field.name && Readable(m.field)
    {
      if i <= hpos {
        MarkersIn(m, n, name, i);
      }
    }
    HostPlaceIff(m, n);
    if Readable(m.field) {
      ReadHere(m, n);
    } else {
      PlaceIff(p, hpos);
      ValueIsLine(p);
    }
  }

  /** Recovery.  From any cut after the version the decoder recovers method, path and version exactly;
      the host is the captured part of the true host exactly as HostRecoveredIff says. */
  lemma RequestRecovered(m: Sent, n: nat)
    requires WellFormed(m) && |RequestLine(m.verb, m.path, m.version)| <= n <= |Message(m)|
    ensures var p := Message(m)[..n];
            && Decode(p) == Some(Request(m.verb, m.path, m.version, HostValue(p)))
            && (HostValue(p) == Captured(m, n)
                <==> ReadRight(m, n) || (Unmarked(p) && Captured(m, n) == "") || SaidElsewhere(m, n))
  {
    var s, line := Message(m), RequestLine(m.verb, m.path, m.version);
    var tail := Lines(m.before) + (FieldText(m.field) + m.rest);
    assert s == line + tail;
    assert tail[0] == '\r' by {
      if m.before == [] {
        assert tail == FieldText(m.field) + m.rest;
      }
    }
    assert line <= s[..n];
    RequestLineRecovered(s[..n], m.verb, m.path, m.version);
    HostRecoveredIff(m, n);
  }

  /** With the usual spelling, one space and no trailing blank, nothing further is needed. */
  lemma UsualHostRecovered(m: Sent, n: nat)
    requires WellFormed(m) && |RequestLine(m.verb, m.path, m.version)| <= n <= |Message(m)|
    requires m.field.name == "Host" && m.field.ows == " " && m.field.trailing == ""
    ensures Decode(Message(m)[..n]) == Some(Request(m.verb, m.path, m.version, Captured(m, n)))
  {
    var p, hpos := Message(m)[..n], |Front(m)|;
    RequestRecovered(m, n);
    if n < hpos + 8 {
      forall name, i: nat | HostName(name) ensures !MatchAt(p, HostMarker(name), i) {
        MarkerLength(name);
        if i <= hpos {
          MarkersIn(m, n, name, i);
        }
      }
    }
  }

  // --------------------------------------------------------------------------------- where it fails

  /** Without a space after the colon the host is lost. */
  lemma NoSpaceLosesHost()
    ensures var m := Sent("GET", "/", "HTTP/1.1", [], HostField("Host", "", "a", ""), "\r\n\r\n");
            && WellFormed(m) && Message(m) == "GET / HTTP/1.1\r\nHost:a\r\n\r\n"
            && Captured(m, |Message(m)|) == "a" && HostValue(Message(m)) == ""
  {
    var m := Sent("GET", "/", "HTTP/1.1", [], HostField("Host", "", "a", ""), "\r\n\r\n");
    var s := Message(m);
    assert METHODS[0] == "GET";
    assert s == "GET / HTTP/1.1\r\nHost:a\r\n\r\n";
    assert s[..|s|] == s;
    forall name, i: nat | HostName(name) ensures !MatchAt(s, HostMarker(name), i) {
      MarkerLength(name);
      if i < |Front(m)| + |FieldText(m.field)| {
        MarkersIn(m, |s|, name, i);
      }
    }
    PlaceIff(s, 0);
    ValueIsLine(s);
  }

  /** A blank line before the search string does not start it. */
  lemma NotAtBreak(lead: string, k: string, other: string, i: nat)
    requires |lead| >= 2 && lead[|lead| - 2..] == "\r\n" && k == HostMarker("Host") && |lead| - 2 <= i < |lead|
    ensures !MatchAt(lead + k + other, k, i)
  {
    var s, at := lead + k + other, |lead|;
    assert s[at - 2] == lead[at - 2..][0] && s[at - 1] == lead[at - 2..][1] && s[at] == '\r';
    MatchChar(s, k, i, 0);
    MatchChar(s, k, i, 2);
  }

  /** The first search string of all is read, to the end of its line. */
  lemma MarkedLine(s: string, lead: string, other: string)
    requires s == lead + HostMarker("Host") + other && Free(other, '\r')
    requires forall i: nat :: i < |lead| ==> !MatchAt(s, HostMarker("Host"), i)
    ensures HostValue(s) == other
  {
    var k, at := HostMarker("Host"), |lead|;
    MarkerLength("Host");
    assert s[at..at + 8] == k;
    assert ReadBy(s, at, "Host");
    ReadByIsPlace(s, at, "Host");
    ValueIsLine(s);
    CutLine(lead + k, other, "", |s|);
    assert lead + k + other + "" == s && s[..|s|] == s;
    LineIsUnique(s, at + 8, HostValue(s), other);
  }

  /** If the decoder's first search string does not start the header and the body starts with a line
      break and "Host: ", the decoder reports what follows there in place of the true host. */
  lemma BodyOvershadowsHeader(m: Sent, other: string)
    requires WellFormed(m) && !(m.field.name == "Host" && Readable(m.field))
    requires m.rest == "\r\n" + HostMarker("Host") + other && Free(other, '\r')
    ensures HostValue(Message(m)) == other
  {
    var k, s := HostMarker("Host"), Message(m);
    var lead := Front(m) + FieldText(m.field) + "\r\n";
    var at := |lead|;
    assert s == lead + k + other;
    assert s[..|s|] == s;
    forall i: nat | i < at ensures !MatchAt(s, k, i) {
      if i < at - 2 {
        MarkersIn(m, |s|, "Host", i);
      } else {
        NotAtBreak(lead, k, other, i);
      }
    }
    MarkedLine(s, lead, other);
  }
}
