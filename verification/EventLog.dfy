/** The event log: the write-ahead writer, the capture session that counts, and the streaming reader.

    Characters stand for bytes.  The parser of one JSON line is a parameter; it answers None where
    the library throws a parse error.  System calls answer from a script that the environment
    chooses; when the script is used up a write takes everything offered. */
module EventLog {
  import opened Basics

  const MAX_LINE_BYTES: nat := 8 * 1024 * 1024

  // ------------------------------------------------------------------------------------ writing

  /** What one write(2) call does: take up to `n` bytes, be interrupted, or fail. */
  datatype WriteResult = Wrote(n: nat) | Interrupted | Failed

  /** Writing `left` bytes against a script: how many get written, whether all do, what remains. */
  function Attempt(left: nat, script: seq<WriteResult>): (r: (nat, bool, seq<WriteResult>))
    ensures r.0 <= left
    ensures r.1 <==> r.0 == left
    decreases |script|
  {
    if left == 0 then (0, true, script)
    else if script == [] then (left, true, [])
    else
      match script[0]
      case Interrupted => Attempt(left, script[1..])
      case Failed => (0, false, script[1..])
      case Wrote(n) =>
        if n == 0 then (0, false, script[1..])
        else if n >= left then (left, true, script[1..])
        else
          var (done, ok, rest) := Attempt(left - n, script[1..]);
          (n + done, ok, rest)
  }

  predicate NoHardFailure(script: seq<WriteResult>) {
    forall w :: w in script ==> w != Failed && w != Wrote(0)
  }

  /** Short writes and interruptions alone never lose a byte. */
  lemma {:induction false} SoftErrorsAreHarmless(left: nat, script: seq<WriteResult>)
    requires NoHardFailure(script)
    ensures Attempt(left, script).1 && NoHardFailure(Attempt(left, script).2)
    decreases |script|
  {
    if left > 0 && script != [] {
      assert script[0] in script;
      assert forall w :: w in script[1..] ==> w in script;
      match script[0]
      case Wrote(n) =>
        if n < left {
          SoftErrorsAreHarmless(left - n, script[1..]);
        }
      case Interrupted => SoftErrorsAreHarmless(left, script[1..]);
      case Failed =>
    }
  }

  class WalWriter {
    var file: string
    var isOpen: bool
    var linesWritten: nat

    constructor ()
      ensures file == "" && isOpen && linesWritten == 0
    {
      file, isOpen, linesWritten := "", true, 0;
    }

    /** Retry-safe full write: everything, or a proper prefix and an error. */
    method WriteAll(data: string, script: seq<WriteResult>) returns (ok: bool, rest: seq<WriteResult>)
      modifies this`file
      ensures (ok, rest) == (Attempt(|data|, script).1, Attempt(|data|, script).2)
      ensures file == old(file) + data[..Attempt(|data|, script).0]
    {
      var off := 0;
      rest := script;
      assert data[..0] == "";
      while off < |data|
        invariant 0 <= off <= |data|
        invariant file == old(file) + data[..off]
        invariant Attempt(|data|, script)
                  == (off + Attempt(|data| - off, rest).0, Attempt(|data| - off, rest).1, Attempt(|data| - off, rest).2)
        decreases |data| - off, |rest|
      {
        if rest == [] {
          file := file + data[off..];
          off := |data|;
          break;
        }
        var w := rest[0];
        rest := rest[1..];
        if w.Interrupted? {
          continue;
        }
        if w.Failed? || w.n == 0 {
          return false, rest;
        }
        var n := if w.n < |data| - off then w.n else |data| - off;
        file := file + data[off..off + n];
        assert data[..off + n] == data[..off] + data[off..off + n];
        off := off + n;
      }
      assert data[..|data|] == data;
      ok := true;
    }

    /** Write the line and its newline; an empty line is ignored. */
    method WriteLine(line: string, script: seq<WriteResult>) returns (ok: bool, rest: seq<WriteResult>)
      modifies this
      ensures isOpen == old(isOpen)
      ensures ok <==> old(isOpen) && (line == "" || Attempt(|line| + 1, script).1)
      ensures linesWritten == old(linesWritten) + if ok && line != "" then 1 else 0
      ensures ok && line != "" ==> file == old(file) + line + "\n"
      ensures ok && line == "" ==> file == old(file)
      ensures !ok ==> old(file) <= file
      ensures old(isOpen) && line != "" ==>
                && rest == Attempt(|line| + 1, script).2
                && file == old(file) + (line + "\n")[..Attempt(|line| + 1, script).0]
      ensures NoHardFailure(script) ==> NoHardFailure(rest) && (ok <==> old(isOpen))
    {
      if !isOpen {
        return false, script;
      }
      if line == "" {
        return true, script;
      }
      var buf := line + "\n";
      ok, rest := WriteAll(buf, script);
      if NoHardFailure(script) {
        SoftErrorsAreHarmless(|buf|, script);
      }
      if ok {
        assert buf[..|buf|] == buf;
        linesWritten := linesWritten + 1;
      }
    }

    method Close()
      modifies this`isOpen
      ensures !isOpen
    {
      isOpen := false;
    }
  }

  /** The bytes of a log: each line and its newline. */
  function LogBytes(lines: seq<string>): string {
    if lines == [] then "" else LogBytes(lines[..|lines| - 1]) + lines[|lines| - 1] + "\n"
  }

  lemma LogBytesAppend(lines: seq<string>, line: string)
    ensures LogBytes(lines + [line]) == LogBytes(lines) + line + "\n"
  {
    assert (lines + [line])[..|lines|] == lines;
  }

  /** Writing lines one after the other: how many get written, whether all do, what remains. */
  function WriteLines(lines: seq<string>, script: seq<WriteResult>): (r: (nat, bool, seq<WriteResult>))
    ensures r.0 <= |lines|
    ensures r.1 <==> r.0 == |lines|
  {
    if lines == [] then (0, true, script)
    else
      var (_, ok, rest) := Attempt(|lines[0]| + 1, script);
      if !ok then (0, false, rest)
      else
        var (k, allOk, left) := WriteLines(lines[1..], rest);
        (1 + k, allOk, left)
  }

  /** A line offered to the log, and how many bytes of it and its newline were taken. */
  datatype Put = Put(line: string, taken: nat) {
    predicate Whole() { taken > |line| }

    function Bytes(): string { if Whole() then line + "\n" else line[..taken] }
  }

  lemma TakenBytes(p: Put)
    requires p.taken <= |p.line| + 1
    ensures p.Bytes() == (p.line + "\n")[..p.taken]
  {
  }

  /** After `i` lines the whole outcome is what the remaining lines make of it. */
  predicate Continues(whole: (nat, bool, seq<WriteResult>), i: nat, remaining: (nat, bool, seq<WriteResult>)) {
    whole.0 == i + remaining.0 && whole.1 == remaining.1 && whole.2 == remaining.2
  }

  /** One more line written, or the first that is not. */
  lemma WriteLinesStep(lines: seq<string>, i: nat, script: seq<WriteResult>)
    requires i < |lines|
    ensures var (_, ok, rest) := Attempt(|lines[i]| + 1, script);
            if ok then Continues(WriteLines(lines[i..], script), 1, WriteLines(lines[i + 1..], rest))
            else WriteLines(lines[i..], script) == (0, false, rest)
  {
    assert lines[i..][1..] == lines[i + 1..];
  }

  lemma WriteLinesGoOn(whole: (nat, bool, seq<WriteResult>), lines: seq<string>, i: nat, script: seq<WriteResult>)
    requires i < |lines| && Continues(whole, i, WriteLines(lines[i..], script))
    ensures var (_, ok, rest) := Attempt(|lines[i]| + 1, script);
            if ok then Continues(whole, i + 1, WriteLines(lines[i + 1..], rest))
            else whole.0 == i && !whole.1 && whole.2 == rest
  {
    WriteLinesStep(lines, i, script);
  }

  lemma TakeOne(front: seq<string>, lines: seq<string>, i: nat)
    requires i < |lines|
    ensures front + lines[..i] + [lines[i]] == front + lines[..i + 1]
  {
  }

  lemma {:induction false} LinesSurviveSoftErrors(lines: seq<string>, script: seq<WriteResult>)
    requires NoHardFailure(script)
    ensures WriteLines(lines, script).1 && NoHardFailure(WriteLines(lines, script).2)
  {
    if lines != [] {
      SoftErrorsAreHarmless(|lines[0]| + 1, script);
      LinesSurviveSoftErrors(lines[1..], Attempt(|lines[0]| + 1, script).2);
    }
  }

  /** One raw event against a script: the lines written, the events dropped, what remains.  The event
      is undecodable (None) or stands for its lines. */
  function Handled(event: Option<seq<string>>, script: seq<WriteResult>): (seq<string>, nat, seq<WriteResult>) {
    match event
    case None => ([], 1, script)
    case Some(lines) =>
      var (k, ok, rest) := WriteLines(lines, script);
      (lines[..k], if ok then 0 else 1, rest)
  }

  /** The same for a batch of raw events. */
  function Polled(events: seq<Option<seq<string>>>, script: seq<WriteResult>): (seq<string>, nat, seq<WriteResult>) {
    if events == [] then ([], 0, script)
    else
      var (lines, dropped, rest) := Handled(events[0], script);
      var (more, lost, left) := Polled(events[1..], rest);
      (lines + more, dropped + lost, left)
  }

  /** One more event handled. */
  lemma PolledStep(events: seq<Option<seq<string>>>, i: nat, script: seq<WriteResult>, written: seq<string>, lost: nat)
    requires i < |events|
    ensures var (lines, dropped, rest) := Handled(events[i], script);
            var (before, after) := (Polled(events[i..], script), Polled(events[i + 1..], rest));
            (written + before.0, lost + before.1, before.2) == (written + lines + after.0, lost + dropped + after.1, after.2)
  {
    assert events[i..][1..] == events[i + 1..];
    var (lines, _, rest) := Handled(events[i], script);
    var after := Polled(events[i + 1..], rest).0;
    assert written + (lines + after) == written + lines + after;
  }

  function Decoded(events: seq<Option<seq<string>>>): seq<string> {
    if events == [] then []
    else (if events[0].Some? then events[0].value else []) + Decoded(events[1..])
  }

  function Undecodable(events: seq<Option<seq<string>>>): nat {
    if events == [] then 0 else (if events[0].None? then 1 else 0) + Undecodable(events[1..])
  }

  lemma UndecodableStep(events: seq<Option<seq<string>>>, i: nat, script: seq<WriteResult>)
    requires i < |events|
    ensures var dropped := Handled(events[i], script).1;
            && Undecodable(events[i..]) == (if events[i].None? then 1 else 0) + Undecodable(events[i + 1..])
            && (events[i].None? ==> dropped == 1) && dropped <= 1
  {
    assert events[i..][1..] == events[i + 1..];
  }

  /** Without hard failures every decodable event is written in full and only the others are dropped. */
  lemma {:induction false} PolledInFull(events: seq<Option<seq<string>>>, script: seq<WriteResult>)
    requires NoHardFailure(script)
    ensures var (lines, dropped, left) := Polled(events, script);
            lines == Decoded(events) && dropped == Undecodable(events) && NoHardFailure(left)
  {
    if events == [] {
    } else if events[0].None? {
      PolledInFull(events[1..], script);
    } else {
      LinesSurviveSoftErrors(events[0].value, script);
      PolledInFull(events[1..], WriteLines(events[0].value, script).2);
    }
  }

  // ------------------------------------------------------------------------------ torn lines

  /** What the file holds after these. */
  function FileOf(puts: seq<Put>): string {
    if puts == [] then "" else FileOf(puts[..|puts| - 1]) + puts[|puts| - 1].Bytes()
  }

  /** The lines written in full. */
  function WholeLines(puts: seq<Put>): seq<string> {
    if puts == [] then []
    else WholeLines(puts[..|puts| - 1]) + (if puts[|puts| - 1].Whole() then [puts[|puts| - 1].line] else [])
  }

  /** What torn lines left at the end of the file, after the last line written in full. */
  function Torn(puts: seq<Put>): string {
    if puts == [] || puts[|puts| - 1].Whole() then ""
    else Torn(puts[..|puts| - 1]) + puts[|puts| - 1].Bytes()
  }

  /** What torn lines left in front of each line written in full. */
  function TornBefore(puts: seq<Put>): (r: seq<string>)
    ensures |r| == |WholeLines(puts)|
  {
    if puts == [] then []
    else
      var front := puts[..|puts| - 1];
      TornBefore(front) + (if puts[|puts| - 1].Whole() then [Torn(front)] else [])
  }

  lemma PutsAppend(puts: seq<Put>, p: Put)
    ensures FileOf(puts + [p]) == FileOf(puts) + p.Bytes()
    ensures WholeLines(puts + [p]) == WholeLines(puts) + (if p.Whole() then [p.line] else [])
    ensures Torn(puts + [p]) == if p.Whole() then "" else Torn(puts) + p.Bytes()
  {
    assert (puts + [p])[..|puts|] == puts;
  }

  /** Every line offered since is one of these. */
  ghost predicate OfferedIn(puts: seq<Put>, before: seq<Put>, lines: seq<string>) {
    forall p :: p in puts ==> p in before || p.line in lines
  }

  lemma OfferedOne(puts: seq<Put>, p: Put, before: seq<Put>, lines: seq<string>)
    requires OfferedIn(puts, before, lines) && p.line in lines
    ensures OfferedIn(puts + [p], before, lines)
  {
  }

  /** Every line offered since comes from one of these events. */
  ghost predicate Offered(puts: seq<Put>, before: seq<Put>, events: seq<Option<seq<string>>>) {
    forall p :: p in puts ==> p in before || exists e :: e in events && e.Some? && p.line in e.value
  }

  lemma OfferedMore(puts: seq<Put>, now: seq<Put>, before: seq<Put>, events: seq<Option<seq<string>>>, i: nat)
    requires i < |events| && OfferedIn(puts, now, if events[i].Some? then events[i].value else []) && Offered(now, before, events)
    ensures Offered(puts, before, events)
  {
    assert events[i] in events;
  }

  /** Event `i` is reached with these lines written and these events lost. */
  ghost predicate PollAt(events: seq<Option<seq<string>>>, script: seq<WriteResult>, i: nat, rest: seq<WriteResult>,
                         written: seq<string>, lost: nat)
    requires i <= |events|
  {
    var (all, now) := (Polled(events, script), Polled(events[i..], rest));
    && all.0 == written + now.0 && all.1 == lost + now.1 && all.2 == now.2
    && lost + Undecodable(events[i..]) >= Undecodable(events)
  }

  lemma PollAdvances(events: seq<Option<seq<string>>>, script: seq<WriteResult>, i: nat, rest: seq<WriteResult>,
                     written: seq<string>, lost: nat)
    requires i < |events| && PollAt(events, script, i, rest, written, lost)
    ensures var h := Handled(events[i], rest);
            && PollAt(events, script, i + 1, h.2, written + h.0, lost + h.1)
            && lost + Undecodable(events[i..]) + (if events[i].Some? && h.1 == 1 then 1 else 0)
               == lost + h.1 + Undecodable(events[i + 1..])
  {
    PolledStep(events, i, rest, written, lost);
    UndecodableStep(events, i, rest);
  }

  // ------------------------------------------------------------------------------------ session

  /** The capture session.  `puts` are the lines offered to the log and `log` those written in full,
      which is what the file holds as long as no write failed hard. */
  class Session {
    const wal: WalWriter
    var started: bool
    var eventsWritten: nat
    var eventsDropped: nat
    ghost var log: seq<string>
    ghost var puts: seq<Put>
    ghost var torn: bool

    ghost predicate Valid()
      reads this, wal
    {
      && (started ==> wal.isOpen)
      && wal.file == FileOf(puts) && log == WholeLines(puts)
      && eventsWritten == |log| && wal.linesWritten == |log|
      && (!torn ==> wal.file == LogBytes(log))
    }

    constructor ()
      ensures Valid() && started && !torn && log == [] && puts == [] && fresh(wal) && eventsDropped == 0
    {
      wal := new WalWriter();
      started, eventsWritten, eventsDropped, log, puts, torn := true, 0, 0, [], [], false;
    }

    /** Write one line and count it. */
    method WriteOne(line: string, script: seq<WriteResult>) returns (ok: bool, rest: seq<WriteResult>)
      requires Valid() && started && line != ""
      modifies this, wal
      ensures Valid() && started && eventsDropped == old(eventsDropped)
      ensures ok <==> Attempt(|line| + 1, script).1
      ensures rest == Attempt(|line| + 1, script).2
      ensures ok ==> log == old(log) + [line] && torn == old(torn) && eventsWritten == old(eventsWritten) + 1
      ensures !ok ==> torn && log == old(log) && eventsWritten == old(eventsWritten)
      ensures puts == old(puts) + [Put(line, Attempt(|line| + 1, script).0)]
    {
      ghost var put := Put(line, Attempt(|line| + 1, script).0);
      PutsAppend(puts, put);
      TakenBytes(put);
      ok, rest := wal.WriteLine(line, script);
      puts := puts + [put];
      if ok {
        eventsWritten := eventsWritten + 1;
        LogBytesAppend(log, line);
        log := log + [line];
      } else {
        torn := true;
      }
    }

    /** Write an event's lines up to the first that fails. */
    method WriteEvent(lines: seq<string>, script: seq<WriteResult>) returns (ok: bool, rest: seq<WriteResult>)
      requires Valid() && started && forall l :: l in lines ==> l != ""
      modifies this, wal
      ensures Valid() && started && eventsDropped == old(eventsDropped) && torn == (old(torn) || !ok)
      ensures (ok, rest) == (WriteLines(lines, script).1, WriteLines(lines, script).2)
      ensures log == old(log) + lines[..WriteLines(lines, script).0]
      ensures eventsWritten == old(eventsWritten) + WriteLines(lines, script).0
      ensures OfferedIn(puts, old(puts), lines)
    {
      rest := script;
      var i := 0;
      assert lines[0..] == lines && log + lines[..0] == log;
      while i < |lines|
        invariant 0 <= i <= |lines|
        invariant Valid() && started && torn == old(torn) && eventsDropped == old(eventsDropped)
        invariant log == old(log) + lines[..i]
        invariant eventsWritten == old(eventsWritten) + i
        invariant Continues(WriteLines(lines, script), i, WriteLines(lines[i..], rest))
        invariant OfferedIn(puts, old(puts), lines)
      {
        assert lines[i] in lines;
        WriteLinesGoOn(WriteLines(lines, script), lines, i, rest);
        OfferedOne(puts, Put(lines[i], Attempt(|lines[i]| + 1, rest).0), old(puts), lines);
        ok, rest := WriteOne(lines[i], rest);
        if !ok {
          return;
        }
        TakeOne(old(log), lines, i);
        i := i + 1;
      }
      assert lines[|lines|..] == [] && lines[..|lines|] == lines;
      ok := true;
    }

    /** One raw event: undecodable (None), or its line followed by the synthesized ones.  The event
        counts as dropped when its lines did not all get written; those that did are counted. */
    method OnRawEvent(decoded: Option<seq<string>>, script: seq<WriteResult>) returns (rest: seq<WriteResult>)
      requires Valid() && started
      requires decoded.Some? ==> forall l :: l in decoded.value ==> l != ""
      modifies this, wal
      ensures Valid() && started
      ensures var (lines, dropped, left) := Handled(decoded, script);
              && rest == left && log == old(log) + lines
              && eventsWritten == old(eventsWritten) + |lines| && eventsDropped == old(eventsDropped) + dropped
              && torn == (old(torn) || (decoded.Some? && dropped == 1))
      ensures OfferedIn(puts, old(puts), if decoded.Some? then decoded.value else [])
    {
      rest := script;
      if decoded.None? {
        eventsDropped := eventsDropped + 1;
        assert log + [] == log;
        return;
      }
      var ok;
      ok, rest := WriteEvent(decoded.value, rest);
      if !ok {
        eventsDropped := eventsDropped + 1;
      }
    }

    /** Polling handles the raw events in order, and does nothing once stopped. */
    method Poll(events: seq<Option<seq<string>>>, script: seq<WriteResult>) returns (rest: seq<WriteResult>)
      requires Valid()
      requires forall e :: e in events && e.Some? ==> forall l :: l in e.value ==> l != ""
      modifies this, wal
      ensures Valid() && started == old(started)
      ensures !old(started) ==> rest == script && log == old(log) && torn == old(torn)
                                && eventsWritten == old(eventsWritten) && eventsDropped == old(eventsDropped)
      ensures old(started) ==>
                var (lines, dropped, left) := Polled(events, script);
                && rest == left && log == old(log) + lines
                && eventsWritten == old(eventsWritten) + |lines| && eventsDropped == old(eventsDropped) + dropped
                && torn == (old(torn) || dropped > Undecodable(events))
      ensures Offered(puts, old(puts), events)
    {
      rest := script;
      if !started {
        return;
      }
      ghost var written: seq<string>, lost: nat := [], 0;
      assert events[0..] == events && log + [] == log && [] + Polled(events, rest).0 == Polled(events, rest).0;
      for i := 0 to |events|
        invariant Valid() && started
        invariant log == old(log) + written
        invariant eventsWritten == old(eventsWritten) + |written| && eventsDropped == old(eventsDropped) + lost
        invariant PollAt(events, script, i, rest, written, lost)
        invariant torn == (old(torn) || lost + Undecodable(events[i..]) > Undecodable(events))
        invariant Offered(puts, old(puts), events)
      {
        PollAdvances(events, script, i, rest, written, lost);
        ghost var h := Handled(events[i], rest);
        ghost var now := puts;
        rest := OnRawEvent(events[i], rest);
        OfferedMore(puts, now, old(puts), events, i);
        written, lost := written + h.0, lost + h.1;
      }
    }

    /** Add the kernel's drop count once, however often stop is called. */
    method Stop(kernelDrops: Option<nat>)
      requires Valid()
      modifies this, wal
      ensures Valid() && !started && !wal.isOpen
      ensures eventsDropped == old(eventsDropped) + (if old(started) && kernelDrops.Some? then kernelDrops.value else 0)
      ensures log == old(log) && puts == old(puts) && torn == old(torn) && eventsWritten == old(eventsWritten)
      ensures wal.file == old(wal.file)
    {
      if started {
        if kernelDrops.Some? {
          eventsDropped := eventsDropped + kernelDrops.value;
        }
        started := false;
      }
      wal.Close();
    }
  }

  // ------------------------------------------------------------------------------------ reading

  datatype LineState<J> = LineState(line: string, overflow: bool, events: seq<J>, malformed: nat)

  function Start<J>(): LineState<J> { LineState("", false, [], 0) }

  function Flush<J>(parse: string -> Option<J>, st: LineState<J>): LineState<J> {
    if st.overflow then LineState("", false, st.events, st.malformed + 1)
    else if st.line == "" then st
    else
      match parse(st.line)
      case Some(j) => LineState("", false, st.events + [j], st.malformed)
      case None => LineState("", false, st.events, st.malformed + 1)
  }

  function Feed<J>(parse: string -> Option<J>, st: LineState<J>, c: char): LineState<J> {
    if c == '\n' then Flush(parse, st)
    else if st.overflow then st
    else st.(line := st.line + [c], overflow := |st.line| + 1 > MAX_LINE_BYTES)
  }

  function FeedAll<J>(parse: string -> Option<J>, bytes: string): LineState<J> {
    if bytes == "" then Start()
    else Feed(parse, FeedAll(parse, bytes[..|bytes| - 1]), bytes[|bytes| - 1])
  }

  lemma FeedOne<J>(parse: string -> Option<J>, bytes: string, c: char)
    ensures FeedAll(parse, bytes + [c]) == Feed(parse, FeedAll(parse, bytes), c)
  {
    assert (bytes + [c])[..|bytes|] == bytes;
  }

  function Concat(chunks: seq<string>): string {
    if chunks == [] then "" else Concat(chunks[..|chunks| - 1]) + chunks[|chunks| - 1]
  }

  /** End of a line: count it as malformed, skip it, or hand it to the callback. */
  method FlushLine<J>(parse: string -> Option<J>, line: string, overflow: bool, events: seq<J>, malformed: nat)
    returns (line': string, overflow': bool, events': seq<J>, malformed': nat)
    ensures LineState(line', overflow', events', malformed') == Flush(parse, LineState(line, overflow, events, malformed))
  {
    line', overflow', events', malformed' := line, overflow, events, malformed;
    if overflow' {
      malformed' := malformed' + 1;
      line' := "";
      overflow' := false;
      return;
    }
    if line' == "" {
      return;
    }
    var j := parse(line');
    if j.Some? {
      events' := events' + [j.value];
    } else {
      malformed' := malformed' + 1;
    }
    line' := "";
  }

  /** The inner loop over one chunk; `before` is all the text read before it. */
  method FeedChunk<J>(parse: string -> Option<J>, buf: string, ghost before: string,
                      line: string, overflow: bool, events: seq<J>, malformed: nat)
    returns (line': string, overflow': bool, events': seq<J>, malformed': nat)
    requires LineState(line, overflow, events, malformed) == FeedAll(parse, before)
    ensures LineState(line', overflow', events', malformed') == FeedAll(parse, before + buf)
  {
    line', overflow', events', malformed' := line, overflow, events, malformed;
    assert before + buf[..0] == before;
    for i := 0 to |buf|
      invariant LineState(line', overflow', events', malformed') == FeedAll(parse, before + buf[..i])
    {
      FeedOne(parse, before + buf[..i], buf[i]);
      assert before + buf[..i + 1] == before + buf[..i] + [buf[i]];
      if buf[i] == '\n' {
        line', overflow', events', malformed' := FlushLine(parse, line', overflow', events', malformed');
      } else if !overflow' {
        line' := line' + [buf[i]];
        if |line'| > MAX_LINE_BYTES {
          overflow' := true;
        }
      }
    }
    assert buf[..|buf|] == buf;
  }

  /** Streaming the log in chunks.  The outcome is that of the concatenated bytes, so it does not
      depend on where the chunks end; a read error keeps the callbacks made so far. */
  method ForEachEvent<J>(parse: string -> Option<J>, chunks: seq<string>, readError: bool)
    returns (events: seq<J>, malformed: nat, ok: bool)
    ensures ok == !readError
    ensures var st := FeedAll(parse, Concat(chunks)); var end := if ok then Flush(parse, st) else st;
            (events, malformed) == (end.events, end.malformed)
  {
    var line := "";
    var overflow := false;
    events, malformed := [], 0;
    for k := 0 to |chunks|
      invariant LineState(line, overflow, events, malformed) == FeedAll(parse, Concat(chunks[..k]))
    {
      line, overflow, events, malformed :=
        FeedChunk(parse, chunks[k], Concat(chunks[..k]), line, overflow, events, malformed);
      assert chunks[..k + 1][..k] == chunks[..k];
    }
    assert chunks[..|chunks|] == chunks;
    if readError {
      return events, malformed, false;
    }
    line, overflow, events, malformed := FlushLine(parse, line, overflow, events, malformed);
    ok := true;
  }

  // --------------------------------------------------------- what the reader delivers, line by line

  /** The pieces after one more character. */
  function SplitOn(r: seq<string>, c: char): (r': seq<string>)
    requires |r| > 0
    ensures |r'| > 0
  {
    if c == '\n' then r + [""] else r[..|r| - 1] + [r[|r| - 1] + [c]]
  }

  /** The text cut at its newlines; the last piece is what follows the last newline. */
  function Split(s: string): (r: seq<string>)
    ensures |r| > 0
  {
    if s == "" then [""]
    else
      SplitOn(Split(s[..|s| - 1]), s[|s| - 1])
  }

  predicate NoNewline(s: string) {
    forall i :: 0 <= i < |s| ==> s[i] != '\n'
  }

  /** The text the pieces were cut from. */
  function Rebuilt(r: seq<string>): string
    requires |r| > 0
  {
    LogBytes(r[..|r| - 1]) + r[|r| - 1]
  }

  lemma LastGrows(front: string, last: string, c: char)
    ensures front + (last + [c]) == front + last + [c]
  {
  }

  lemma RebuiltStep(r: seq<string>, c: char)
    requires |r| > 0
    ensures Rebuilt(SplitOn(r, c)) == Rebuilt(r) + [c]
  {
    var m := |r| - 1;
    if c == '\n' {
      LogBytesAppend(r[..m], r[m]);
      assert r[..m] + [r[m]] == r;
      assert SplitOn(r, c)[..|r|] == r;
      assert LogBytes(r) + "" == LogBytes(r);
    } else {
      assert SplitOn(r, c)[..m] == r[..m];
      LastGrows(LogBytes(r[..m]), r[m], c);
    }
  }

  lemma PiecesStep(r: seq<string>, c: char)
    requires |r| > 0 && forall p :: p in r ==> NoNewline(p)
    ensures forall p :: p in SplitOn(r, c) ==> NoNewline(p)
  {
    assert r[|r| - 1] in r;
  }

  /** Split really cuts at the newlines: no piece holds one, and the pieces rebuild the text. */
  lemma {:induction false} SplitRebuilds(s: string)
    ensures forall p :: p in Split(s) ==> NoNewline(p)
    ensures Rebuilt(Split(s)) == s
  {
    if s == "" {
    } else {
      var n := |s| - 1;
      SplitRebuilds(s[..n]);
      RebuiltStep(Split(s[..n]), s[n]);
      PiecesStep(Split(s[..n]), s[n]);
      assert s == s[..n] + [s[n]];
    }
  }

  /** What one line contributes: the cap on a line is 8 MiB. */
  function EventOf<J>(parse: string -> Option<J>, line: string): seq<J> {
    if line == "" || |line| > 8_388_608 || parse(line).None? then [] else [parse(line).value]
  }

  predicate IsMalformed<J>(parse: string -> Option<J>, line: string) {
    line != "" && (|line| > 8_388_608 || parse(line).None?)
  }

  function EventsOf<J>(parse: string -> Option<J>, lines: seq<string>): seq<J> {
    if lines == [] then []
    else EventsOf(parse, lines[..|lines| - 1]) + EventOf(parse, lines[|lines| - 1])
  }

  function MalformedIn<J>(parse: string -> Option<J>, lines: seq<string>): nat {
    if lines == [] then 0
    else MalformedIn(parse, lines[..|lines| - 1]) + (if IsMalformed(parse, lines[|lines| - 1]) then 1 else 0)
  }

  /** The reader's state when the pieces `r` have been read, the last one still open. */
  predicate StateIs<J(==)>(parse: string -> Option<J>, st: LineState<J>, r: seq<string>)
    requires |r| > 0
  {
    var m := |r| - 1;
    && st.events == EventsOf(parse, r[..m])
    && st.malformed == MalformedIn(parse, r[..m])
    && st.overflow == (|r[m]| > MAX_LINE_BYTES)
    && st.line == (if |r[m]| > MAX_LINE_BYTES then r[m][..MAX_LINE_BYTES + 1] else r[m])
  }

  /** Ending the open piece accounts for it. */
  lemma FlushState<J>(parse: string -> Option<J>, st: LineState<J>, r: seq<string>)
    requires |r| > 0 && StateIs(parse, st, r)
    ensures var end := Flush(parse, st);
            && end.events == EventsOf(parse, r) && end.malformed == MalformedIn(parse, r)
            && end.line == "" && !end.overflow
  {
  }

  lemma StateStep<J>(parse: string -> Option<J>, st: LineState<J>, r: seq<string>, c: char)
    requires |r| > 0 && StateIs(parse, st, r)
    ensures StateIs(parse, Feed(parse, st, c), SplitOn(r, c))
  {
    if c == '\n' {
      FlushState(parse, st, r);
      assert (r + [""])[..|r|] == r;
    } else {
      var m := |r| - 1;
      assert SplitOn(r, c)[..m] == r[..m];
    }
  }

  /** At every point the state is that of the finished lines plus the line being read, of which at
      most one byte more than the cap is buffered. */
  lemma {:induction false} ReaderState<J>(parse: string -> Option<J>, bytes: string)
    ensures StateIs(parse, FeedAll(parse, bytes), Split(bytes))
    ensures |FeedAll(parse, bytes).line| <= 8_388_609
  {
    if bytes == "" {
    } else {
      var n := |bytes| - 1;
      ReaderState(parse, bytes[..n]);
      StateStep(parse, FeedAll(parse, bytes[..n]), Split(bytes[..n]), bytes[n]);
    }
  }

  /** On arbitrary bytes the callbacks are exactly the parseable lines that fit the cap, in order,
      and every other nonempty line is counted as malformed. */
  lemma ReaderDelivers<J>(parse: string -> Option<J>, bytes: string)
    ensures var end := Flush(parse, FeedAll(parse, bytes));
            && end.events == EventsOf(parse, Split(bytes))
            && end.malformed == MalformedIn(parse, Split(bytes))
  {
    ReaderState(parse, bytes);
    FlushState(parse, FeedAll(parse, bytes), Split(bytes));
  }

  // --------------------------------------------------------------------------------- round trip

  lemma {:induction false} SplitLine(front: string, line: string)
    requires NoNewline(line)
    ensures var r := Split(front); Split(front + line) == r[..|r| - 1] + [r[|r| - 1] + line]
  {
    var r := Split(front);
    if line == "" {
      assert front + line == front && r[|r| - 1] + line == r[|r| - 1];
    } else {
      var m := |line| - 1;
      SplitLine(front, line[..m]);
      assert (front + line)[..|front| + m] == front + line[..m];
      assert line == line[..m] + [line[m]];
      assert r[|r| - 1] + line == r[|r| - 1] + line[..m] + [line[m]];
    }
  }

  lemma LastPiece(front: seq<string>, line: string)
    ensures var r := front + [""]; r[..|r| - 1] + [r[|r| - 1] + line] == front + [line]
  {
    assert (front + [""])[..|front|] == front && "" + line == line;
  }

  lemma SplitAtNewline(s: string)
    ensures Split(s + "\n") == Split(s) + [""]
  {
    assert (s + "\n")[..|s|] == s;
  }

  lemma {:induction false} SplitLog(lines: seq<string>)
    requires forall l :: l in lines ==> NoNewline(l)
    ensures Split(LogBytes(lines)) == lines + [""]
  {
    if lines == [] {
    } else {
      var m := |lines| - 1;
      SplitLog(lines[..m]);
      SplitLine(LogBytes(lines[..m]), lines[m]);
      LastPiece(lines[..m], lines[m]);
      assert lines[..m] + [lines[m]] == lines;
      SplitAtNewline(LogBytes(lines[..m]) + lines[m]);
    }
  }

  lemma {:induction false} EventsOfParseable<J>(parse: string -> Option<J>, lines: seq<string>)
    requires forall l :: l in lines ==> l != "" && |l| <= MAX_LINE_BYTES && parse(l).Some?
    ensures |EventsOf(parse, lines)| == |lines| && MalformedIn(parse, lines) == 0
    ensures forall i :: 0 <= i < |lines| ==> parse(lines[i]) == Some(EventsOf(parse, lines)[i])
  {
    if lines == [] {
    } else {
      EventsOfParseable(parse, lines[..|lines| - 1]);
    }
  }

  lemma LastAddsNothing<J>(parse: string -> Option<J>, lines: seq<string>)
    ensures EventsOf(parse, lines + [""]) == EventsOf(parse, lines)
    ensures MalformedIn(parse, lines + [""]) == MalformedIn(parse, lines)
  {
    assert (lines + [""])[..|lines|] == lines;
  }

  /** A line that reaches the callback: nonempty, free of newlines, within the cap and parseable. */
  predicate Deliverable<J>(parse: string -> Option<J>, line: string) {
    line != "" && NoNewline(line) && |line| <= 8_388_608 && parse(line).Some?
  }

  /** Round trip.  Lines that are nonempty, free of newlines, parseable and within the cap come back
      exactly once each, in order, for every chunking of the log; nothing is malformed. */
  lemma LogRoundTrip<J>(parse: string -> Option<J>, lines: seq<string>, chunks: seq<string>)
    requires forall l :: l in lines ==> Deliverable(parse, l)
    requires Concat(chunks) == LogBytes(lines)
    ensures var end := Flush(parse, FeedAll(parse, Concat(chunks)));
            && |end.events| == |lines| && end.malformed == 0
            && forall i :: 0 <= i < |lines| ==> parse(lines[i]) == Some(end.events[i])
  {
    SplitLog(lines);
    ReaderDelivers(parse, LogBytes(lines));
    EventsOfParseable(parse, lines);
    LastAddsNothing(parse, lines);
  }

  lemma {:induction false} DecodedMembers(events: seq<Option<seq<string>>>)
    ensures forall l :: l in Decoded(events) ==> exists e :: e in events && e.Some? && l in e.value
  {
    if events == [] {
    } else {
      DecodedMembers(events[1..]);
    }
  }

  // ----------------------------------------------------------------------------- after torn lines

  lemma {:induction false} OpenPiece(front: string, pieces: seq<string>, open: string, more: string)
    requires Split(front) == pieces + [open] && NoNewline(more)
    ensures Split(front + more) == pieces + [open + more]
    ensures Split(front + more + "\n") == pieces + [open + more] + [""]
  {
    SplitLine(front, more);
    assert (pieces + [open])[..|pieces|] == pieces;
    SplitAtNewline(front + more);
  }

  /** The lines of the file: each line written in full, behind what was torn since the last one. */
  function LinesRead(puts: seq<Put>): seq<string> {
    if puts == [] then []
    else
      var front, p := puts[..|puts| - 1], puts[|puts| - 1];
      LinesRead(front) + (if p.Whole() then [Torn(front) + p.line] else [])
  }

  lemma LinesReadAppend(puts: seq<Put>, p: Put)
    ensures LinesRead(puts + [p]) == LinesRead(puts) + (if p.Whole() then [Torn(puts) + p.line] else [])
  {
    assert (puts + [p])[..|puts|] == puts;
  }

  lemma WholeStep(puts: seq<Put>, p: Put)
    requires p.Whole() && NoNewline(p.line) && Split(FileOf(puts)) == LinesRead(puts) + [Torn(puts)]
    ensures Split(FileOf(puts + [p])) == LinesRead(puts + [p]) + [Torn(puts + [p])]
  {
    PutsAppend(puts, p);
    LinesReadAppend(puts, p);
    OpenPiece(FileOf(puts), LinesRead(puts), Torn(puts), p.line);
    assert FileOf(puts) + (p.line + "\n") == FileOf(puts) + p.line + "\n";
  }

  lemma TornStep(puts: seq<Put>, p: Put)
    requires !p.Whole() && NoNewline(p.line) && Split(FileOf(puts)) == LinesRead(puts) + [Torn(puts)]
    ensures Split(FileOf(puts + [p])) == LinesRead(puts + [p]) + [Torn(puts + [p])]
  {
    PutsAppend(puts, p);
    LinesReadAppend(puts, p);
    assert LinesRead(puts) + [] == LinesRead(puts);
    OpenPiece(FileOf(puts), LinesRead(puts), Torn(puts), p.Bytes());
  }

  /** Whatever the writes did: the file has one line for each line written in full, which is that line
      behind the torn ones since the last whole one, and ends in what was torn after the last. */
  lemma {:induction false} TornLog(puts: seq<Put>)
    requires forall p :: p in puts ==> NoNewline(p.line)
    ensures Split(FileOf(puts)) == LinesRead(puts) + [Torn(puts)]
  {
    if puts != [] {
      var front, p := puts[..|puts| - 1], puts[|puts| - 1];
      assert p in puts && puts == front + [p];
      TornLog(front);
      if p.Whole() {
        WholeStep(front, p);
      } else {
        TornStep(front, p);
      }
    }
  }

  lemma {:induction false} LinesReadSay(puts: seq<Put>)
    ensures |LinesRead(puts)| == |WholeLines(puts)| == |TornBefore(puts)|
    ensures forall k :: 0 <= k < |LinesRead(puts)| ==> LinesRead(puts)[k] == TornBefore(puts)[k] + WholeLines(puts)[k]
  {
    if puts != [] {
      LinesReadSay(puts[..|puts| - 1]);
    }
  }

  lemma {:induction false} EachLineCounts<J>(parse: string -> Option<J>, lines: seq<string>)
    requires forall i :: 0 <= i < |lines| ==> lines[i] != ""
    ensures |EventsOf(parse, lines)| + MalformedIn(parse, lines) == |lines|
  {
    if lines != [] {
      EachLineCounts(parse, lines[..|lines| - 1]);
    }
  }

  lemma {:induction false} WholeLineOffered(puts: seq<Put>)
    ensures forall l :: l in WholeLines(puts) ==> exists p :: p in puts && p.line == l
  {
    if puts != [] {
      WholeLineOffered(puts[..|puts| - 1]);
    }
  }

  lemma NoLineEmpty(puts: seq<Put>)
    requires forall p :: p in puts ==> p.line != ""
    ensures |LinesRead(puts)| == |WholeLines(puts)|
    ensures forall k :: 0 <= k < |LinesRead(puts)| ==> LinesRead(puts)[k] != ""
    ensures forall k :: 0 <= k < |WholeLines(puts)| ==> (LinesRead(puts)[k] == WholeLines(puts)[k] <==> TornBefore(puts)[k] == "")
  {
    LinesReadSay(puts);
    WholeLineOffered(puts);
    forall k | 0 <= k < |WholeLines(puts)| ensures LinesRead(puts)[k] != "" {
      assert WholeLines(puts)[k] in WholeLines(puts);
    }
  }

  lemma LastPieceCounts<J>(parse: string -> Option<J>, lines: seq<string>, last: string)
    ensures |EventsOf(parse, lines + [last])| + MalformedIn(parse, lines + [last])
            == |EventsOf(parse, lines)| + MalformedIn(parse, lines) + (if last == "" then 0 else 1)
  {
    assert (lines + [last])[..|lines|] == lines;
  }

  /** Nothing is lost silently.  Whatever the writes did, each line counted as written is one line of
      the log, which the reader either hands to the callback or counts as malformed, and so is the
      torn end if there is one; and the line is read as it was written if and only if no torn bytes
      stand before it. */
  lemma TornLogAccounts<J>(parse: string -> Option<J>, puts: seq<Put>, bytes: string)
    requires bytes == FileOf(puts) && forall p :: p in puts ==> p.line != "" && NoNewline(p.line)
    ensures var end := Flush(parse, FeedAll(parse, bytes));
            && |end.events| + end.malformed == |WholeLines(puts)| + (if Torn(puts) == "" then 0 else 1)
            && end.events == EventsOf(parse, LinesRead(puts) + [Torn(puts)])
    ensures |LinesRead(puts)| == |WholeLines(puts)|
    ensures forall k :: 0 <= k < |WholeLines(puts)| ==> (LinesRead(puts)[k] == WholeLines(puts)[k] <==> TornBefore(puts)[k] == "")
  {
    TornLog(puts);
    ReaderDelivers(parse, bytes);
    NoLineEmpty(puts);
    EachLineCounts(parse, LinesRead(puts));
    LastPieceCounts(parse, LinesRead(puts), Torn(puts));
  }

  /** A whole capture, read back.  Whatever the writes did, callbacks and malformed lines together are
      the events written, and the torn end if there is one; without hard write errors the reader calls
      back once per event written. */
  method CaptureThenRead<J>(parse: string -> Option<J>, polls: seq<seq<Option<seq<string>>>>, script: seq<WriteResult>,
                            kernelDrops: Option<nat>, chunks: seq<string>)
    returns (session: Session, events: seq<J>, malformed: nat)
    requires forall p, e, l :: p in polls && e in p && e.Some? && l in e.value ==> Deliverable(parse, l)
    ensures Concat(chunks) == session.wal.file ==>
              |events| + malformed == session.eventsWritten + (if Torn(session.puts) == "" then 0 else 1)
    ensures Concat(chunks) == session.wal.file && NoHardFailure(script) ==>
              |events| == session.eventsWritten == |session.log|
              && forall i :: 0 <= i < |events| ==> parse(session.log[i]) == Some(events[i])
  {
    session := new Session();
    var rest := script;
    for k := 0 to |polls|
      invariant session.Valid() && session.started && fresh(session) && fresh(session.wal)
      invariant NoHardFailure(script) ==> !session.torn && NoHardFailure(rest)
      invariant forall p :: p in session.puts ==> Deliverable(parse, p.line)
    {
      DecodedMembers(polls[k]);
      if NoHardFailure(rest) {
        PolledInFull(polls[k], rest);
      }
      rest := session.Poll(polls[k], rest);
    }
    session.Stop(kernelDrops);
    var ok;
    events, malformed, ok := ForEachEvent(parse, chunks, false);
    WholeLineOffered(session.puts);
    if Concat(chunks) == session.wal.file {
      TornLogAccounts(parse, session.puts, Concat(chunks));
      if NoHardFailure(script) {
        LogRoundTrip(parse, session.log, chunks);
      }
    }
  }

  // ------------------------------------------------------------ when a write fails, and what then

  /** The bytes a stretch of the script takes. */
  function Taken(script: seq<WriteResult>): nat {
    if script == [] then 0 else (if script[0].Wrote? then script[0].n else 0) + Taken(script[1..])
  }

  predicate Hard(w: WriteResult) {
    w == Failed || w == Wrote(0)
  }

  /** A write of `left` bytes that uses `used` calls of the script. */
  predicate Uses(left: nat, script: seq<WriteResult>, used: nat, done: nat, ok: bool) {
    && used <= |script|
    && (forall k :: 0 <= k < used ==> Taken(script[..k]) < left && (Hard(script[k]) ==> k == used - 1 && !ok))
    && (ok ==> done == left && (used == |script| || Taken(script[..used]) >= left))
    && (!ok ==> used > 0 && Hard(script[used - 1]) && done == Taken(script[..used - 1]))
  }

  lemma UsesStep(left: nat, script: seq<WriteResult>, taken: nat, used: nat, done: nat, ok: bool)
    requires script != [] && !Hard(script[0]) && left > 0 && taken == Taken(script[..1]) && taken < left
    requires Uses(left - taken, script[1..], used, done, ok)
    ensures Uses(left, script, used + 1, taken + done, ok)
  {
    forall k | 1 <= k <= |script| ensures Taken(script[..k]) == taken + Taken(script[1..][..k - 1]) {
      assert script[..k][1..] == script[1..][..k - 1];
      assert script[..1][1..] == [];
    }
    forall k | 0 <= k < used + 1
      ensures Taken(script[..k]) < left && (Hard(script[k]) ==> k == used && !ok)
    {
      if k > 0 {
        assert script[k] == script[1..][k - 1];
      }
    }
    assert used > 0 ==> script[used] == script[1..][used - 1];
  }

  lemma FirstTaken(script: seq<WriteResult>)
    requires script != []
    ensures Taken(script[..0]) == 0 && Taken(script[..1]) == if script[0].Wrote? then script[0].n else 0
  {
    assert script[..1] == [script[0]] && [script[0]][1..] == [];
  }

  lemma UsesOne(left: nat, script: seq<WriteResult>)
    requires left > 0 && script != [] && (Hard(script[0]) || Taken(script[..1]) >= left)
    ensures var (done, ok, rest) := Attempt(left, script); rest == script[1..] && Uses(left, script, 1, done, ok)
  {
    FirstTaken(script);
  }

  /** A write goes through the script call by call.  It ends as soon as the calls have taken all the
      bytes, or at the first failure or write of nothing before that, and then the bytes taken until
      there are written and the line is lost; interruptions and short writes never end it. */
  lemma {:induction false} AttemptSays(left: nat, script: seq<WriteResult>)
    ensures var (done, ok, rest) := Attempt(left, script);
            |rest| <= |script| && rest == script[|script| - |rest|..] && Uses(left, script, |script| - |rest|, done, ok)
    decreases |script|
  {
    if left == 0 || script == [] {
      assert Uses(left, script, 0, left, true);
    } else {
      FirstTaken(script);
      var n := Taken(script[..1]);
      if Hard(script[0]) || n >= left {
        UsesOne(left, script);
      } else {
        AttemptSays(left - n, script[1..]);
        var (done, ok, rest) := Attempt(left - n, script[1..]);
        assert Attempt(left, script) == (n + done, ok, rest);
        UsesStep(left, script, n, |script| - 1 - |rest|, done, ok);
      }
    }
  }

  lemma {:induction false} TakenGrows(script: seq<WriteResult>, i: nat, k: nat)
    requires i <= k <= |script|
    ensures Taken(script[..i]) <= Taken(script[..k])
  {
    if i > 0 {
      TakenGrows(script[1..], i - 1, k - 1);
      assert script[..i][1..] == script[1..][..i - 1] && script[..k][1..] == script[1..][..k - 1];
    }
  }

  /** When a line is lost: exactly when a failure or a write of nothing is met while bytes are left. */
  lemma AttemptFailsIff(left: nat, script: seq<WriteResult>)
    ensures !Attempt(left, script).1 <==> exists k :: 0 <= k < |script| && Hard(script[k]) && Taken(script[..k]) < left
  {
    AttemptSays(left, script);
    var (done, ok, rest) := Attempt(left, script);
    var used := |script| - |rest|;
    if k :| 0 <= k < |script| && Hard(script[k]) && Taken(script[..k]) < left {
      if ok && used <= k {
        TakenGrows(script, used, k);
      }
    }
  }

  /** `scripts[i]` is what remains of the script when line `i` is begun. */
  predicate Begins(lines: seq<string>, scripts: seq<seq<WriteResult>>, k: nat)
    requires k <= |lines| && |scripts| == k + 1
  {
    forall i :: 0 <= i < k ==> Attempt(|lines[i]| + 1, scripts[i]).1 && scripts[i + 1] == Attempt(|lines[i]| + 1, scripts[i]).2
  }

  lemma BeginsMore(lines: seq<string>, script: seq<WriteResult>, scripts: seq<seq<WriteResult>>, k: nat)
    requires lines != [] && k < |lines| && |scripts| == k + 1 && Begins(lines[1..], scripts, k)
    requires Attempt(|lines[0]| + 1, script).1 && scripts[0] == Attempt(|lines[0]| + 1, script).2
    ensures Begins(lines, [script] + scripts, k + 1)
  {
    var all := [script] + scripts;
    forall i | 0 <= i < k + 1
      ensures Attempt(|lines[i]| + 1, all[i]).1 && all[i + 1] == Attempt(|lines[i]| + 1, all[i]).2
    {
      if i > 0 {
        assert lines[i] == lines[1..][i - 1] && all[i] == scripts[i - 1];
      }
    }
  }

  /** An event's lines are written one after the other, each with its newline, up to the first that
      fails; nothing is tried after that one. */
  lemma {:induction false} WriteLinesSays(lines: seq<string>, script: seq<WriteResult>) returns (scripts: seq<seq<WriteResult>>)
    ensures var (k, ok, rest) := WriteLines(lines, script);
            && |scripts| == k + 1 && scripts[0] == script && Begins(lines, scripts, k)
            && (k == |lines| ==> ok && rest == scripts[k])
            && (k < |lines| ==> !ok && !Attempt(|lines[k]| + 1, scripts[k]).1 && rest == Attempt(|lines[k]| + 1, scripts[k]).2)
  {
    scripts := [script];
    if lines != [] && Attempt(|lines[0]| + 1, script).1 {
      var more := WriteLinesSays(lines[1..], Attempt(|lines[0]| + 1, script).2);
      scripts := [script] + more;
      BeginsMore(lines, script, more, WriteLines(lines[1..], Attempt(|lines[0]| + 1, script).2).0);
    }
  }

  /** An event is dropped, once, if it cannot be decoded or not all its lines get written; the lines
      that were written before stay. */
  lemma HandledSays(event: Option<seq<string>>, script: seq<WriteResult>)
    ensures var (lines, dropped, rest) := Handled(event, script);
            && dropped == (if event.None? || lines != event.value then 1 else 0)
            && (event.None? ==> lines == [] && rest == script)
            && (event.Some? ==> lines <= event.value && |lines| == WriteLines(event.value, script).0)
  {
  }

  /** Polling goes on after an event that was dropped: what the second half of a batch makes is what
      it makes of the script the first half leaves. */
  lemma {:induction false} PolledAppend(a: seq<Option<seq<string>>>, b: seq<Option<seq<string>>>, script: seq<WriteResult>)
    ensures var (p, q, r) := (Polled(a, script), Polled(b, Polled(a, script).2), Polled(a + b, script));
            r.0 == p.0 + q.0 && r.1 == p.1 + q.1 && r.2 == q.2
    decreases |a|
  {
    if a == [] {
      assert a + b == b;
    } else {
      assert (a + b)[0] == a[0] && (a + b)[1..] == a[1..] + b;
      PolledAppend(a[1..], b, Handled(a[0], script).2);
    }
  }

  lemma PolledOne(event: Option<seq<string>>, script: seq<WriteResult>)
    ensures var (h, p) := (Handled(event, script), Polled([event], script)); p.0 == h.0 && p.1 == h.1 && p.2 == h.2
  {
    var one := [event];
    assert one[1..] == [];
    assert Polled(one[1..], Handled(event, script).2).0 == [];
  }
}
