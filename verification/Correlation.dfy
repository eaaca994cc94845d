/** Enter/exit correlation of syscalls in the kernel-side producer.

    An enter handler stashes the call's arguments in an LRU map under (thread, kind); the exit
    handler looks the entry up, submits one record that adds the return value, and deletes the
    entry.  Threads interleave, the kernel may evict any entry, ring-buffer reservations and map
    updates may fail.  A run is a sequence of steps; each handler invocation is one atomic step. */
module Correlation {

  datatype Domain = File | Syscall | Network

  /** The correlation key: the thread's pid_tgid word and the event kind (or syscall number). */
  datatype Key = Key(pidTgid: nat, kind: int)

  /** The saved payload.  `args` stands for everything the enter handler reads from the call. */
  datatype Event<A> = Event(key: Key, ts: nat, isEnter: bool, args: A, ret: int)

  /** One handler invocation or one eviction, with the answers its environment gives:
      `gate` the event and probe gates, `admitted` the is_socket_fd check (true where the handler
      has none), `reserved` the ring-buffer reservation, `scratch` the per-CPU scratch slot (true
      where the handler uses none), `updated` the map update. */
  datatype Step<A> =
    | Enter(key: Key, args: A, now: nat, gate: bool, admitted: bool, reserved: bool, scratch: bool, updated: bool)
    | Exit(key: Key, ret: int, now: nat, gate: bool, reserved: bool)
    | Evict(key: Key)

  /** The drop counters of one domain; `reserveFail` counts enter and exit reservations alike. */
  datatype Stats = Stats(reserveFail: nat, saveFail: nat, collision: nat, miss: nat)

  datatype State<A> = State(pending: map<Key, Event<A>>, submitted: seq<Event<A>>, stats: Stats)

  /** What became of a step. */
  datatype Outcome =
    | Ignored | NotAdmitted | EnterReserveFailed | NoScratch | Collided | SaveFailed | Stored
    | Missed | ExitReserveFailed | Submitted
    | Evicted | NothingToEvict

  /** Two's-complement truncation to 32 bits. */
  function ToS32(x: int): (r: int)
    ensures -0x8000_0000 <= r < 0x8000_0000
    ensures (r - x) % 0x1_0000_0000 == 0
  {
    (x + 0x8000_0000) % 0x1_0000_0000 - 0x8000_0000
  }

  /** The return value as the record's field can hold it: 64 bits for syscall events, else 32. */
  function RetField(d: Domain, ret: int): int {
    if d.Syscall? then ret else ToS32(ret)
  }

  function Payload<A>(d: Domain, s: Step<A>): Event<A>
    requires s.Enter?
  {
    Event(s.key, s.now, d.Syscall?, s.args, 0)
  }

  /** The submitted record: the saved payload with the exit's time and return value. */
  function Finalized<A>(d: Domain, e: Event<A>, s: Step<A>): Event<A>
    requires s.Exit?
  {
    e.(ts := s.now, isEnter := false, ret := RetField(d, s.ret))
  }

  const Init0: Stats := Stats(0, 0, 0, 0)

  function Init<A>(): State<A> {
    State(map[], [], Init0)
  }

  function OutcomeOf<A>(pending: map<Key, Event<A>>, s: Step<A>): Outcome {
    match s
    case Enter(k, _, _, gate, admitted, reserved, scratch, updated) =>
      if !gate then Ignored
      else if !admitted then NotAdmitted
      else if !reserved then EnterReserveFailed
      else if !scratch then NoScratch
      else if k in pending then Collided
      else if !updated then SaveFailed
      else Stored
    case Exit(k, _, _, gate, reserved) =>
      if !gate then Ignored
      else if k !in pending then Missed
      else if !reserved then ExitReserveFailed
      else Submitted
    case Evict(k) => if k in pending then Evicted else NothingToEvict
  }

  /** The state after a step. */
  function Next<A>(d: Domain, st: State<A>, s: Step<A>): State<A> {
    match OutcomeOf(st.pending, s)
    case Stored => st.(pending := st.pending[s.key := Payload(d, s)])
    case Submitted => st.(pending := st.pending - {s.key},
                          submitted := st.submitted + [Finalized(d, st.pending[s.key], s)])
    case ExitReserveFailed => st.(pending := st.pending - {s.key},
                                  stats := st.stats.(reserveFail := st.stats.reserveFail + 1))
    case EnterReserveFailed => st.(stats := st.stats.(reserveFail := st.stats.reserveFail + 1))
    case Collided => st.(stats := st.stats.(collision := st.stats.collision + 1))
    case SaveFailed => st.(stats := st.stats.(saveFail := st.stats.saveFail + 1))
    case Missed => st.(stats := st.stats.(miss := st.stats.miss + 1))
    case Evicted => st.(pending := st.pending - {s.key})
    case _ => st
  }

  /** The state a whole run leads to. */
  function Run<A>(d: Domain, run: seq<Step<A>>): State<A> {
    if run == [] then Init()
    else Next(d, Run(d, run[..|run| - 1]), run[|run| - 1])
  }

  /** The outcome of step `j` of a run. */
  function OutcomeAt<A>(d: Domain, run: seq<Step<A>>, j: nat): Outcome
    requires j < |run|
  {
    OutcomeOf(Run(d, run[..j]).pending, run[j])
  }

  /** The maps, ring buffer and counters of one domain, and the handlers that update them. */
  class Probe<A> {
    const domain: Domain
    var enterState: map<Key, Event<A>>
    var submitted: seq<Event<A>>
    var reserveFail: nat
    var saveFail: nat
    var collision: nat
    var miss: nat

    ghost function View(): State<A>
      reads this
    {
      State(enterState, submitted, Stats(reserveFail, saveFail, collision, miss))
    }

    constructor (domain: Domain)
      ensures this.domain == domain && View() == Run(domain, [])
    {
      this.domain := domain;
      enterState, submitted := map[], [];
      reserveFail, saveFail, collision, miss := 0, 0, 0, 0;
    }

    /** Stash an enter payload unless the key is taken; the scratch record is discarded. */
    method SaveEnterState(key: Key, ev: Event<A>, updated: bool) returns (rc: int)
      modifies this`enterState, this`collision, this`saveFail
      ensures rc == 0 <==> key !in old(enterState) && updated
      ensures enterState == if rc == 0 then old(enterState)[key := ev] else old(enterState)
      ensures collision == old(collision) + (if key in old(enterState) then 1 else 0)
      ensures saveFail == old(saveFail) + (if key !in old(enterState) && !updated then 1 else 0)
    {
      if key in enterState {
        collision := collision + 1;
        return -1;
      }
      if updated {
        enterState := enterState[key := ev];
        rc := 0;
      } else {
        saveFail := saveFail + 1;
        rc := -1;
      }
    }

    /** The gated enter handlers. */
    method OnEnter(key: Key, args: A, now: nat, gate: bool, admitted: bool, reserved: bool, scratch: bool, updated: bool)
      modifies this
      ensures View() == Next(domain, old(View()), Enter(key, args, now, gate, admitted, reserved, scratch, updated))
    {
      if !gate || !admitted {
        return;
      }
      if !reserved {
        reserveFail := reserveFail + 1;
        return;
      }
      if !scratch {
        return;
      }
      var ev := Event(key, now, false, args, 0);
      if domain.Syscall? {
        ev := ev.(isEnter := true);
      }
      var _ := SaveEnterState(key, ev, updated);
    }

    /** Look the entry up, submit the completed record, and delete the entry on every path. */
    method EmitExitEvent(key: Key, retCode: int, now: nat, reserved: bool)
      modifies this
      ensures View() == Next(domain, old(View()), Exit(key, retCode, now, true, reserved))
    {
      if key !in enterState {
        miss := miss + 1;
        return;
      }
      var saved := enterState[key];
      if !reserved {
        reserveFail := reserveFail + 1;
        enterState := enterState - {key};
        return;
      }
      var out := saved;
      out := out.(ts := now);
      if domain.Syscall? {
        out := out.(isEnter := false, ret := retCode);
      } else {
        out := out.(isEnter := false, ret := ToS32(retCode));
      }
      submitted := submitted + [out];
      enterState := enterState - {key};
    }

    method OnExit(key: Key, ret: int, now: nat, gate: bool, reserved: bool)
      modifies this
      ensures View() == Next(domain, old(View()), Exit(key, ret, now, gate, reserved))
    {
      if gate {
        EmitExitEvent(key, ret, now, reserved);
      }
    }

    /** The kernel reclaims an LRU entry. */
    method OnEvict(key: Key)
      modifies this`enterState
      ensures View() == Next(domain, old(View()), Evict(key))
    {
      enterState := enterState - {key};
    }
  }

  // ---------------------------------------------------------------- conservation, over all runs

  function Hit(o: Outcome, p: Outcome): nat {
    if o == p then 1 else 0
  }

  /** How many steps of the run had outcome `o`. */
  function Count<A>(d: Domain, run: seq<Step<A>>, o: Outcome): nat {
    if run == [] then 0
    else
      var n := |run| - 1;
      Count(d, run[..n], o) + Hit(OutcomeOf(Run(d, run[..n]).pending, run[n]), o)
  }

  /** Enter handlers that passed the event and probe gates. */
  function GatedEntries<A>(run: seq<Step<A>>): nat {
    if run == [] then 0
    else
      var n := |run| - 1;
      GatedEntries(run[..n]) + (if run[n].Enter? && run[n].gate then 1 else 0)
  }

  function GatedExits<A>(run: seq<Step<A>>): nat {
    if run == [] then 0
    else
      var n := |run| - 1;
      GatedExits(run[..n]) + (if run[n].Exit? && run[n].gate then 1 else 0)
  }

  lemma EntryTally<A>(d: Domain, st: State<A>, s: Step<A>)
    ensures var o := OutcomeOf(st.pending, s); var st' := Next(d, st, s);
            && Hit(o, EnterReserveFailed) + Hit(o, Stored) + Hit(o, NotAdmitted) + Hit(o, NoScratch)
               + st'.stats.collision + st'.stats.saveFail
               == st.stats.collision + st.stats.saveFail + (if s.Enter? && s.gate then 1 else 0)
  {
  }

  lemma {:induction false} EntriesConserved<A>(d: Domain, run: seq<Step<A>>)
    ensures var st := Run(d, run);
            GatedEntries(run) == Count(d, run, EnterReserveFailed) + st.stats.collision + st.stats.saveFail
                                 + Count(d, run, Stored)
                                 + Count(d, run, NotAdmitted) + Count(d, run, NoScratch)
  {
    if run == [] {
    } else {
      var n := |run| - 1;
      EntriesConserved(d, run[..n]);
      EntryTally(d, Run(d, run[..n]), run[n]);
    }
  }

  lemma PendingForm<A>(d: Domain, st: State<A>, s: Step<A>)
    ensures var o, p := OutcomeOf(st.pending, s), Next(d, st, s).pending;
            if o == Stored then s.Enter? && s.key !in st.pending && p == st.pending[s.key := Payload(d, s)]
            else if o == Submitted || o == ExitReserveFailed || o == Evicted then s.key in st.pending && p == st.pending - {s.key}
            else p == st.pending
  {
  }

  lemma KeyAdded<V>(m: map<Key, V>, k: Key, v: V)
    ensures k !in m ==> |m[k := v]| == |m| + 1
  {
  }

  lemma KeyRemoved<V>(m: map<Key, V>, k: Key)
    ensures k in m ==> |m - {k}| + 1 == |m|
  {
    if k in m {
      assert m == (m - {k})[k := m[k]];
    }
  }

  /** How many keys a step adds to the map, and how many it removes. */
  lemma PendingSize<A>(d: Domain, st: State<A>, s: Step<A>)
    ensures var o := OutcomeOf(st.pending, s);
            |Next(d, st, s).pending| + Hit(o, Submitted) + Hit(o, ExitReserveFailed) + Hit(o, Evicted)
            == |st.pending| + Hit(o, Stored)
  {
    PendingForm(d, st, s);
    KeyRemoved(st.pending, s.key);
    if s.Enter? {
      KeyAdded(st.pending, s.key, Payload(d, s));
    }
  }

  lemma StepSizes<A>(d: Domain, st: State<A>, s: Step<A>)
    ensures var o := OutcomeOf(st.pending, s);
            |Next(d, st, s).pending| + |Next(d, st, s).submitted| + Hit(o, ExitReserveFailed) + Hit(o, Evicted)
            == |st.pending| + |st.submitted| + Hit(o, Stored)
  {
    PendingSize(d, st, s);
  }

  lemma {:induction false} StoredConserved<A>(d: Domain, run: seq<Step<A>>)
    ensures var st := Run(d, run);
            Count(d, run, Stored) == |st.submitted| + Count(d, run, ExitReserveFailed)
                                     + Count(d, run, Evicted) + |st.pending|
  {
    if run == [] {
    } else {
      var n := |run| - 1;
      StoredConserved(d, run[..n]);
      StepSizes(d, Run(d, run[..n]), run[n]);
    }
  }

  lemma ExitTally<A>(d: Domain, st: State<A>, s: Step<A>)
    ensures var o := OutcomeOf(st.pending, s); var st' := Next(d, st, s);
            && st'.stats.miss + Hit(o, ExitReserveFailed) + |st'.submitted|
               == st.stats.miss + |st.submitted| + (if s.Exit? && s.gate then 1 else 0)
            && st'.stats.reserveFail
               == st.stats.reserveFail + Hit(o, EnterReserveFailed) + Hit(o, ExitReserveFailed)
  {
  }

  lemma {:induction false} ExitsConserved<A>(d: Domain, run: seq<Step<A>>)
    ensures var st := Run(d, run);
            && GatedExits(run) == st.stats.miss + Count(d, run, ExitReserveFailed) + |st.submitted|
            && st.stats.reserveFail == Count(d, run, EnterReserveFailed) + Count(d, run, ExitReserveFailed)
  {
    if run == [] {
    } else {
      var n := |run| - 1;
      ExitsConserved(d, run[..n]);
      ExitTally(d, Run(d, run[..n]), run[n]);
    }
  }

  /** Every gated entry, every stored entry and every gated exit is accounted for exactly once. */
  lemma Conservation<A>(d: Domain, run: seq<Step<A>>)
    ensures var st := Run(d, run);
            && GatedEntries(run) == Count(d, run, EnterReserveFailed) + st.stats.collision + st.stats.saveFail
                                    + Count(d, run, Stored)
                                    + Count(d, run, NotAdmitted) + Count(d, run, NoScratch)
            && Count(d, run, Stored) == |st.submitted| + Count(d, run, ExitReserveFailed)
                                        + Count(d, run, Evicted) + |st.pending|
            && GatedExits(run) == st.stats.miss + Count(d, run, ExitReserveFailed) + |st.submitted|
            && st.stats.reserveFail == Count(d, run, EnterReserveFailed) + Count(d, run, ExitReserveFailed)
  {
    EntriesConserved(d, run);
    StoredConserved(d, run);
    ExitsConserved(d, run);
  }

  /** The file and syscall handlers have neither a socket check nor a scratch slot: there the two
      extra loss terms of Conservation vanish. */
  lemma {:induction false} NoExtraLosses<A>(d: Domain, run: seq<Step<A>>)
    requires forall j :: 0 <= j < |run| && run[j].Enter? ==> run[j].admitted && run[j].scratch
    ensures Count(d, run, NotAdmitted) == 0 && Count(d, run, NoScratch) == 0
  {
    if run == [] {
    } else {
      NoExtraLosses(d, run[..|run| - 1]);
    }
  }

  // ------------------------------------------------------------------- provenance, over all runs

  /** The index of the entry that stored what is now pending under `key`; -1 if nothing is. */
  function Origin<A>(d: Domain, run: seq<Step<A>>, key: Key): (r: int)
    ensures -1 <= r < |run|
  {
    if run == [] then -1
    else
      var n := |run| - 1;
      var s := run[n];
      if s.key != key then Origin(d, run[..n], key)
      else
        match OutcomeOf(Run(d, run[..n]).pending, s)
        case Stored => n
        case Submitted => -1
        case ExitReserveFailed => -1
        case Evicted => -1
        case _ => Origin(d, run[..n], key)
  }

  /** From step `lo` on, neither a gated exit nor an eviction touches the key. */
  ghost predicate Untouched<A>(run: seq<Step<A>>, lo: nat, key: Key) {
    forall m :: lo <= m < |run| && run[m].key == key ==> !run[m].Evict? && !(run[m].Exit? && run[m].gate)
  }

  /** What is pending under `key` is what step `i` stored, untouched since. */
  ghost predicate StoredBy<A>(d: Domain, run: seq<Step<A>>, key: Key, i: nat) {
    && i < |run| && run[i].Enter? && run[i].key == key
    && OutcomeAt(d, run, i) == Stored
    && key in Run(d, run).pending && Run(d, run).pending[key] == Payload(d, run[i])
    && Untouched(run, i + 1, key)
  }

  /** What one step does to one key. */
  lemma PendingAfter<A>(d: Domain, st: State<A>, s: Step<A>, key: Key)
    ensures var o := OutcomeOf(st.pending, s); var p := Next(d, st, s).pending;
            if s.key == key && o.Stored? then key in p && p[key] == Payload(d, s)
            else if s.key == key && (o.Submitted? || o.ExitReserveFailed? || o.Evicted?) then key !in p
            else (key in p <==> key in st.pending) && (key in p ==> p[key] == st.pending[key])
  {
  }

  lemma UntouchedExtends<A>(run: seq<Step<A>>, lo: nat, key: Key)
    requires |run| > 0 && lo < |run|
    requires Untouched(run[..|run| - 1], lo, key)
    requires var s := run[|run| - 1]; s.key == key ==> !s.Evict? && !(s.Exit? && s.gate)
    ensures Untouched(run, lo, key)
  {
    forall m | lo <= m < |run| && run[m].key == key ensures !run[m].Evict? && !(run[m].Exit? && run[m].gate) {
      if m < |run| - 1 {
        assert run[..|run| - 1][m] == run[m];
      }
    }
  }

  lemma StaysStored<A>(d: Domain, run: seq<Step<A>>, key: Key, i: nat)
    requires |run| > 0 && StoredBy(d, run[..|run| - 1], key, i)
    requires Origin(d, run, key) == i
    ensures StoredBy(d, run, key, i)
  {
    var n := |run| - 1;
    PendingAfter(d, Run(d, run[..n]), run[n], key);
    assert run[..n][..i] == run[..i];
    UntouchedExtends(run, i + 1, key);
  }

  /** Whatever is pending was stored by its origin, untouched since: no gated exit and no eviction
      of the key lies between. */
  lemma {:induction false} OriginExplainsPending<A>(d: Domain, run: seq<Step<A>>, key: Key)
    ensures var i := Origin(d, run, key);
            && (i >= 0 <==> key in Run(d, run).pending)
            && (i >= 0 ==> StoredBy(d, run, key, i))
  {
    if run == [] {
    } else {
      var n := |run| - 1;
      OriginExplainsPending(d, run[..n], key);
      PendingAfter(d, Run(d, run[..n]), run[n], key);
      var i := Origin(d, run[..n], key);
      if i >= 0 && Origin(d, run, key) == i {
        StaysStored(d, run, key, i);
      }
    }
  }

  /** Each submitted record completes the payload of exactly one stored entry of the same key. */
  lemma SubmittedHasOrigin<A>(d: Domain, run: seq<Step<A>>, j: nat)
    requires j < |run| && OutcomeAt(d, run, j) == Submitted
    ensures var i := Origin(d, run[..j], run[j].key);
            && 0 <= i < j && run[i].Enter? && run[i].key == run[j].key
            && OutcomeAt(d, run, i) == Stored
            && Run(d, run[..j + 1]).submitted
               == Run(d, run[..j]).submitted + [Finalized(d, Payload(d, run[i]), run[j])]
  {
    OriginExplainsPending(d, run[..j], run[j].key);
    var i := Origin(d, run[..j], run[j].key);
    assert run[..j][..i] == run[..i];
    assert run[..j + 1][..j] == run[..j];
  }

  /** No stored entry is emitted twice, in any run whatever. */
  lemma EmittedOnce<A>(d: Domain, run: seq<Step<A>>, j1: nat, j2: nat)
    requires j1 < j2 < |run|
    requires OutcomeAt(d, run, j1) == Submitted && OutcomeAt(d, run, j2) == Submitted
    ensures Origin(d, run[..j1], run[j1].key) != Origin(d, run[..j2], run[j2].key)
  {
    SubmittedHasOrigin(d, run, j1);
    OriginExplainsPending(d, run[..j2], run[j2].key);
    assert run[..j2][j1] == run[j1];
  }

  // ----------------------------------------------------------------- what is pending, by the inputs

  /** Step `t` is an entry none of whose checks, reservations and updates failed. */
  predicate Passes<A>(s: Step<A>) {
    s.Enter? && s.gate && s.admitted && s.reserved && s.scratch && s.updated
  }

  /** Step `i` is an entry of the key that passed, and neither a gated exit nor an eviction has
      touched the key since.  Only the steps are looked at, not the state. */
  ghost predicate OpenSince<A>(run: seq<Step<A>>, key: Key, i: nat) {
    i < |run| && run[i].key == key && Passes(run[i]) && Untouched(run, i + 1, key)
  }

  ghost predicate Open<A>(run: seq<Step<A>>, key: Key) {
    exists i: nat :: OpenSince(run, key, i)
  }

  lemma OpenShrinks<A>(run: seq<Step<A>>, key: Key, i: nat)
    requires |run| > 0 && i < |run| - 1 && OpenSince(run, key, i)
    ensures OpenSince(run[..|run| - 1], key, i)
    ensures var s := run[|run| - 1]; s.key == key ==> !s.Evict? && !(s.Exit? && s.gate)
  {
  }

  lemma {:induction false} OpenIsPending<A>(d: Domain, run: seq<Step<A>>, key: Key, i: nat)
    requires OpenSince(run, key, i)
    ensures key in Run(d, run).pending
  {
    var n := |run| - 1;
    if i < n {
      OpenShrinks(run, key, i);
      OpenIsPending(d, run[..n], key, i);
    }
    PendingAfter(d, Run(d, run[..n]), run[n], key);
  }

  /** Over every run, whatever the gates do: a key is pending if and only if some passing entry of it
      is open, and then the entry that stored it is such an entry. */
  lemma PendingIffOpen<A>(d: Domain, run: seq<Step<A>>, key: Key)
    ensures key in Run(d, run).pending <==> Open(run, key)
    ensures Origin(d, run, key) >= 0 <==> Open(run, key)
    ensures Open(run, key) ==> OpenSince(run, key, Origin(d, run, key))
  {
    OriginExplainsPending(d, run, key);
    var o := Origin(d, run, key);
    assert o >= 0 ==> OpenSince(run, key, o);
    if i: nat :| OpenSince(run, key, i) {
      OpenIsPending(d, run, key, i);
    }
  }

  /** A collision is counted exactly when an entry with its reservation finds its key open. */
  lemma CollidesIff<A>(d: Domain, run: seq<Step<A>>, j: nat)
    requires j < |run|
    ensures OutcomeAt(d, run, j) == Collided
            <==> run[j].Enter? && run[j].gate && run[j].admitted && run[j].reserved && run[j].scratch
                 && Open(run[..j], run[j].key)
  {
    PendingIffOpen(d, run[..j], run[j].key);
  }

  lemma {:induction false} CollisionsCounted<A>(d: Domain, run: seq<Step<A>>)
    ensures Run(d, run).stats.collision == Count(d, run, Collided)
  {
    if run == [] {
    } else {
      CollisionsCounted(d, run[..|run| - 1]);
    }
  }

  // ------------------------------------------------------------------------------------ pairing

  /** The index of the last enter or exit handler that ran under `key`; -1 if none did. */
  function LastCall<A>(run: seq<Step<A>>, key: Key): (r: int)
    ensures -1 <= r < |run|
    ensures r >= 0 ==> run[r].key == key && !run[r].Evict?
    ensures forall m :: r < m < |run| && run[m].key == key ==> run[m].Evict?
  {
    if run == [] then -1
    else
      var n := |run| - 1;
      if run[n].key == key && !run[n].Evict? then n else LastCall(run[..n], key)
  }

  ghost predicate AlternatesAt<A>(run: seq<Step<A>>, j: nat)
    requires j < |run|
  {
    var t := LastCall(run[..j], run[j].key);
    t >= 0 ==> (run[j].Enter? ==> run[t].Exit?) && (run[j].Exit? ==> run[t].Enter?)
  }

  /** Under every key, entries and exits alternate.  A capture that starts inside a call sees that
      call's exit first. */
  ghost predicate Alternating<A>(run: seq<Step<A>>) {
    forall j :: 0 <= j < |run| ==> AlternatesAt(run, j)
  }

  /** Between the last call and now the key is touched by evictions alone. */
  lemma {:induction false} OriginSinceCall<A>(d: Domain, run: seq<Step<A>>, key: Key, lo: nat)
    requires lo <= |run|
    requires forall m :: lo <= m < |run| && run[m].key == key ==> run[m].Evict?
    ensures Origin(d, run, key) >= 0 ==> Origin(d, run, key) == Origin(d, run[..lo], key)
    decreases |run|
  {
    if lo == |run| {
      assert run[..lo] == run;
    } else {
      var n := |run| - 1;
      OriginSinceCall(d, run[..n], key, lo);
      assert run[..n][..lo] == run[..lo];
      OriginExplainsPending(d, run[..n], key);
    }
  }

  lemma EntryStores<A>(d: Domain, run: seq<Step<A>>, key: Key)
    requires |run| > 0 && run[|run| - 1].Enter? && run[|run| - 1].key == key && Origin(d, run, key) >= 0
    ensures Origin(d, run, key) == |run| - 1 <==> key !in Run(d, run[..|run| - 1]).pending
  {
    OriginExplainsPending(d, run[..|run| - 1], key);
  }

  /** When a key is pending after the entry `t` that last ran under it, `t` stored it if and only if
      the key was not open before. */
  lemma StoredByLastCall<A>(d: Domain, run: seq<Step<A>>, key: Key)
    requires var t := LastCall(run, key); t >= 0 && run[t].Enter? && Origin(d, run, key) >= 0
    ensures var t := LastCall(run, key); Origin(d, run, key) == t <==> !Open(run[..t], key)
  {
    var t := LastCall(run, key);
    OriginSinceCall(d, run, key, t + 1);
    assert run[..t + 1][..t] == run[..t];
    EntryStores(d, run[..t + 1], key);
    PendingIffOpen(d, run[..t], key);
  }

  /** When pairing holds.  In a run whose entries and exits alternate, whatever the gates do, an exit
      submits a record if and only if some entry of its key is open; that record completes the entry
      that opened the exit's own call if and only if no earlier entry was still open when that call
      began. */
  lemma PairsIff<A>(d: Domain, run: seq<Step<A>>, j: nat)
    requires Alternating(run) && j < |run| && run[j].Exit?
    ensures OutcomeAt(d, run, j) == Submitted <==> run[j].gate && run[j].reserved && Open(run[..j], run[j].key)
    ensures var key := run[j].key; var t := LastCall(run[..j], key);
            OutcomeAt(d, run, j) == Submitted ==>
              && t >= 0 && run[t].Enter?
              && (Origin(d, run[..j], key) == t <==> !Open(run[..t], key))
  {
    var key := run[j].key;
    var t := LastCall(run[..j], key);
    PendingIffOpen(d, run[..j], key);
    assert AlternatesAt(run, j);
    if OutcomeAt(d, run, j) == Submitted && t >= 0 {
      StoredByLastCall(d, run[..j], key);
      assert run[..j][..t] == run[..t];
    }
  }

  ghost predicate GateKept<A>(run: seq<Step<A>>, j: nat)
    requires j < |run|
  {
    var t := LastCall(run[..j], run[j].key);
    run[j].Exit? && t >= 0 ==> run[t].Enter? ==> run[t].gate == run[j].gate
  }

  /** Entries and exits alternate, and the gate answers alike at an entry and at its exit. */
  ghost predicate WellPaired<A>(run: seq<Step<A>>) {
    Alternating(run) && forall j :: 0 <= j < |run| ==> GateKept(run, j)
  }

  predicate EvictedBetween<A>(run: seq<Step<A>>, lo: int, key: Key) {
    exists m :: 0 <= m < |run| && lo < m && run[m] == Evict(key)
  }

  lemma WellPairedPrefix<A>(run: seq<Step<A>>, n: nat)
    requires WellPaired(run) && n <= |run|
    ensures WellPaired(run[..n])
  {
    forall j | 0 <= j < n ensures AlternatesAt(run[..n], j) && GateKept(run[..n], j) {
      assert run[..n][..j] == run[..j];
      assert AlternatesAt(run, j) && GateKept(run, j);
    }
  }

  /** In a well-paired run the only entry that can be open is that of the call in progress. */
  lemma {:induction false} OpenIsCurrent<A>(run: seq<Step<A>>, key: Key, i: nat)
    requires WellPaired(run)
    ensures OpenSince(run, key, i) <==> i == LastCall(run, key) && Passes(run[i]) && !EvictedBetween(run, i, key)
  {
    if OpenSince(run, key, i) && i < |run| - 1 {
      var n := |run| - 1;
      WellPairedPrefix(run, n);
      OpenShrinks(run, key, i);
      OpenIsCurrent(run[..n], key, i);
      assert AlternatesAt(run, n) && GateKept(run, n);
    }
  }

  /** In a well-paired run a key is pending exactly while its call is open, its entry passed, and
      the kernel has not evicted it. */
  lemma PendingIsOpenCall<A>(d: Domain, run: seq<Step<A>>, key: Key)
    requires WellPaired(run)
    ensures var t := LastCall(run, key); var p := Run(d, run).pending;
            && (key in p <==> t >= 0 && Passes(run[t]) && !EvictedBetween(run, t, key))
            && (key in p ==> p[key] == Payload(d, run[t]))
  {
    PendingIffOpen(d, run, key);
    OriginExplainsPending(d, run, key);
    var t := LastCall(run, key);
    if t >= 0 {
      OpenIsCurrent(run, key, t);
    }
    if i: nat :| OpenSince(run, key, i) {
      OpenIsCurrent(run, key, i);
      OpenIsCurrent(run, key, Origin(d, run, key));
    }
  }

  /** Pairing.  Under any interleaving, eviction and failure, an exit submits a record exactly when
      the entry that opened its call got stored and survived; the record then carries that entry's
      arguments and this exit's return value. */
  lemma Pairing<A>(d: Domain, run: seq<Step<A>>, j: nat)
    requires WellPaired(run) && j < |run| && run[j].Exit?
    ensures var key := run[j].key; var t := LastCall(run[..j], key);
            && (OutcomeAt(d, run, j) == Submitted
                <==> run[j].gate && run[j].reserved
                     && t >= 0 && Passes(run[t]) && !EvictedBetween(run[..j], t, key))
            && (OutcomeAt(d, run, j) == Submitted ==>
                  && run[t].Enter? && run[t].key == key
                  && Run(d, run[..j + 1]).submitted
                     == Run(d, run[..j]).submitted
                        + [Event(key, run[j].now, false, run[t].args, RetField(d, run[j].ret))])
  {
    WellPairedPrefix(run, j);
    PendingIsOpenCall(d, run[..j], run[j].key);
    assert run[..j + 1][..j] == run[..j];
  }

  lemma {:induction false} NeverCollides<A>(d: Domain, run: seq<Step<A>>)
    requires WellPaired(run)
    ensures Count(d, run, Collided) == 0
  {
    if run == [] {
    } else {
      var n := |run| - 1;
      WellPairedPrefix(run, n);
      NeverCollides(d, run[..n]);
      CollidesIff(d, run, n);
      assert AlternatesAt(run, n);
      if i: nat :| OpenSince(run[..n], run[n].key, i) {
        OpenIsCurrent(run[..n], run[n].key, i);
      }
    }
  }

  /** In a well-paired run no collision is ever counted. */
  lemma NoCollision<A>(d: Domain, run: seq<Step<A>>)
    requires WellPaired(run)
    ensures Run(d, run).stats.collision == 0
  {
    CollisionsCounted(d, run);
    NeverCollides(d, run);
  }

  /** A run that fails the condition of PairsIff: when the gate closes between an entry and its exit
      (a thread leaving the target cgroup inside a call), the entry outlives its call, the next entry
      collides with it, and the next exit submits the older call's arguments. */
  lemma GateFlipMispairs<A>(d: Domain, key: Key, before: A, after: A)
    ensures var run := [Enter(key, before, 0, true, true, true, true, true), Exit(key, 0, 1, false, true),
                        Enter(key, after, 2, true, true, true, true, true), Exit(key, 0, 3, true, true)];
            && Run(d, run).submitted == [Event(key, 3, false, before, RetField(d, 0))]
            && Run(d, run).stats.collision == 1
  {
    var e0: Step<A> := Enter(key, before, 0, true, true, true, true, true);
    var x1: Step<A> := Exit(key, 0, 1, false, true);
    var e2: Step<A> := Enter(key, after, 2, true, true, true, true, true);
    var x3: Step<A> := Exit(key, 0, 3, true, true);
    assert [e0, x1, e2, x3][..3] == [e0, x1, e2];
    assert [e0, x1, e2][..2] == [e0, x1];
    assert [e0, x1][..1] == [e0];
    assert [e0][..0] == [];
    var stale := Payload(d, e0);
    assert Run(d, [e0]) == State(map[key := stale], [], Init0);
    assert Run(d, [e0, x1]) == State(map[key := stale], [], Init0);
    assert Run(d, [e0, x1, e2]) == State(map[key := stale], [], Init0.(collision := 1));
  }

  // --------------------------------------------------------------- what a step adds, by the inputs

  /** Over every run, each counter and the number of records grow exactly on these inputs. */
  lemma StepSays<A>(d: Domain, run: seq<Step<A>>, j: nat)
    requires j < |run|
    ensures var (st, st') := (Run(d, run[..j]), Run(d, run[..j + 1]));
            var (s, open) := (run[j], Open(run[..j], run[j].key));
            && (st'.stats.miss - st.stats.miss == if s.Exit? && s.gate && !open then 1 else 0)
            && (st'.stats.collision - st.stats.collision
                == if s.Enter? && s.gate && s.admitted && s.reserved && s.scratch && open then 1 else 0)
            && (st'.stats.saveFail - st.stats.saveFail
                == if s.Enter? && s.gate && s.admitted && s.reserved && s.scratch && !open && !s.updated then 1 else 0)
            && (st'.stats.reserveFail - st.stats.reserveFail
                == if (s.Enter? && s.gate && s.admitted && !s.reserved) || (s.Exit? && s.gate && open && !s.reserved) then 1 else 0)
            && st.submitted <= st'.submitted
            && (|st'.submitted| - |st.submitted| == if s.Exit? && s.gate && s.reserved && open then 1 else 0)
  {
    PendingIffOpen(d, run[..j], run[j].key);
    assert run[..j + 1][..j] == run[..j];
  }

  /** The fields of a submitted record: the key, the exit's time and, as return value, all 64 bits for
      a syscall event; for the others a signed 32-bit number that is the return value whenever it fits
      and is congruent to it always.  The arguments are those of the entry that was pending. */
  lemma RecordSays<A>(d: Domain, run: seq<Step<A>>, j: nat)
    requires j < |run| && |Run(d, run[..j + 1]).submitted| > |Run(d, run[..j]).submitted|
    ensures var (r, s) := (Run(d, run[..j + 1]).submitted[|Run(d, run[..j]).submitted|], run[j]);
            && s.Exit? && r.key == s.key && r.ts == s.now && !r.isEnter
            && (d.Syscall? ==> r.ret == s.ret)
            && (!d.Syscall? ==> -0x8000_0000 <= r.ret < 0x8000_0000 && (r.ret - s.ret) % 0x1_0000_0000 == 0)
            && (!d.Syscall? && -0x8000_0000 <= s.ret < 0x8000_0000 ==> r.ret == s.ret)
            && var i := Origin(d, run[..j], s.key); 0 <= i < j && run[i].Enter? && r.args == run[i].args
  {
    StepSays(d, run, j);
    PendingIffOpen(d, run[..j], run[j].key);
    SubmittedHasOrigin(d, run, j);
  }
}
