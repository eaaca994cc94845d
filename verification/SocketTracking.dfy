/** The network handlers: enter/exit correlation together with the map of socket descriptors.

    Exits of socket, socketpair, accept and accept4 record the new descriptors under the caller's
    tgid, exits of close remove one, and the read/write family and close are recorded only for
    descriptors found in the map. */
module SocketTracking {
  import opened Basics
  import opened Correlation
  import opened NetworkEvent

  const TWO32: int := 0x1_0000_0000

  /** The part of the enter payload the socket map depends on: descriptor and result-array pointer. */
  datatype NetArgs = NetArgs(fd: int, peerFdPtr: int)

  datatype FdKey = FdKey(tgid: int, fd: int)

  /** A submitted network record: the correlated payload and the descriptor fields set at exit. */
  datatype NetRecord = NetRecord(base: Event<NetArgs>, fd: int, peerFd: int)

  /** `userFds` is what reading the socketpair result array yields; `added` and `addedPeer` say
      whether the updates of the socket map succeed. */
  datatype NetStep =
    | NetEnter(key: Key, fd: int, peerFdPtr: int, now: nat, gate: bool, reserved: bool, scratch: bool, updated: bool)
    | NetExit(key: Key, ret: int, now: nat, gate: bool, reserved: bool,
              userFds: Option<(int, int)>, added: bool, addedPeer: bool)
    | NetEvict(key: Key)

  datatype NetState = NetState(core: State<NetArgs>, sockets: set<FdKey>, records: seq<NetRecord>)

  function TgidOf(key: Key): int { (key.pidTgid / TWO32) % TWO32 }

  function ToU32(x: int): int { x % TWO32 }

  /** The kinds whose enter handler first asks is_socket_fd. */
  predicate ChecksFd(kind: int) {
    kind in {READ, WRITE, READV, WRITEV, SENDMMSG, RECVMMSG, CLOSE}
  }

  /** The descriptors a completed call hands out. */
  function NewFds(s: NetStep, peerFdPtr: int): seq<int>
    requires s.NetExit?
  {
    var kind := s.key.kind;
    if s.ret < 0 then []
    else if kind in {SOCKET, ACCEPT, ACCEPT4} then [ToS32(s.ret)]
    else if kind == SOCKETPAIR && peerFdPtr != 0 && s.userFds.Some? then [s.userFds.value.0, s.userFds.value.1]
    else []
  }

  function Complete(base: Event<NetArgs>, s: NetStep): NetRecord
    requires s.NetExit?
  {
    var fds := NewFds(s, base.args.peerFdPtr);
    if fds == [] then NetRecord(base, base.args.fd, 0)
    else if s.key.kind == SOCKET then NetRecord(base, fds[0], 0)
    else if s.key.kind == SOCKETPAIR then NetRecord(base, fds[0], fds[1])
    else NetRecord(base, base.args.fd, fds[0])
  }

  /** The correlation step a network step makes, given the socket map it finds. */
  function Core(sockets: set<FdKey>, s: NetStep): Step<NetArgs> {
    match s
    case NetEnter(k, fd, ptr, now, gate, reserved, scratch, updated) =>
      Enter(k, NetArgs(ToS32(fd), ptr), now, gate,
            ChecksFd(k.kind) ==> FdKey(TgidOf(k), ToU32(ToS32(fd))) in sockets,
            reserved, scratch, updated)
    case NetExit(k, ret, now, gate, reserved, _, _, _) => Exit(k, ret, now, gate, reserved)
    case NetEvict(k) => Evict(k)
  }

  function SocketsAfter(sockets: set<FdKey>, saved: Event<NetArgs>, s: NetStep): set<FdKey>
    requires s.NetExit?
  {
    var tgid := TgidOf(s.key);
    var fds := NewFds(s, saved.args.peerFdPtr);
    if s.key.kind == CLOSE then sockets - {FdKey(tgid, ToU32(saved.args.fd))}
    else
      sockets + (if |fds| > 0 && s.added then {FdKey(tgid, ToU32(fds[0]))} else {})
              + (if |fds| > 1 && s.addedPeer then {FdKey(tgid, ToU32(fds[1]))} else {})
  }

  function NetNext(st: NetState, s: NetStep): NetState {
    var c := Core(st.sockets, s);
    var core := Next(Network, st.core, c);
    if OutcomeOf(st.core.pending, c) == Submitted then
      var saved := st.core.pending[s.key];
      NetState(core, SocketsAfter(st.sockets, saved, s),
               st.records + [Complete(Finalized(Network, saved, c), s)])
    else
      NetState(core, st.sockets, st.records)
  }

  function NetRun(run: seq<NetStep>): NetState {
    if run == [] then NetState(Init(), {}, [])
    else NetNext(NetRun(run[..|run| - 1]), run[|run| - 1])
  }

  /** The network maps and handlers. */
  class NetworkProbe {
    const core: Probe<NetArgs>
    var socketFds: set<FdKey>
    var records: seq<NetRecord>

    ghost predicate Valid()
      reads this
    {
      core.domain == Network
    }

    ghost function View(): NetState
      reads this, core
    {
      NetState(core.View(), socketFds, records)
    }

    constructor ()
      ensures Valid() && fresh(core) && View() == NetRun([])
    {
      core := new Probe(Network);
      socketFds, records := {}, [];
    }

    method AddSocketFd(key: Key, fd: int, updated: bool)
      modifies this`socketFds
      ensures socketFds == old(socketFds) + (if updated then {FdKey(TgidOf(key), ToU32(fd))} else {})
    {
      if updated {
        socketFds := socketFds + {FdKey(TgidOf(key), ToU32(fd))};
      }
    }

    method DeleteSocketFd(key: Key, fd: int)
      modifies this`socketFds
      ensures socketFds == old(socketFds) - {FdKey(TgidOf(key), ToU32(fd))}
    {
      socketFds := socketFds - {FdKey(TgidOf(key), ToU32(fd))};
    }

    method OnEnter(key: Key, fd: int, peerFdPtr: int, now: nat, gate: bool, reserved: bool, scratch: bool, updated: bool)
      requires Valid()
      modifies this, core
      ensures Valid()
      ensures View() == NetNext(old(View()), NetEnter(key, fd, peerFdPtr, now, gate, reserved, scratch, updated))
    {
      var admitted := true;
      if ChecksFd(key.kind) {
        admitted := FdKey(TgidOf(key), ToU32(ToS32(fd))) in socketFds;
      }
      core.OnEnter(key, NetArgs(ToS32(fd), peerFdPtr), now, gate, admitted, reserved, scratch, updated);
    }

    /** Complete the record and keep the socket map in step with the call's outcome. */
    method TrackSockets(key: Key, state: Event<NetArgs>, ret: int, now: nat, userFds: Option<(int, int)>,
                        added: bool, addedPeer: bool, ghost s: NetStep)
      returns (out: NetRecord)
      requires Valid() && s == NetExit(key, ret, now, true, true, userFds, added, addedPeer)
      modifies this`socketFds
      ensures socketFds == SocketsAfter(old(socketFds), state, s)
      ensures out == Complete(Finalized(Network, state, Core(old(socketFds), s)), s)
    {
      out := NetRecord(state.(ts := now, isEnter := false, ret := ToS32(ret)), state.args.fd, 0);
      if key.kind == SOCKET && ret >= 0 {
        out := out.(fd := ToS32(ret));
        AddSocketFd(key, out.fd, added);
      }
      if key.kind == SOCKETPAIR && ret >= 0 && state.args.peerFdPtr != 0 && userFds.Some? {
        out := out.(fd := userFds.value.0, peerFd := userFds.value.1);
        AddSocketFd(key, out.fd, added);
        AddSocketFd(key, out.peerFd, addedPeer);
      }
      if key.kind == ACCEPT && ret >= 0 {
        out := out.(peerFd := ToS32(ret));
        AddSocketFd(key, out.peerFd, added);
      }
      if key.kind == ACCEPT4 && ret >= 0 {
        out := out.(peerFd := ToS32(ret));
        AddSocketFd(key, out.peerFd, added);
      }
      if key.kind == CLOSE {
        DeleteSocketFd(key, out.fd);
      }
    }

    /** Complete and submit the record, then delete the entry on every path. */
    method OnExit(key: Key, ret: int, now: nat, gate: bool, reserved: bool,
                  userFds: Option<(int, int)>, added: bool, addedPeer: bool)
      requires Valid()
      modifies this, core
      ensures Valid()
      ensures View() == NetNext(old(View()), NetExit(key, ret, now, gate, reserved, userFds, added, addedPeer))
    {
      if !gate {
        return;
      }
      if key in core.enterState && reserved {
        ghost var s := NetExit(key, ret, now, true, true, userFds, added, addedPeer);
        var out := TrackSockets(key, core.enterState[key], ret, now, userFds, added, addedPeer, s);
        records := records + [out];
      }
      core.EmitExitEvent(key, ret, now, reserved);
    }

    method OnEvict(key: Key)
      requires Valid()
      modifies core
      ensures Valid() && View() == NetNext(old(View()), NetEvict(key))
    {
      core.OnEvict(key);
    }
  }

  // ------------------------------------------------- the network machine is a correlation machine

  /** The correlation run behind a network run. */
  function CoreRun(run: seq<NetStep>): seq<Step<NetArgs>> {
    if run == [] then []
    else
      var n := |run| - 1;
      CoreRun(run[..n]) + [Core(NetRun(run[..n]).sockets, run[n])]
  }

  /** One network step makes the correlation step Core names, and submits a record with it or not
      at all. */
  lemma StepRefines(st: NetState, s: NetStep)
    ensures var c := Core(st.sockets, s); var st' := NetNext(st, s);
            && st'.core == Next(Network, st.core, c)
            && |st'.records| - |st.records| == |st'.core.submitted| - |st.core.submitted|
            && st.records <= st'.records && st.core.submitted <= st'.core.submitted
            && (|st'.records| > |st.records| ==>
                  |st'.records| == |st.records| + 1
                  && st'.records[|st.records|].base == st'.core.submitted[|st.core.submitted|])
  {
  }

  /** Each network record extends the correlated one. */
  ghost predicate Extends(st: NetState) {
    && |st.records| == |st.core.submitted|
    && forall i :: 0 <= i < |st.records| ==> st.records[i].base == st.core.submitted[i]
  }

  lemma StepExtends(st: NetState, s: NetStep)
    requires Extends(st)
    ensures Extends(NetNext(st, s))
  {
    StepRefines(st, s);
    var st' := NetNext(st, s);
    forall i | 0 <= i < |st'.records| ensures st'.records[i].base == st'.core.submitted[i] {
      if i < |st.records| {
        assert st'.records[i] == st.records[i] && st'.core.submitted[i] == st.core.submitted[i];
      }
    }
  }

  lemma RunUnfolds(run: seq<Step<NetArgs>>, c: Step<NetArgs>)
    ensures Run(Network, run + [c]) == Next(Network, Run(Network, run), c)
  {
    assert (run + [c])[..|run|] == run;
  }

  /** Pairing, conservation and emit-once therefore hold of network runs too; each network record
      extends the correlated one. */
  lemma {:induction false} NetworkRefinesCorrelation(run: seq<NetStep>)
    ensures |CoreRun(run)| == |run|
    ensures Run(Network, CoreRun(run)) == NetRun(run).core
    ensures Extends(NetRun(run))
  {
    if run == [] {
    } else {
      var n := |run| - 1;
      var st := NetRun(run[..n]);
      NetworkRefinesCorrelation(run[..n]);
      StepRefines(st, run[n]);
      StepExtends(st, run[n]);
      RunUnfolds(CoreRun(run[..n]), Core(st.sockets, run[n]));
    }
  }

  lemma {:induction false} CoreRunLength(run: seq<NetStep>)
    ensures |CoreRun(run)| == |run|
  {
    if run != [] {
      CoreRunLength(run[..|run| - 1]);
    }
  }

  lemma PrefixOfPrefix<T>(s: seq<T>, n: nat, j: nat)
    requires j <= n <= |s|
    ensures s[..n][..j] == s[..j]
  {
  }

  lemma PrefixOfLonger<T>(s: seq<T>, x: T, j: nat)
    requires j <= |s|
    ensures (s + [x])[..j] == s[..j]
  {
  }

  /** The correlation run behind a prefix is a prefix of the correlation run. */
  lemma {:induction false} CoreRunPrefix(run: seq<NetStep>, j: nat)
    requires j <= |run|
    ensures |CoreRun(run)| == |run|
    ensures CoreRun(run)[..j] == CoreRun(run[..j])
  {
    CoreRunLength(run);
    if j == |run| {
      assert run[..j] == run;
    } else {
      var n := |run| - 1;
      CoreRunPrefix(run[..n], j);
      PrefixOfPrefix(run, n, j);
      PrefixOfLonger(CoreRun(run[..n]), Core(NetRun(run[..n]).sockets, run[n]), j);
    }
  }

  lemma CoreRunAt(run: seq<NetStep>, j: nat)
    requires j < |run|
    ensures |CoreRun(run)| == |run|
    ensures CoreRun(run)[j] == Core(NetRun(run[..j]).sockets, run[j])
  {
    CoreRunPrefix(run, j);
    CoreRunPrefix(run, j + 1);
    NetworkRefinesCorrelation(run[..j]);
    NetworkRefinesCorrelation(run[..j + 1]);
    assert run[..j + 1][..j] == run[..j];
    assert CoreRun(run)[j] == CoreRun(run)[..j + 1][j];
  }

  /** Correlation before and after one step of a network run. */
  lemma CoreAround(run: seq<NetStep>, j: nat)
    requires j < |run|
    ensures |CoreRun(run)| == |run|
    ensures CoreRun(run)[j] == Core(NetRun(run[..j]).sockets, run[j])
    ensures Run(Network, CoreRun(run)[..j]) == NetRun(run[..j]).core
    ensures Run(Network, CoreRun(run)[..j + 1]) == NetRun(run[..j + 1]).core
    ensures NetRun(run[..j + 1]) == NetNext(NetRun(run[..j]), run[j])
  {
    CoreRunAt(run, j);
    CoreRunPrefix(run, j);
    CoreRunPrefix(run, j + 1);
    NetworkRefinesCorrelation(run[..j]);
    NetworkRefinesCorrelation(run[..j + 1]);
    assert run[..j + 1][..j] == run[..j];
  }

  /** Pairing for the network handlers.  In a well-paired run every record submitted at an exit
      carries the arguments of the entry that opened the call, truncated as the handlers truncate
      them, whatever the socket map admitted, the kernel evicted or a failed call dropped. */
  lemma NetworkPairing(run: seq<NetStep>, j: nat)
    requires WellPaired(CoreRun(run)) && j < |run| && run[j].NetExit?
    ensures |CoreRun(run)| == |run|
    ensures var t := LastCall(CoreRun(run)[..j], run[j].key);
            |NetRun(run[..j + 1]).records| > |NetRun(run[..j]).records| ==>
              && 0 <= t < j && run[t].NetEnter? && run[t].key == run[j].key
              && |NetRun(run[..j + 1]).records| == |NetRun(run[..j]).records| + 1
              && NetRun(run[..j + 1]).records[|NetRun(run[..j]).records|].base
                 == Event(run[j].key, run[j].now, false, NetArgs(ToS32(run[t].fd), run[t].peerFdPtr), ToS32(run[j].ret))
  {
    CoreAround(run, j);
    Pairing(Network, CoreRun(run), j);
    StepRefines(NetRun(run[..j]), run[j]);
    var t := LastCall(CoreRun(run)[..j], run[j].key);
    if t >= 0 {
      CoreRunAt(run, t);
    }
  }

  lemma NetworkNoCollision(run: seq<NetStep>)
    requires WellPaired(CoreRun(run))
    ensures NetRun(run).core.stats.collision == 0
  {
    NetworkRefinesCorrelation(run);
    NoCollision(Network, CoreRun(run));
  }

  // ------------------------------------------------------------------------------ socket tracking

  /** The last enter or exit handler run by a thread of tgid `T`; -1 if none. */
  function LastOf(run: seq<NetStep>, T: int): (r: int)
    ensures -1 <= r < |run|
    ensures r >= 0 ==> TgidOf(run[r].key) == T && !run[r].NetEvict?
  {
    if run == [] then -1
    else
      var n := |run| - 1;
      if TgidOf(run[n].key) == T && !run[n].NetEvict? then n else LastOf(run[..n], T)
  }

  ghost predicate DisciplinedAt(run: seq<NetStep>, T: int, j: nat)
    requires j < |run|
  {
    var t := LastOf(run[..j], T);
    match run[j]
    case NetEnter(_, _, _, _, gate, reserved, scratch, updated) =>
      gate && reserved && scratch && updated && (t >= 0 ==> run[t].NetExit?)
    case NetExit(key, ret, _, gate, reserved, userFds, added, addedPeer) =>
      && gate && reserved && added && addedPeer
      && t >= 0 && run[t].NetEnter? && run[t].key == key
      && (key.kind == SOCKETPAIR && ret >= 0 ==> run[t].peerFdPtr != 0 && userFds.Some?)
    case NetEvict(_) => false
  }

  /** The calls of tgid `T` do not overlap, its gates are open, and nothing fails for it: no
      reservation, scratch lookup, map update or user read, and no eviction.  Other tgids are free. */
  ghost predicate Disciplined(run: seq<NetStep>, T: int) {
    forall j :: 0 <= j < |run| && TgidOf(run[j].key) == T ==> DisciplinedAt(run, T, j)
  }

  /** The descriptors a completed call hands out, kind by kind: the return value of socket, accept and
      accept4, both members of socketpair's result array. */
  function HandedOut(s: NetStep, peerFdPtr: int): set<int>
    requires s.NetExit?
  {
    if s.ret < 0 then {}
    else if s.key.kind == SOCKET then {ToU32(s.ret)}
    else if s.key.kind == ACCEPT then {ToU32(s.ret)}
    else if s.key.kind == ACCEPT4 then {ToU32(s.ret)}
    else if s.key.kind == SOCKETPAIR && peerFdPtr != 0 && s.userFds.Some? then
      {ToU32(s.userFds.value.0), ToU32(s.userFds.value.1)}
    else {}
  }

  /** What the calls of tgid `T` say about its descriptors: those handed out and not closed since,
      whatever close returned. */
  function LiveSockets(run: seq<NetStep>, T: int): set<int> {
    if run == [] then {}
    else
      var n := |run| - 1;
      var before := LiveSockets(run[..n], T);
      var t := LastOf(run[..n], T);
      if TgidOf(run[n].key) != T || !run[n].NetExit? || t < 0 || !run[t].NetEnter? then before
      else if run[n].key.kind == CLOSE then before - {ToU32(run[t].fd)}
      else before + HandedOut(run[n], run[t].peerFdPtr)
  }

  /** The socket map restricted to one tgid. */
  function Tracked(sockets: set<FdKey>, T: int): set<int> {
    set k | k in sockets && k.tgid == T :: k.fd
  }

  lemma TruncationKeepsFd(x: int)
    ensures ToU32(ToS32(x)) == ToU32(x)
  {
    var y := x + 0x8000_0000;
    assert ToS32(x) == x - TWO32 * (y / TWO32);
  }

  lemma DisciplinedPrefix(run: seq<NetStep>, T: int, n: nat)
    requires Disciplined(run, T) && n <= |run|
    ensures Disciplined(run[..n], T)
  {
    forall j | 0 <= j < n && TgidOf(run[..n][j].key) == T ensures DisciplinedAt(run[..n], T, j) {
      assert run[..n][..j] == run[..j];
      assert DisciplinedAt(run, T, j);
    }
  }

  /** The open call of tgid `T`, if any, is the only entry pending under its keys. */
  ghost predicate PendingKnown(run: seq<NetStep>, T: int) {
    var t := LastOf(run, T);
    var p := NetRun(run).core.pending;
    forall k: Key :: TgidOf(k) == T ==>
      && (k in p <==> t >= 0 && run[t].NetEnter? && run[t].key == k
                      && (ChecksFd(k.kind) ==> ToU32(run[t].fd) in LiveSockets(run, T)))
      && (k in p ==> p[k].args == NetArgs(ToS32(run[t].fd), run[t].peerFdPtr))
  }

  /** A step of another tgid changes nothing about `T`. */
  lemma OthersDoNotMatter(st: NetState, s: NetStep, T: int)
    requires TgidOf(s.key) != T
    ensures Tracked(NetNext(st, s).sockets, T) == Tracked(st.sockets, T)
    ensures forall k: Key :: TgidOf(k) == T ==>
      var p := NetNext(st, s).core.pending;
      (k in p <==> k in st.core.pending) && (k in p ==> p[k] == st.core.pending[k])
  {
    forall k: Key | TgidOf(k) == T
      ensures var p := NetNext(st, s).core.pending;
              (k in p <==> k in st.core.pending) && (k in p ==> p[k] == st.core.pending[k])
    {
      PendingAfter(Network, st.core, Core(st.sockets, s), k);
    }
  }

  lemma EnterStep(st: NetState, s: NetStep, T: int)
    requires s.NetEnter? && TgidOf(s.key) == T && s.gate && s.reserved && s.scratch && s.updated
    requires s.key !in st.core.pending
    ensures NetNext(st, s).sockets == st.sockets
    ensures var p := NetNext(st, s).core.pending;
            && (s.key in p <==> (ChecksFd(s.key.kind) ==> ToU32(s.fd) in Tracked(st.sockets, T)))
            && (s.key in p ==> p[s.key].args == NetArgs(ToS32(s.fd), s.peerFdPtr))
            && forall k :: k != s.key ==> (k in p <==> k in st.core.pending)
  {
    TruncationKeepsFd(s.fd);
    var f := FdKey(T, ToU32(s.fd));
    assert f in st.sockets <==> f.fd in Tracked(st.sockets, T) by {
      if f.fd in Tracked(st.sockets, T) {
        var k :| k in st.sockets && k.tgid == T && k.fd == f.fd;
        assert k == f;
      }
    }
  }

  /** An exit whose entry is pending applies the call's effect on the descriptors. */
  lemma ExitStep(st: NetState, s: NetStep, T: int, fd: int, ptr: int)
    requires s.NetExit? && TgidOf(s.key) == T && s.gate && s.reserved && s.added && s.addedPeer
    requires s.key in st.core.pending && st.core.pending[s.key].args == NetArgs(ToS32(fd), ptr)
    ensures Tracked(NetNext(st, s).sockets, T)
            == if s.key.kind == CLOSE then Tracked(st.sockets, T) - {ToU32(fd)}
               else Tracked(st.sockets, T) + HandedOut(s, ptr)
    ensures NetNext(st, s).core.pending == st.core.pending - {s.key}
  {
    TruncationKeepsFd(fd);
    TruncationKeepsFd(s.ret);
    var after := NetNext(st, s).sockets;
    forall x ensures x in Tracked(after, T) <==> FdKey(T, x) in after {
      if x in Tracked(after, T) {
        var k :| k in after && k.tgid == T && k.fd == x;
        assert k == FdKey(T, x);
      }
    }
    forall x ensures x in Tracked(st.sockets, T) <==> FdKey(T, x) in st.sockets {
      if x in Tracked(st.sockets, T) {
        var k :| k in st.sockets && k.tgid == T && k.fd == x;
        assert k == FdKey(T, x);
      }
    }
  }

  ghost predicate TrackedExactly(run: seq<NetStep>, T: int) {
    Tracked(NetRun(run).sockets, T) == LiveSockets(run, T) && PendingKnown(run, T)
  }

  lemma OtherTgidCase(run: seq<NetStep>, T: int)
    requires |run| > 0 && TgidOf(run[|run| - 1].key) != T
    requires TrackedExactly(run[..|run| - 1], T)
    ensures TrackedExactly(run, T)
  {
    OthersDoNotMatter(NetRun(run[..|run| - 1]), run[|run| - 1], T);
  }

  lemma EnterCase(run: seq<NetStep>, T: int)
    requires |run| > 0 && TgidOf(run[|run| - 1].key) == T && run[|run| - 1].NetEnter?
    requires DisciplinedAt(run, T, |run| - 1)
    requires TrackedExactly(run[..|run| - 1], T)
    ensures TrackedExactly(run, T)
  {
    EnterStep(NetRun(run[..|run| - 1]), run[|run| - 1], T);
  }

  lemma ExitCase(run: seq<NetStep>, T: int)
    requires |run| > 0 && TgidOf(run[|run| - 1].key) == T && run[|run| - 1].NetExit?
    requires DisciplinedAt(run, T, |run| - 1)
    requires TrackedExactly(run[..|run| - 1], T)
    ensures TrackedExactly(run, T)
  {
    var n := |run| - 1;
    var s, st, t := run[n], NetRun(run[..n]), LastOf(run[..n], T);
    assert forall k: Key :: TgidOf(k) == T && k in st.core.pending ==> k == s.key;
    if s.key in st.core.pending {
      ExitStep(st, s, T, run[t].fd, run[t].peerFdPtr);
    } else {
      assert s.key.kind != SOCKETPAIR && NetNext(st, s).sockets == st.sockets;
      assert NetNext(st, s).core.pending == st.core.pending;
    }
  }

  /** The socket map holds, for a disciplined tgid, exactly its live sockets. */
  lemma {:induction false} SocketMapIsLiveSockets(run: seq<NetStep>, T: int)
    requires Disciplined(run, T)
    ensures Tracked(NetRun(run).sockets, T) == LiveSockets(run, T)
    ensures PendingKnown(run, T)
  {
    if run == [] {
    } else {
      var n := |run| - 1;
      DisciplinedPrefix(run, T, n);
      SocketMapIsLiveSockets(run[..n], T);
      if TgidOf(run[n].key) != T {
        OtherTgidCase(run, T);
      } else {
        assert DisciplinedAt(run, T, n);
        if run[n].NetEnter? {
          EnterCase(run, T);
        } else {
          ExitCase(run, T);
        }
      }
    }
  }

  /** The pending entry of the open call, one key at a time. */
  lemma OpenCallPending(run: seq<NetStep>, T: int, k: Key)
    requires PendingKnown(run, T) && TgidOf(k) == T
    requires var t := LastOf(run, T); t >= 0 && run[t].NetEnter? && run[t].key == k
    ensures k in NetRun(run).core.pending
            <==> (ChecksFd(k.kind) ==> ToU32(run[LastOf(run, T)].fd) in LiveSockets(run, T))
  {
  }

  lemma ExitSubmits(st: NetState, s: NetStep)
    requires s.NetExit? && s.gate && s.reserved
    ensures |NetNext(st, s).records| == |st.records| + (if s.key in st.core.pending then 1 else 0)
  {
  }

  lemma NetRunUnfolds(run: seq<NetStep>, j: nat)
    requires j < |run|
    ensures NetRun(run[..j + 1]) == NetNext(NetRun(run[..j]), run[j])
  {
    assert run[..j + 1][..j] == run[..j];
  }

  /** What discipline says of an exit. */
  lemma ExitHasEntry(run: seq<NetStep>, T: int, j: nat)
    requires Disciplined(run, T) && j < |run| && TgidOf(run[j].key) == T && run[j].NetExit?
    ensures run[j].gate && run[j].reserved
    ensures var t := LastOf(run[..j], T); 0 <= t < j && run[t].NetEnter? && run[t].key == run[j].key
  {
    assert DisciplinedAt(run, T, j);
  }

  /** Records of the read/write family and of close are submitted exactly for calls on live
      sockets; every other call of the tgid is recorded. */
  lemma EmittedForLiveSockets(run: seq<NetStep>, T: int, j: nat)
    requires Disciplined(run, T) && j < |run| && TgidOf(run[j].key) == T && run[j].NetExit?
    ensures var t := LastOf(run[..j], T);
            && 0 <= t < j && run[t].NetEnter? && run[t].key == run[j].key
            && (|NetRun(run[..j + 1]).records| == |NetRun(run[..j]).records| + 1
                <==> (run[j].key.kind in {READ, WRITE, READV, WRITEV, SENDMMSG, RECVMMSG, CLOSE} ==>
                        ToU32(run[t].fd) in LiveSockets(run[..j], T)))
            && |NetRun(run[..j + 1]).records| <= |NetRun(run[..j]).records| + 1
  {
    ExitHasEntry(run, T, j);
    DisciplinedPrefix(run, T, j);
    SocketMapIsLiveSockets(run[..j], T);
    OpenCallPending(run[..j], T, run[j].key);
    ExitSubmits(NetRun(run[..j]), run[j]);
    NetRunUnfolds(run, j);
  }

  // ------------------------------------------------------------------ what an exit says, kind by kind

  /** The descriptor fields of a record: the new descriptor of socket, both of a socketpair, the
      accepted one as peer of the listening one; otherwise those saved at entry. */
  predicate FdFields(r: NetRecord, s: NetStep, saved: NetArgs)
    requires s.NetExit?
  {
    var kind := s.key.kind;
    && (kind == SOCKET && s.ret >= 0 ==> r.fd == ToS32(s.ret) && r.peerFd == 0)
    && (kind == ACCEPT && s.ret >= 0 ==> r.fd == saved.fd && r.peerFd == ToS32(s.ret))
    && (kind == ACCEPT4 && s.ret >= 0 ==> r.fd == saved.fd && r.peerFd == ToS32(s.ret))
    && (kind == SOCKETPAIR && s.ret >= 0 && saved.peerFdPtr != 0 && s.userFds.Some? ==>
          r.fd == s.userFds.value.0 && r.peerFd == s.userFds.value.1)
    && (s.ret < 0 || kind !in {SOCKET, ACCEPT, ACCEPT4, SOCKETPAIR}
        || (kind == SOCKETPAIR && (saved.peerFdPtr == 0 || s.userFds.None?)) ==>
          r.fd == saved.fd && r.peerFd == 0)
  }

  lemma FdFieldsSay(st: NetState, s: NetStep)
    requires s.NetExit? && s.gate && s.reserved && s.key in st.core.pending
    ensures |NetNext(st, s).records| == |st.records| + 1
    ensures FdFields(NetNext(st, s).records[|st.records|], s, st.core.pending[s.key].args)
  {
  }

  /** A descriptor is recorded as it is. */
  lemma DescriptorFits(fd: int)
    requires 0 <= fd < 0x8000_0000
    ensures ToS32(fd) == fd && ToU32(fd) == fd
  {
  }

  /** What a submitting exit finds pending in a well-paired run: the arguments of its own entry. */
  lemma SavedByOwnEntry(run: seq<NetStep>, j: nat)
    requires WellPaired(CoreRun(run)) && j < |run| && run[j].NetExit?
    requires |NetRun(run[..j + 1]).records| > |NetRun(run[..j]).records|
    ensures run[j].gate && run[j].reserved && run[j].key in NetRun(run[..j]).core.pending
    ensures |CoreRun(run)| == |run|
    ensures var t := LastCall(CoreRun(run)[..j], run[j].key);
            && 0 <= t < j && run[t].NetEnter?
            && NetRun(run[..j]).core.pending[run[j].key].args == NetArgs(ToS32(run[t].fd), run[t].peerFdPtr)
  {
    CoreAround(run, j);
    NetworkPairing(run, j);
    WellPairedPrefix(CoreRun(run), j);
    PendingIsOpenCall(Network, CoreRun(run)[..j], run[j].key);
    CoreRunAt(run, LastCall(CoreRun(run)[..j], run[j].key));
  }

  /** Over a run: in a well-paired run the fields saved at entry are those of the call's own entry. */
  lemma NetworkRecordSays(run: seq<NetStep>, j: nat)
    requires WellPaired(CoreRun(run)) && j < |run| && run[j].NetExit?
    requires |NetRun(run[..j + 1]).records| > |NetRun(run[..j]).records|
    ensures |CoreRun(run)| == |run|
    ensures var t := LastCall(CoreRun(run)[..j], run[j].key);
            && 0 <= t < j && run[t].NetEnter?
            && FdFields(NetRun(run[..j + 1]).records[|NetRun(run[..j]).records|], run[j],
                        NetArgs(ToS32(run[t].fd), run[t].peerFdPtr))
  {
    SavedByOwnEntry(run, j);
    NetRunUnfolds(run, j);
    FdFieldsSay(NetRun(run[..j]), run[j]);
  }

  /** The socket map after an exit, kind by kind, with the updates that fail; other exits leave it. */
  lemma SocketsSay(st: NetState, s: NetStep)
    requires s.NetExit? && s.gate && s.reserved && s.key in st.core.pending
    ensures var (saved, kind, tgid) := (st.core.pending[s.key].args, s.key.kind, TgidOf(s.key));
            var after := NetNext(st, s).sockets;
            && (kind in {SOCKET, ACCEPT, ACCEPT4} && s.ret >= 0 ==>
                  after == if s.added then st.sockets + {FdKey(tgid, ToU32(s.ret))} else st.sockets)
            && (kind == SOCKETPAIR && s.ret >= 0 && saved.peerFdPtr != 0 && s.userFds.Some? ==>
                  forall k :: k in after <==> k in st.sockets
                                              || (s.added && k == FdKey(tgid, ToU32(s.userFds.value.0)))
                                              || (s.addedPeer && k == FdKey(tgid, ToU32(s.userFds.value.1))))
            && (kind == CLOSE ==> after == st.sockets - {FdKey(tgid, ToU32(saved.fd))})
            && (kind !in {SOCKET, ACCEPT, ACCEPT4, SOCKETPAIR, CLOSE} || (s.ret < 0 && kind != CLOSE) ==> after == st.sockets)
  {
    TruncationKeepsFd(s.ret);
  }

  /** The map is keyed by process and descriptor: threads of one tgid share its entries. */
  lemma KeyOfDescriptor(tgid: int, tid: int, kind: int, fd: int)
    requires 0 <= tgid < 0x1_0000_0000 && 0 <= tid < 0x1_0000_0000 && 0 <= fd < 0x8000_0000
    ensures FdKey(TgidOf(Key(tgid * 0x1_0000_0000 + tid, kind)), ToU32(ToS32(fd))) == FdKey(tgid, fd)
  {
    TruncationKeepsFd(fd);
    var w := tgid * 0x1_0000_0000 + tid;
    assert w / 0x1_0000_0000 == tgid;
  }
}
