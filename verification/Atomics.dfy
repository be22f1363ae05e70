/** The LL/SC and CAS retry loops of musl/atomic.h and musl/aarch64/atomic_arch.h as a transition
    system: any number of threads, any interleaving, reservations that may be lost at any moment.
    The main theorems say that every run is a run of one-step atomic operations. */
module Atomics {
  import opened Bits

  const MODULUS: nat := 0x1_0000_0000

  /** The 32 bits of a machine `int`, read as an unsigned number. */
  type Word = x: nat | x < MODULUS

  lemma {:induction false} ModulusIsPow2()
    ensures Pow2(32) == MODULUS
    ensures Pow2(64) == MODULUS * MODULUS
  {
    assert Pow2(8) == 256;
    Pow2Adds(8, 8);
    Pow2Adds(16, 16);
    Pow2Adds(32, 32);
  }

  /** The bit pattern of a C `unsigned` addition. */
  function Plus(x: Word, y: Word): Word {
    (x + y) % MODULUS
  }

  function Or32(x: Word, y: Word): Word {
    ModulusIsPow2();
    WordsStayWords(x, y, 32);
    BitOr(x, y)
  }

  function And32(x: Word, y: Word): Word {
    ModulusIsPow2();
    WordsStayWords(x, y, 32);
    BitAnd(x, y)
  }

  datatype Op =
    | Swap(v: Word)
    | FetchAdd(v: Word)
    | FetchAnd(v: Word)
    | FetchOr(v: Word)
    | Cas(expected: Word, v: Word)
    | Store(v: Word)

  datatype Call = Call(cell: nat, op: Op)

  /** What the operation leaves in a cell that held `seen`, when it runs alone. */
  function Updated(op: Op, seen: Word): Word {
    match op
    case Swap(v) => v
    case FetchAdd(v) => Plus(seen, v)
    case FetchAnd(v) => And32(seen, v)
    case FetchOr(v) => Or32(seen, v)
    case Cas(t, v) => if seen == t then v else seen
    case Store(v) => v
  }

  /** Which primitives the platform offers: load-linked/store-conditional, or only an atomic a_cas. */
  datatype Arch = LoadLinked | CasOnly

  /** Where a thread stands in its current call: about to load, or holding a loaded value. */
  datatype Pc = Enter | Loaded(seen: Word)

  datatype Thread = Thread(program: seq<Call>, returned: seq<Word>, pc: Pc, reserved: bool) {
    predicate Finished() {
      |returned| == |program|
    }

    predicate Busy() {
      |returned| < |program|
    }

    function Current(): Call
      requires Busy()
    {
      program[|returned|]
    }

    function Return(ret: Word): Thread {
      this.(returned := returned + [ret], pc := Enter)
    }

    /** A failing a_cas has loaded a value that differs from the expected one: it will not store. */
    predicate CasMissed()
    {
      Busy() && pc.Loaded? && Current().op.Cas? && pc.seen != Current().op.expected
    }
  }

  /** One operation taking effect: the thread, the call, and the value it read. */
  datatype Event = Event(tid: nat, call: Call, ret: Word)

  datatype State = State(arch: Arch, mem: seq<Word>, threads: seq<Thread>, log: seq<Event>)

  /** The scheduler's choice: let a thread take its next step, or drop its reservation. */
  datatype Choice = Advance(tid: nat) | LoseReservation(tid: nat)

  /** A store to `cell` clears every reservation held on it. */
  function ClearReservations(threads: seq<Thread>, cell: nat): (r: seq<Thread>)
    ensures |r| == |threads|
  {
    seq(|threads|, i requires 0 <= i < |threads| =>
      if threads[i].Busy() && threads[i].Current().cell == cell
      then threads[i].(reserved := false)
      else threads[i])
  }

  /** The thread's store reaches memory and its call returns `seen`, the value it loaded earlier: what is
      written is computed from `seen`, not from what the cell may hold now. */
  function Commit(s: State, tid: nat, seen: Word): State
    requires tid < |s.threads| && s.threads[tid].Busy()
    requires s.threads[tid].Current().cell < |s.mem|
  {
    var th := s.threads[tid];
    var call := th.Current();
    s.(mem := s.mem[call.cell := Updated(call.op, seen)],
       threads := ClearReservations(s.threads, call.cell)[tid := th.Return(seen).(reserved := false)],
       log := s.log + [Event(tid, call, seen)])
  }

  predicate CellsExist(s: State) {
    forall t, i :: 0 <= t < |s.threads| && 0 <= i < |s.threads[t].program| ==>
      s.threads[t].program[i].cell < |s.mem|
  }

  /** First half of a retry loop: `old = a_ll(p)` or `old = *p`. */
  function StepEnter(s: State, tid: nat): State
    requires CellsExist(s) && tid < |s.threads| && s.threads[tid].Busy()
  {
    var th := s.threads[tid];
    var call := th.Current();
    var seen := s.mem[call.cell];
    if call.op.Store? || (s.arch.CasOnly? && call.op.Cas?) then
      Commit(s, tid, seen)
    else
      var th' := th.(pc := Loaded(seen), reserved := true);
      // An a_cas whose comparison fails takes effect at this load.
      s.(threads := s.threads[tid := th'],
         log := if th'.CasMissed() then s.log + [Event(tid, call, seen)] else s.log)
  }

  /** Second half of a retry loop: `a_sc(p, ...)` or `a_cas(p, old, ...)`, or the loop's exit. */
  function StepLoaded(s: State, tid: nat): State
    requires CellsExist(s) && tid < |s.threads| && s.threads[tid].Busy() && s.threads[tid].pc.Loaded?
  {
    var th := s.threads[tid];
    if th.CasMissed() then
      s.(threads := s.threads[tid := th.Return(th.pc.seen)])
    else if (if s.arch.LoadLinked? then th.reserved else s.mem[th.Current().cell] == th.pc.seen) then
      Commit(s, tid, th.pc.seen)
    else
      s.(threads := s.threads[tid := th.(pc := Enter)])
  }

  /** One scheduled step; a choice that names no thread that can move leaves the state alone. */
  function Step(s: State, choice: Choice): State
    requires CellsExist(s)
  {
    if choice.tid >= |s.threads| || !s.threads[choice.tid].Busy() then s
    else if choice.LoseReservation? then
      s.(threads := s.threads[choice.tid := s.threads[choice.tid].(reserved := false)])
    else if s.threads[choice.tid].pc.Enter? then StepEnter(s, choice.tid)
    else StepLoaded(s, choice.tid)
  }

  lemma {:induction false} StepKeepsPrograms(s: State, choice: Choice)
    requires CellsExist(s)
    ensures CellsExist(Step(s, choice))
    ensures |Step(s, choice).threads| == |s.threads| && |Step(s, choice).mem| == |s.mem|
    ensures forall t :: 0 <= t < |s.threads| ==> Step(s, choice).threads[t].program == s.threads[t].program
  {
    var s' := Step(s, choice);
    assert |s'.threads| == |s.threads|;
    forall t | 0 <= t < |s.threads|
      ensures s'.threads[t].program == s.threads[t].program
    {
    }
  }

  /** A whole schedule. */
  function Exec(s: State, schedule: seq<Choice>): State
    requires CellsExist(s)
    ensures CellsExist(Exec(s, schedule))
    ensures |Exec(s, schedule).threads| == |s.threads| && |Exec(s, schedule).mem| == |s.mem|
    ensures forall t :: 0 <= t < |s.threads| ==> Exec(s, schedule).threads[t].program == s.threads[t].program
    decreases |schedule|
  {
    if schedule == [] then s
    else
      var before := Exec(s, schedule[..|schedule| - 1]);
      StepKeepsPrograms(before, schedule[|schedule| - 1]);
      Step(before, schedule[|schedule| - 1])
  }

  predicate Initial(s: State) {
    && CellsExist(s)
    && s.log == []
    && forall t :: 0 <= t < |s.threads| ==> s.threads[t].returned == [] && s.threads[t].pc.Enter?
  }

  // ---------------------------------------------------------------- the atomic specification

  /** Memory after the events ran one at a time, each as a single indivisible operation. */
  function Replay(mem: seq<Word>, log: seq<Event>): (r: seq<Word>)
    ensures |r| == |mem|
  {
    if log == [] then mem
    else
      var before := Replay(mem, log[..|log| - 1]);
      var e := log[|log| - 1];
      if e.call.cell < |mem| then before[e.call.cell := Updated(e.call.op, before[e.call.cell])]
      else before
  }

  /** Every event returned what its cell held just before it. */
  predicate Legal(mem: seq<Word>, log: seq<Event>) {
    forall k :: 0 <= k < |log| ==>
      log[k].call.cell < |mem| && log[k].ret == Replay(mem, log[..k])[log[k].call.cell]
  }

  /** The events of one thread, in the order of the log. */
  function EventsOf(log: seq<Event>, tid: nat): seq<Event> {
    if log == [] then []
    else
      var before := EventsOf(log[..|log| - 1], tid);
      if log[|log| - 1].tid == tid then before + [log[|log| - 1]] else before
  }

  /** The first `n` calls of a thread with the values they returned. */
  function Completed(th: Thread, tid: nat, n: nat): seq<Event>
    requires n <= |th.returned| <= |th.program|
  {
    seq(n, i requires 0 <= i < n => Event(tid, th.program[i], th.returned[i]))
  }

  /** What a thread's share of the log must be: its completed calls in program order with the values
      they returned, and its failing a_cas once that has loaded. */
  function ThreadHistory(th: Thread, tid: nat): seq<Event>
    requires |th.returned| <= |th.program|
  {
    Completed(th, tid, |th.returned|)
    + (if th.CasMissed() then [Event(tid, th.Current(), th.pc.seen)] else [])
  }

  // ---------------------------------------------------------------- the invariant

  /** A thread and its share of the log agree, and a reservation still held means that the cell still
      holds what was loaded. */
  ghost predicate ThreadInv(th: Thread, tid: nat, arch: Arch, mem: seq<Word>, events: seq<Event>) {
    && |th.returned| <= |th.program|
    && (forall i :: 0 <= i < |th.program| ==> th.program[i].cell < |mem|)
    && (th.pc.Loaded? ==> th.Busy() && !th.Current().op.Store? && !(arch.CasOnly? && th.Current().op.Cas?))
    && (th.pc.Loaded? && arch.LoadLinked? && th.reserved ==> mem[th.Current().cell] == th.pc.seen)
    && events == ThreadHistory(th, tid)
  }

  ghost predicate Inv(s: State, mem0: seq<Word>) {
    && CellsExist(s)
    && Legal(mem0, s.log)
    && s.mem == Replay(mem0, s.log)
    && (forall k :: 0 <= k < |s.log| ==> s.log[k].tid < |s.threads|)
    && forall t :: 0 <= t < |s.threads| ==> ThreadInv(s.threads[t], t, s.arch, s.mem, EventsOf(s.log, t))
  }

  lemma {:induction false} LegalAppends(mem0: seq<Word>, log: seq<Event>, e: Event)
    requires Legal(mem0, log) && e.call.cell < |mem0| && e.ret == Replay(mem0, log)[e.call.cell]
    ensures Legal(mem0, log + [e])
  {
    hide Replay;
    var log' := log + [e];
    forall k | 0 <= k < |log'|
      ensures log'[k].call.cell < |mem0| && log'[k].ret == Replay(mem0, log'[..k])[log'[k].call.cell]
    {
      assert log'[..k] == log[..k];
      assert k == |log| ==> log[..k] == log;
    }
  }

  /** Appending one event that read the current contents keeps the log legal. */
  lemma {:induction false} AppendEvent(mem0: seq<Word>, log: seq<Event>, e: Event)
    requires Legal(mem0, log) && e.call.cell < |mem0|
    requires e.ret == Replay(mem0, log)[e.call.cell]
    ensures Legal(mem0, log + [e])
    ensures Replay(mem0, log + [e]) == Replay(mem0, log)[e.call.cell := Updated(e.call.op, e.ret)]
    ensures forall t :: EventsOf(log + [e], t) == EventsOf(log, t) + (if e.tid == t then [e] else [])
  {
    hide Legal, Updated;
    LegalAppends(mem0, log, e);
    assert (log + [e])[..|log|] == log;
  }

  lemma {:induction false} ReturnHistory(th: Thread, tid: nat, value: Word)
    requires th.Busy() && |th.returned| <= |th.program|
    requires !th.CasMissed() || value == th.pc.seen
    ensures ThreadHistory(th.Return(value).(reserved := false), tid) == ThreadHistory(th.Return(value), tid)
    ensures ThreadHistory(th.Return(value), tid) ==
            ThreadHistory(th, tid) + (if th.CasMissed() then [] else [Event(tid, th.Current(), value)])
  {
  }

  /** Another thread's store: this one loses its reservation when it held one on that cell. */
  lemma {:induction false} OtherThreadKeepsInv(th: Thread, th': Thread, tid: nat, arch: Arch, mem: seq<Word>,
                            cell: nat, value: Word, events: seq<Event>)
    requires ThreadInv(th, tid, arch, mem, events) && cell < |mem|
    requires th' == if th.Busy() && th.Current().cell == cell then th.(reserved := false) else th
    ensures ThreadInv(th', tid, arch, mem[cell := value], events)
  {
    assert ThreadHistory(th', tid) == ThreadHistory(th, tid);
  }

  lemma {:induction false} CommitKeepsInv(s: State, mem0: seq<Word>, tid: nat, seen: Word)
    requires Inv(s, mem0) && tid < |s.threads| && s.threads[tid].Busy()
    requires !s.threads[tid].CasMissed()
    requires s.threads[tid].Current().cell < |s.mem| && s.mem[s.threads[tid].Current().cell] == seen
    ensures Inv(Commit(s, tid, seen), mem0)
  {
    var s' := Commit(s, tid, seen);
    var th := s.threads[tid];
    var call := th.Current();
    var e := Event(tid, call, seen);
    AppendEvent(mem0, s.log, e);
    forall t | 0 <= t < |s'.threads|
      ensures ThreadInv(s'.threads[t], t, s'.arch, s'.mem, EventsOf(s'.log, t))
    {
      if t == tid {
        ReturnHistory(th, tid, seen);
      } else {
        OtherThreadKeepsInv(s.threads[t], s'.threads[t], t, s.arch, s.mem, call.cell,
                            Updated(call.op, seen), EventsOf(s.log, t));
      }
    }
  }

  /** A step of thread `tid` that leaves memory alone and appends `es` to the log. */
  lemma {:induction false} QuietStepKeepsInv(s: State, mem0: seq<Word>, tid: nat, th': Thread, es: seq<Event>)
    requires Inv(s, mem0) && tid < |s.threads| && s.threads[tid].Busy()
    requires th'.program == s.threads[tid].program
    requires es == [] || es == [Event(tid, s.threads[tid].Current(), s.mem[s.threads[tid].Current().cell])]
    requires es != [] ==> Updated(es[0].call.op, es[0].ret) == es[0].ret
    requires ThreadInv(th', tid, s.arch, s.mem, EventsOf(s.log, tid) + es)
    ensures Inv(s.(threads := s.threads[tid := th'], log := s.log + es), mem0)
  {
    var s' := s.(threads := s.threads[tid := th'], log := s.log + es);
    if es == [] {
      assert s'.log == s.log;
    } else {
      AppendEvent(mem0, s.log, es[0]);
      assert s.mem[es[0].call.cell := s.mem[es[0].call.cell]] == s.mem;
    }
  }

  lemma {:induction false} StepKeepsInv(s: State, mem0: seq<Word>, choice: Choice)
    requires Inv(s, mem0)
    ensures Inv(Step(s, choice), mem0)
  {
    hide Legal, Replay, EventsOf;
    var tid := choice.tid;
    if tid < |s.threads| && s.threads[tid].Busy() {
      var th := s.threads[tid];
      var call := th.Current();
      assert s.log + [] == s.log;
      assert EventsOf(s.log, tid) + [] == EventsOf(s.log, tid);
      if choice.LoseReservation? {
        var th' := th.(reserved := false);
        assert ThreadHistory(th', tid) == ThreadHistory(th, tid);
        QuietStepKeepsInv(s, mem0, tid, th', []);
      } else if th.pc.Enter? {
        if call.op.Store? || (s.arch.CasOnly? && call.op.Cas?) {
          CommitKeepsInv(s, mem0, tid, s.mem[call.cell]);
        } else {
          var th' := th.(pc := Loaded(s.mem[call.cell]), reserved := true);
          var es := if th'.CasMissed() then [Event(tid, call, s.mem[call.cell])] else [];
          assert ThreadHistory(th', tid) == ThreadHistory(th, tid) + es;
          QuietStepKeepsInv(s, mem0, tid, th', es);
        }
      } else if th.CasMissed() {
        ReturnHistory(th, tid, th.pc.seen);
        QuietStepKeepsInv(s, mem0, tid, th.Return(th.pc.seen), []);
      } else if if s.arch.LoadLinked? then th.reserved else s.mem[call.cell] == th.pc.seen {
        CommitKeepsInv(s, mem0, tid, th.pc.seen);
      } else {
        var th' := th.(pc := Enter);
        assert ThreadHistory(th', tid) == ThreadHistory(th, tid);
        QuietStepKeepsInv(s, mem0, tid, th', []);
      }
    }
  }

  // ---------------------------------------------------------------- main theorems

  /** Every run, under every schedule, on either kind of platform, has a history of one-step atomic
      operations that explains memory, every returned value and every thread's program order. */
  lemma {:induction false} Atomicity(s0: State, schedule: seq<Choice>)
    requires Initial(s0)
    ensures var s := Exec(s0, schedule);
      && Legal(s0.mem, s.log)
      && s.mem == Replay(s0.mem, s.log)
      && (forall t :: 0 <= t < |s.threads| ==>
            |s.threads[t].returned| <= |s.threads[t].program| && EventsOf(s.log, t) == ThreadHistory(s.threads[t], t))
      && Inv(s, s0.mem)
    decreases |schedule|
  {
    if schedule == [] {
      forall t | 0 <= t < |s0.threads|
        ensures ThreadInv(s0.threads[t], t, s0.arch, s0.mem, EventsOf(s0.log, t))
      {
        assert ThreadHistory(s0.threads[t], t) == [];
      }
    } else {
      Atomicity(s0, schedule[..|schedule| - 1]);
      StepKeepsInv(Exec(s0, schedule[..|schedule| - 1]), s0.mem, schedule[|schedule| - 1]);
    }
  }

  /** What has taken effect stays, and keeps its place. */
  lemma {:induction false} HistoryOnlyGrows(s0: State, schedule: seq<Choice>, k: nat)
    requires CellsExist(s0) && k <= |schedule|
    ensures Exec(s0, schedule[..k]).log <= Exec(s0, schedule).log
    decreases |schedule|
  {
    if k == |schedule| {
      assert schedule[..k] == schedule;
    } else {
      var init := schedule[..|schedule| - 1];
      assert init[..k] == schedule[..k];
      HistoryOnlyGrows(s0, init, k);
      StepAppends(Exec(s0, init), schedule[|schedule| - 1]);
    }
  }

  lemma {:induction false} StepAppends(s: State, choice: Choice)
    requires CellsExist(s)
    ensures s.log <= Step(s, choice).log
  {
  }

  /** The event at position `p` of the log is call `i` of thread `t`. */
  predicate PlaceOf(log: seq<Event>, p: nat, t: nat, i: nat) {
    p < |log| && log[p].tid == t && |EventsOf(log[..p], t)| == i
  }

  lemma {:induction false} EventsOfGrow(log: seq<Event>, n: nat, t: nat)
    requires n <= |log|
    ensures EventsOf(log[..n], t) <= EventsOf(log, t)
    decreases |log|
  {
    if n == |log| {
      assert log[..n] == log;
    } else {
      var init := log[..|log| - 1];
      assert init[..n] == log[..n];
      EventsOfGrow(init, n, t);
    }
  }

  /** Its event is that element of the thread's share of the log. */
  lemma {:induction false} EventAtPlace(log: seq<Event>, p: nat, t: nat, i: nat)
    requires PlaceOf(log, p, t, i)
    ensures |EventsOf(log[..p + 1], t)| == i + 1 && i < |EventsOf(log, t)| && EventsOf(log, t)[i] == log[p]
  {
    assert log[..p + 1][..p] == log[..p] && log[..p + 1][p] == log[p];
    EventsOfGrow(log, p + 1, t);
  }

  lemma {:induction false} FindPlace(log: seq<Event>, t: nat, i: nat) returns (p: nat)
    requires i < |EventsOf(log, t)|
    ensures PlaceOf(log, p, t, i)
  {
    var init := log[..|log| - 1];
    if i < |EventsOf(init, t)| {
      p := FindPlace(init, t, i);
      assert init[..p] == log[..p];
    } else {
      p := |log| - 1;
    }
  }

  /** Every call that has returned has its place in the history, with the operation and the value it returned. */
  lemma {:induction false} CallHasPlace(s0: State, schedule: seq<Choice>, t: nat, i: nat) returns (p: nat)
    requires Initial(s0) && t < |s0.threads| && i < |Exec(s0, schedule).threads[t].returned|
    ensures var s := Exec(s0, schedule);
      && PlaceOf(s.log, p, t, i) && i < |s0.threads[t].program|
      && s.log[p] == Event(t, s0.threads[t].program[i], s.threads[t].returned[i])
  {
    hide Exec;
    Atomicity(s0, schedule);
    p := FindPlace(Exec(s0, schedule).log, t, i);
    EventAtPlace(Exec(s0, schedule).log, p, t, i);
  }

  lemma {:induction false} EventsBetween(log: seq<Event>, m: nat, n: nat, t: nat)
    requires m <= n <= |log|
    ensures |EventsOf(log[..m], t)| <= |EventsOf(log[..n], t)|
  {
    EventsOfGrow(log[..n], m, t);
    assert log[..n][..m] == log[..m];
  }

  lemma {:induction false} PlacesAround(log: seq<Event>, n: nat, t: nat, i: nat, u: nat, j: nat, p: nat, q: nat)
    requires n <= |log| && PlaceOf(log, p, t, i) && PlaceOf(log, q, u, j)
    requires |EventsOf(log[..n], t)| > i && |EventsOf(log[..n], u)| <= j
    ensures p < n <= q
  {
    EventAtPlace(log, q, u, j);
    if p >= n {
      EventsBetween(log, n, p, t);
    }
    if q < n {
      EventsBetween(log, q + 1, n, u);
    }
  }

  lemma {:induction false} EventsSoFar(s0: State, schedule: seq<Choice>, t: nat)
    requires Initial(s0) && t < |s0.threads|
    ensures var s := Exec(s0, schedule);
      && |s.threads[t].returned| <= |EventsOf(s.log, t)| <= |s.threads[t].returned| + 1
      && (s.threads[t].pc.Enter? ==> |EventsOf(s.log, t)| == |s.threads[t].returned|)
  {
    hide Exec, Legal, Inv;
    Atomicity(s0, schedule);
  }

  /** Real time is respected: a call that has returned before another is entered has its place before it in the history
      of the whole run. */
  lemma {:induction false} RealTimeOrder(s0: State, schedule: seq<Choice>, k: nat, t: nat, i: nat, u: nat, j: nat,
                                         p: nat, q: nat)
    requires Initial(s0) && k <= |schedule| && t < |s0.threads| && u < |s0.threads|
    requires var s := Exec(s0, schedule[..k]);
      && i < |s.threads[t].returned|
      && (j > |s.threads[u].returned| || (j == |s.threads[u].returned| && s.threads[u].pc.Enter?))
    requires PlaceOf(Exec(s0, schedule).log, p, t, i) && PlaceOf(Exec(s0, schedule).log, q, u, j)
    ensures p < q
  {
    hide Exec, EventsOf, PlaceOf;
    var log, early := Exec(s0, schedule).log, Exec(s0, schedule[..k]).log;
    EventsSoFar(s0, schedule[..k], t);
    EventsSoFar(s0, schedule[..k], u);
    HistoryOnlyGrows(s0, schedule, k);
    assert early == log[..|early|];
    PlacesAround(log, |early|, t, i, u, j, p, q);
  }

  // ---------------------------------------------------------------- commuting fetch-operations

  /** The fetch-operations whose order cannot be told from the final value. */
  datatype Kind = Add | Or | And

  function Combine(kind: Kind, x: Word, y: Word): Word {
    match kind
    case Add => Plus(x, y)
    case Or => Or32(x, y)
    case And => And32(x, y)
  }

  function Unit(kind: Kind): Word {
    if kind.And? then MODULUS - 1 else 0
  }

  predicate IsOf(kind: Kind, op: Op) {
    match kind
    case Add => op.FetchAdd?
    case Or => op.FetchOr?
    case And => op.FetchAnd?
  }

  lemma {:induction false} AndUnit(x: Word)
    ensures And32(x, MODULUS - 1) == x
  {
    hide BitAnd;
    ModulusIsPow2();
    AllOnes(x, 32);
  }

  lemma {:induction false} PlusIs(x: Word, y: Word)
    ensures Plus(x, y) == if x + y < MODULUS then x + y else x + y - MODULUS
  {
  }

  lemma {:induction false} AddLaws(x: Word, y: Word, z: Word)
    ensures Plus(Plus(x, y), z) == Plus(x, Plus(y, z)) && Plus(x, y) == Plus(y, x) && Plus(x, 0) == x
  {
    hide Plus;
    PlusIs(x, y);
    PlusIs(y, x);
    PlusIs(y, z);
    PlusIs(x, 0);
    PlusIs(Plus(x, y), z);
    PlusIs(x, Plus(y, z));
  }

  /** Each kind is a commutative monoid on 32-bit words. */
  lemma {:induction false} CombineLaws(kind: Kind, x: Word, y: Word, z: Word)
    ensures Combine(kind, Combine(kind, x, y), z) == Combine(kind, x, Combine(kind, y, z))
    ensures Combine(kind, x, y) == Combine(kind, y, x)
    ensures Combine(kind, x, Unit(kind)) == x
  {
    hide BitAnd, BitOr, Plus;
    match kind
    case Add => AddLaws(x, y, z);
    case Or => OrLaws(x, y, z);
    case And =>
      AndLaws(x, y, z);
      AndUnit(x);
  }

  /** The operand a call contributes to a cell. */
  function Share(kind: Kind, call: Call, cell: nat): Word {
    if call.cell == cell && IsOf(kind, call.op) then call.op.v else Unit(kind)
  }

  /** The operands of all events at a cell, combined. */
  function Fold(kind: Kind, log: seq<Event>, cell: nat): Word {
    if log == [] then Unit(kind)
    else Combine(kind, Fold(kind, log[..|log| - 1], cell), Share(kind, log[|log| - 1].call, cell))
  }

  predicate OnlyKindAt(kind: Kind, program: seq<Call>, cell: nat) {
    forall i :: 0 <= i < |program| && program[i].cell == cell ==> IsOf(kind, program[i].op)
  }

  lemma {:induction false} ReplayFolds(kind: Kind, mem0: seq<Word>, log: seq<Event>, cell: nat)
    requires cell < |mem0|
    requires forall k :: 0 <= k < |log| && log[k].call.cell == cell ==> IsOf(kind, log[k].call.op)
    ensures Replay(mem0, log)[cell] == Combine(kind, mem0[cell], Fold(kind, log, cell))
  {
    if log == [] {
      CombineLaws(kind, mem0[cell], mem0[cell], mem0[cell]);
    } else {
      var before := log[..|log| - 1];
      var call := log[|log| - 1].call;
      ReplayFolds(kind, mem0, before, cell);
      UpdatedCombines(kind, call, cell, Replay(mem0, before)[cell]);
      CombineLaws(kind, mem0[cell], Fold(kind, before, cell), Share(kind, call, cell));
    }
  }

  lemma {:induction false} UpdatedCombines(kind: Kind, call: Call, cell: nat, seen: Word)
    requires call.cell == cell ==> IsOf(kind, call.op)
    ensures Combine(kind, seen, Share(kind, call, cell)) ==
            if call.cell == cell then Updated(call.op, seen) else seen
  {
    CombineLaws(kind, seen, seen, seen);
  }

  lemma {:induction false} EventInItsThread(log: seq<Event>, k: nat)
    requires k < |log|
    ensures log[k] in EventsOf(log, log[k].tid)
  {
    var before := log[..|log| - 1];
    if k < |before| {
      assert before[k] == log[k];
      EventInItsThread(before, k);
    }
  }

  lemma {:induction false} LogHoldsProgramCalls(s: State, mem0: seq<Word>, k: nat)
    requires Inv(s, mem0) && k < |s.log|
    ensures s.log[k].call in s.threads[s.log[k].tid].program
  {
    var t := s.log[k].tid;
    EventInItsThread(s.log, k);
    assert ThreadInv(s.threads[t], t, s.arch, s.mem, EventsOf(s.log, t));
  }

  /** While only calls of one kind run on a cell, it holds the initial value combined with the operands
      committed so far, and every call returned that combination as it stood just before. */
  lemma {:induction false} CommittedOperands(kind: Kind, s0: State, schedule: seq<Choice>, cell: nat)
    requires Initial(s0) && cell < |s0.mem|
    requires forall t :: 0 <= t < |s0.threads| ==> OnlyKindAt(kind, s0.threads[t].program, cell)
    ensures var s := Exec(s0, schedule);
      && s.mem[cell] == Combine(kind, s0.mem[cell], Fold(kind, s.log, cell))
      && forall k :: 0 <= k < |s.log| && s.log[k].call.cell == cell ==>
           s.log[k].ret == Combine(kind, s0.mem[cell], Fold(kind, s.log[..k], cell))
  {
    Atomicity(s0, schedule);
    var s := Exec(s0, schedule);
    forall k | 0 <= k < |s.log| && s.log[k].call.cell == cell
      ensures IsOf(kind, s.log[k].call.op)
    {
      LogHoldsProgramCalls(s, s0.mem, k);
      assert OnlyKindAt(kind, s0.threads[s.log[k].tid].program, cell);
    }
    ReplayFolds(kind, s0.mem, s.log, cell);
    forall k | 0 <= k < |s.log| && s.log[k].call.cell == cell
      ensures s.log[k].ret == Combine(kind, s0.mem[cell], Fold(kind, s.log[..k], cell))
    {
      ReplayFolds(kind, s0.mem, s.log[..k], cell);
    }
  }

  // ---------------------------------------------------------------- when every call has returned

  /** The log's operands thread by thread, instead of in the order they took effect. */
  function FoldThreads(kind: Kind, log: seq<Event>, n: nat, cell: nat): Word {
    if n == 0 then Unit(kind)
    else Combine(kind, FoldThreads(kind, log, n - 1, cell), Fold(kind, EventsOf(log, n - 1), cell))
  }

  function FoldProgram(kind: Kind, program: seq<Call>, cell: nat): Word {
    if program == [] then Unit(kind)
    else Combine(kind, FoldProgram(kind, program[..|program| - 1], cell), Share(kind, program[|program| - 1], cell))
  }

  function FoldPrograms(kind: Kind, threads: seq<Thread>, cell: nat): Word {
    if threads == [] then Unit(kind)
    else Combine(kind, FoldPrograms(kind, threads[..|threads| - 1], cell),
                 FoldProgram(kind, threads[|threads| - 1].program, cell))
  }

  lemma {:induction false} FoldThreadsAppend(kind: Kind, log: seq<Event>, e: Event, n: nat, cell: nat)
    ensures FoldThreads(kind, log + [e], n, cell) ==
            if e.tid < n then Combine(kind, FoldThreads(kind, log, n, cell), Share(kind, e.call, cell))
            else FoldThreads(kind, log, n, cell)
  {
    if n > 0 {
      FoldThreadsAppend(kind, log, e, n - 1, cell);
      assert (log + [e])[..|log|] == log;
      var rest := FoldThreads(kind, log, n - 1, cell);
      var mine := Fold(kind, EventsOf(log, n - 1), cell);
      var share := Share(kind, e.call, cell);
      if e.tid == n - 1 {
        assert (EventsOf(log, n - 1) + [e])[..|EventsOf(log, n - 1)|] == EventsOf(log, n - 1);
        CombineLaws(kind, rest, mine, share);
      } else if e.tid < n - 1 {
        CombineLaws(kind, rest, share, mine);
        CombineLaws(kind, rest, mine, share);
        CombineLaws(kind, mine, share, share);
      }
    }
  }

  lemma {:induction false} FoldByThread(kind: Kind, log: seq<Event>, n: nat, cell: nat)
    requires forall k :: 0 <= k < |log| ==> log[k].tid < n
    ensures Fold(kind, log, cell) == FoldThreads(kind, log, n, cell)
  {
    if log == [] {
      FoldNothing(kind, n, cell);
    } else {
      FoldByThread(kind, log[..|log| - 1], n, cell);
      FoldThreadsAppend(kind, log[..|log| - 1], log[|log| - 1], n, cell);
      assert log == log[..|log| - 1] + [log[|log| - 1]];
    }
  }

  lemma {:induction false} FoldNothing(kind: Kind, n: nat, cell: nat)
    ensures FoldThreads(kind, [], n, cell) == Unit(kind)
  {
    if n > 0 {
      FoldNothing(kind, n - 1, cell);
      CombineLaws(kind, Unit(kind), Unit(kind), Unit(kind));
    }
  }

  lemma {:induction false} FoldOfCompleted(kind: Kind, th: Thread, tid: nat, n: nat, cell: nat)
    requires n <= |th.returned| <= |th.program|
    ensures Fold(kind, Completed(th, tid, n), cell) == FoldProgram(kind, th.program[..n], cell)
  {
    if n > 0 {
      FoldOfCompleted(kind, th, tid, n - 1, cell);
      assert Completed(th, tid, n)[..n - 1] == Completed(th, tid, n - 1);
      assert th.program[..n][..n - 1] == th.program[..n - 1];
    }
  }

  lemma {:induction false} FoldOfFinished(kind: Kind, s: State, mem0: seq<Word>, t: nat, cell: nat)
    requires Inv(s, mem0) && t < |s.threads| && s.threads[t].Finished()
    ensures Fold(kind, EventsOf(s.log, t), cell) == FoldProgram(kind, s.threads[t].program, cell)
  {
    var th := s.threads[t];
    assert ThreadInv(th, t, s.arch, s.mem, EventsOf(s.log, t));
    assert ThreadHistory(th, t) == Completed(th, t, |th.returned|);
    FoldOfCompleted(kind, th, t, |th.returned|, cell);
    assert th.program[..|th.returned|] == th.program;
  }

  lemma {:induction false} FoldThreadsIsFoldPrograms(kind: Kind, log: seq<Event>, threads: seq<Thread>, n: nat,
                                                     cell: nat)
    requires n <= |threads|
    requires forall t :: 0 <= t < n ==>
               Fold(kind, EventsOf(log, t), cell) == FoldProgram(kind, threads[t].program, cell)
    ensures FoldThreads(kind, log, n, cell) == FoldPrograms(kind, threads[..n], cell)
  {
    if n > 0 {
      FoldThreadsIsFoldPrograms(kind, log, threads, n - 1, cell);
      assert threads[..n][..n - 1] == threads[..n - 1];
    }
  }

  lemma {:induction false} SamePrograms(kind: Kind, a: seq<Thread>, b: seq<Thread>, cell: nat)
    requires |a| == |b| && forall t :: 0 <= t < |a| ==> a[t].program == b[t].program
    ensures FoldPrograms(kind, a, cell) == FoldPrograms(kind, b, cell)
  {
    if a != [] {
      SamePrograms(kind, a[..|a| - 1], b[..|b| - 1], cell);
    }
  }

  /** Nothing is lost: once every call has returned, the cell holds the initial value combined with the
      operand of every call of every program, however the calls interleaved. */
  lemma {:induction false} FinalValue(kind: Kind, s0: State, schedule: seq<Choice>, cell: nat)
    requires Initial(s0) && cell < |s0.mem|
    requires forall t :: 0 <= t < |s0.threads| ==> OnlyKindAt(kind, s0.threads[t].program, cell)
    requires forall t :: 0 <= t < |s0.threads| ==> Exec(s0, schedule).threads[t].Finished()
    ensures Exec(s0, schedule).mem[cell] == Combine(kind, s0.mem[cell], FoldPrograms(kind, s0.threads, cell))
  {
    var s := Exec(s0, schedule);
    CommittedOperands(kind, s0, schedule, cell);
    Atomicity(s0, schedule);
    FoldByThread(kind, s.log, |s.threads|, cell);
    forall t | 0 <= t < |s.threads|
      ensures Fold(kind, EventsOf(s.log, t), cell) == FoldProgram(kind, s.threads[t].program, cell)
    {
      FoldOfFinished(kind, s, s0.mem, t, cell);
    }
    FoldThreadsIsFoldPrograms(kind, s.log, s.threads, |s.threads|, cell);
    assert s.threads[..|s.threads|] == s.threads;
    SamePrograms(kind, s.threads, s0.threads, cell);
  }

  // ---------------------------------------------------------------- a_or_64 and a_and_64

  const MODULUS64: nat := 0x1_0000_0000_0000_0000

  type Wide = x: nat | x < MODULUS64

  /** The union { uint64_t v; uint32_t r[2]; }, low half first. */
  function Join(low: Word, high: Word): Wide {
    low + MODULUS * high
  }

  function Low(v: Wide): Word {
    v % MODULUS
  }

  function High(v: Wide): Word {
    v / MODULUS
  }

  function Combine64(kind: Kind, x: Wide, y: Wide): Wide
    requires !kind.Add?
  {
    ModulusIsPow2();
    WordsStayWords(x, y, 64);
    if kind.Or? then BitOr(x, y) else BitAnd(x, y)
  }

  function Unit64(kind: Kind): Wide
    requires !kind.Add?
  {
    if kind.Or? then 0 else MODULUS64 - 1
  }

  function Fetch(kind: Kind, v: Word): Op {
    match kind
    case Add => FetchAdd(v)
    case Or => FetchOr(v)
    case And => FetchAnd(v)
  }

  /** a_or_64(p, v) or a_and_64(p, v): one call for each half whose operand would change something. */
  function Calls64(kind: Kind, base: nat, v: Wide): seq<Call>
    requires !kind.Add?
  {
    (if Low(v) == Unit(kind) then [] else [Call(base, Fetch(kind, Low(v)))])
    + (if High(v) == Unit(kind) then [] else [Call(base + 1, Fetch(kind, High(v)))])
  }

  function Program64(kind: Kind, base: nat, args: seq<Wide>): seq<Call>
    requires !kind.Add?
  {
    if args == [] then []
    else Program64(kind, base, args[..|args| - 1]) + Calls64(kind, base, args[|args| - 1])
  }

  function Fold64(kind: Kind, args: seq<Wide>): Wide
    requires !kind.Add?
  {
    if args == [] then Unit64(kind) else Combine64(kind, Fold64(kind, args[..|args| - 1]), args[|args| - 1])
  }

  function FoldAll64(kind: Kind, argLists: seq<seq<Wide>>): Wide
    requires !kind.Add?
  {
    if argLists == [] then Unit64(kind)
    else Combine64(kind, FoldAll64(kind, argLists[..|argLists| - 1]), Fold64(kind, argLists[|argLists| - 1]))
  }

  lemma {:induction false} JoinCombines(kind: Kind, a: Word, b: Word, c: Word, d: Word)
    requires !kind.Add?
    ensures Join(Combine(kind, a, c), Combine(kind, b, d)) == Combine64(kind, Join(a, b), Join(c, d))
  {
    ModulusIsPow2();
    SplitWord(a, b, c, d, 32);
  }

  lemma {:induction false} JoinUnits(kind: Kind)
    requires !kind.Add?
    ensures Join(Unit(kind), Unit(kind)) == Unit64(kind)
  {
  }

  lemma {:induction false} JoinSplits(v: Wide)
    ensures Join(Low(v), High(v)) == v
  {
  }

  lemma {:induction false} FoldProgramAppends(kind: Kind, a: seq<Call>, b: seq<Call>, cell: nat)
    ensures FoldProgram(kind, a + b, cell) == Combine(kind, FoldProgram(kind, a, cell), FoldProgram(kind, b, cell))
  {
    if b == [] {
      assert a + b == a;
      CombineLaws(kind, FoldProgram(kind, a, cell), 0, 0);
    } else {
      var b' := b[..|b| - 1];
      assert (a + b)[..|a + b| - 1] == a + b';
      FoldProgramAppends(kind, a, b', cell);
      CombineLaws(kind, FoldProgram(kind, a, cell), FoldProgram(kind, b', cell), Share(kind, b[|b| - 1], cell));
    }
  }

  lemma {:induction false} FoldOneCall(kind: Kind, call: Call, cell: nat)
    ensures FoldProgram(kind, [call], cell) == Share(kind, call, cell)
  {
    CombineLaws(kind, Unit(kind), Share(kind, call, cell), 0);
    CombineLaws(kind, Share(kind, call, cell), 0, 0);
    assert [call][..0] == [];
  }

  /** Skipping a half that would change nothing does not matter. */
  lemma {:induction false} FoldCalls64(kind: Kind, base: nat, v: Wide)
    requires !kind.Add?
    ensures FoldProgram(kind, Calls64(kind, base, v), base) == Low(v)
    ensures FoldProgram(kind, Calls64(kind, base, v), base + 1) == High(v)
  {
    var lows := if Low(v) == Unit(kind) then [] else [Call(base, Fetch(kind, Low(v)))];
    var highs := if High(v) == Unit(kind) then [] else [Call(base + 1, Fetch(kind, High(v)))];
    FoldProgramAppends(kind, lows, highs, base);
    FoldProgramAppends(kind, lows, highs, base + 1);
    FoldOneCall(kind, Call(base, Fetch(kind, Low(v))), base);
    FoldOneCall(kind, Call(base, Fetch(kind, Low(v))), base + 1);
    FoldOneCall(kind, Call(base + 1, Fetch(kind, High(v))), base);
    FoldOneCall(kind, Call(base + 1, Fetch(kind, High(v))), base + 1);
    CombineLaws(kind, Low(v), Unit(kind), 0);
    CombineLaws(kind, High(v), Unit(kind), 0);
    CombineLaws(kind, Unit(kind), Unit(kind), 0);
  }

  lemma {:induction false} FoldProgram64(kind: Kind, base: nat, args: seq<Wide>)
    requires !kind.Add?
    ensures Join(FoldProgram(kind, Program64(kind, base, args), base),
                 FoldProgram(kind, Program64(kind, base, args), base + 1)) == Fold64(kind, args)
  {
    if args == [] {
      JoinUnits(kind);
    } else {
      var init, last := args[..|args| - 1], args[|args| - 1];
      var front, back := Program64(kind, base, init), Calls64(kind, base, last);
      FoldProgram64(kind, base, init);
      FoldCalls64(kind, base, last);
      FoldProgramAppends(kind, front, back, base);
      FoldProgramAppends(kind, front, back, base + 1);
      JoinCombines(kind, FoldProgram(kind, front, base), FoldProgram(kind, front, base + 1), Low(last), High(last));
      JoinSplits(last);
    }
  }

  lemma {:induction false} FoldPrograms64(kind: Kind, base: nat, threads: seq<Thread>, argLists: seq<seq<Wide>>)
    requires !kind.Add? && |threads| == |argLists|
    requires forall t :: 0 <= t < |threads| ==> threads[t].program == Program64(kind, base, argLists[t])
    ensures Join(FoldPrograms(kind, threads, base), FoldPrograms(kind, threads, base + 1)) == FoldAll64(kind, argLists)
  {
    if threads != [] {
      var n := |threads| - 1;
      FoldPrograms64(kind, base, threads[..n], argLists[..n]);
      FoldProgram64(kind, base, argLists[n]);
      JoinCombines(kind, FoldPrograms(kind, threads[..n], base), FoldPrograms(kind, threads[..n], base + 1),
                   FoldProgram(kind, threads[n].program, base), FoldProgram(kind, threads[n].program, base + 1));
    }
  }

  lemma {:induction false} Program64Kind(kind: Kind, base: nat, args: seq<Wide>, cell: nat)
    requires !kind.Add?
    ensures OnlyKindAt(kind, Program64(kind, base, args), cell)
  {
    if args != [] {
      Program64Kind(kind, base, args[..|args| - 1], cell);
    }
  }

  /** Although a_or_64 (a_and_64) is two separate 32-bit operations, either of which may be skipped, in
      every interleaving the 64-bit word ends up as its initial value OR-ed (AND-ed) with every argument. */
  lemma {:induction false} WideFinalValue(kind: Kind, s0: State, schedule: seq<Choice>, base: nat,
                                          argLists: seq<seq<Wide>>)
    requires !kind.Add? && Initial(s0) && base + 1 < |s0.mem| && |argLists| == |s0.threads|
    requires forall t :: 0 <= t < |s0.threads| ==> s0.threads[t].program == Program64(kind, base, argLists[t])
    requires forall t :: 0 <= t < |s0.threads| ==> Exec(s0, schedule).threads[t].Finished()
    ensures var s := Exec(s0, schedule);
      Join(s.mem[base], s.mem[base + 1]) ==
      Combine64(kind, Join(s0.mem[base], s0.mem[base + 1]), FoldAll64(kind, argLists))
  {
    forall t, cell | 0 <= t < |s0.threads| && base <= cell <= base + 1
      ensures OnlyKindAt(kind, s0.threads[t].program, cell)
    {
      Program64Kind(kind, base, argLists[t], cell);
    }
    FinalValue(kind, s0, schedule, base);
    FinalValue(kind, s0, schedule, base + 1);
    FoldPrograms64(kind, base, s0.threads, argLists);
    JoinCombines(kind, s0.mem[base], s0.mem[base + 1],
                 FoldPrograms(kind, s0.threads, base), FoldPrograms(kind, s0.threads, base + 1));
  }
}
