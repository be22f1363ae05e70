/** Racing calls of getauxval (musl/getauxval.c): a dispatch pointer swung by compare-and-swap while
    any number of threads fill the same table, as a transition system over single memory accesses. */
module Getauxval {

  const AT_NULL: nat := 0
  const AT_IGNORE: nat := 1
  const AT_IGNOREPPC: nat := 22
  const AT_SECURE: nat := 23
  const TABLE_SIZE: nat := 128

  /** One record of the kernel's auxiliary vector; the terminating AT_NULL record is not listed. */
  datatype Record = Record(kind: nat, value: nat)

  predicate Ignored(kind: nat) {
    kind == AT_IGNORE || kind == AT_IGNOREPPC
  }

  /** What both sources must show: no early terminator, no type outside the table (that aborts), and each
      type once. */
  predicate WellFormed(vector: seq<Record>) {
    && (forall i :: 0 <= i < |vector| ==> vector[i].kind != AT_NULL && vector[i].kind < TABLE_SIZE)
    && (forall i, j :: 0 <= i < j < |vector| ==> vector[i].kind != vector[j].kind)
  }

  /** The kernel's answer for a type: the value of its record, 0 when it has none. */
  function Lookup(vector: seq<Record>, kind: nat): nat {
    if vector == [] then 0
    else if vector[0].kind == kind then vector[0].value
    else Lookup(vector[1..], kind)
  }

  lemma {:induction false} LookupFinds(vector: seq<Record>, i: nat)
    requires WellFormed(vector) && i < |vector|
    ensures Lookup(vector, vector[i].kind) == vector[i].value
  {
    if i > 0 {
      LookupFinds(vector[1..], i - 1);
    }
  }

  lemma {:induction false} LookupMisses(vector: seq<Record>, kind: nat)
    requires forall i :: 0 <= i < |vector| ==> vector[i].kind != kind
    ensures Lookup(vector, kind) == 0
  {
    if vector != [] {
      LookupMisses(vector[1..], kind);
    }
  }

  /** The words behind the environment: each record flattened, then an AT_NULL record. */
  function Flatten(vector: seq<Record>): (words: seq<nat>)
    ensures |words| == 2 * |vector| + 2
  {
    if vector == [] then [AT_NULL, 0] else [vector[0].kind, vector[0].value] + Flatten(vector[1..])
  }

  lemma {:induction false} FlattenAt(vector: seq<Record>, i: nat)
    requires i <= |vector|
    ensures Flatten(vector)[2 * i] == if i < |vector| then vector[i].kind else AT_NULL
    ensures i < |vector| ==> Flatten(vector)[2 * i + 1] == vector[i].value
  {
    if i > 0 {
      FlattenAt(vector[1..], i - 1);
    }
  }

  /** __find_auxv: the index of the value belonging to a type, or none. */
  method FindAuxv(words: seq<nat>, kind: nat, ghost vector: seq<Record>) returns (found: bool, index: nat)
    requires WellFormed(vector) && words == Flatten(vector)
    ensures found <==> exists i :: 0 <= i < |vector| && vector[i].kind == kind
    ensures found ==> index < |words| && words[index] == Lookup(vector, kind)
    ensures !found ==> Lookup(vector, kind) == 0
  {
    index := 0;
    ghost var n := 0;
    FlattenAt(vector, 0);
    while words[index] != 0
      invariant n <= |vector| && index == 2 * n
      invariant words[index] == if n < |vector| then vector[n].kind else AT_NULL
      invariant forall i :: 0 <= i < n ==> vector[i].kind != kind
      decreases |words| - index
    {
      FlattenAt(vector, n);
      if words[index] == kind {
        LookupFinds(vector, n);
        found, index := true, index + 1;
        return;
      }
      FlattenAt(vector, n + 1);
      index, n := index + 2, n + 1;
    }
    LookupMisses(vector, kind);
    found := false;
  }

  // ---------------------------------------------------------------- the machine

  /** The functions the dispatch pointer can hold. */
  datatype Handler = InitProcfs | GetProcfs | InitEnviron | GetEnviron

  /** Program points of one call of getauxval; each step reads or writes shared memory at most once. */
  datatype Pc =
    | Idle
    | Dispatch                     // about to read getauxval_func
    | Open                         // __auxv_init_procfs: about to open /proc/self/auxv
    | CasToEnviron                 // the open failed: swing the pointer to __auxv_init_environ
    | Fill(next: nat)              // about to read record `next` and to store it
    | ReadSecure                   // right-hand side of __auxv_secure = __getauxval_procfs(AT_SECURE)
    | WriteSecure(seen: nat)       // left-hand side of the same assignment
    | CasToProcfs
    | ProcfsGetter                 // __getauxval_procfs(type)
    | TestEnviron                  // __auxv_init_environ: if (!__environ)
    | SetVector                    // __auxv_environ = ...
    | EnvironSecure                // __auxv_secure = the vector's AT_SECURE, when it has one
    | CasToGetEnviron
    | EnvironGetter                // __getauxval_environ(type)

  /** A finished call: the type asked for, the value returned, and whether it gave up on a null __environ. */
  datatype Answer = Answer(kind: nat, value: nat, gaveUp: bool)

  datatype Thread = Thread(asks: seq<nat>, answers: seq<Answer>, pc: Pc) {
    predicate Busy() {
      |answers| < |asks|
    }

    function Kind(): nat
      requires Busy()
    {
      asks[|answers|]
    }
  }

  /** The variables all threads share. */
  datatype Shared = Shared(
    handler: Handler,        // getauxval_func
    table: seq<nat>,         // __auxv_procfs
    secure: nat,             // __auxv_secure
    vectorSet: bool,         // __auxv_environ != NULL
    environSet: bool)        // __environ != NULL

  /** The kernel's vector never changes. */
  datatype State = State(vector: seq<Record>, shared: Shared, threads: seq<Thread>)

  /** The scheduler's choice: one step of a thread (an open may succeed or fail), or the C library
      setting __environ. */
  datatype Choice = Run(tid: nat, openSucceeds: bool) | EnvironAppears

  function Answered(th: Thread, value: nat, gaveUp: bool): Thread
    requires th.Busy()
  {
    th.(answers := th.answers + [Answer(th.Kind(), value, gaveUp)], pc := Idle)
  }

  function HandlerEntry(h: Handler): Pc {
    match h
    case InitProcfs => Open
    case GetProcfs => ProcfsGetter
    case InitEnviron => TestEnviron
    case GetEnviron => EnvironGetter
  }

  /** a_cas_p on the dispatch pointer. */
  function Swing(sh: Shared, expected: Handler, next: Handler): Shared {
    if sh.handler == expected then sh.(handler := next) else sh
  }

  predicate HasSecure(vector: seq<Record>) {
    exists i :: 0 <= i < |vector| && vector[i].kind == AT_SECURE
  }

  /** Storing one record. A type outside the table aborts the process; a well-formed vector has none. */
  function StoreRecord(sh: Shared, r: Record): Shared {
    if Ignored(r.kind) || r.kind >= |sh.table| then sh else sh.(table := sh.table[r.kind := r.value])
  }

  function ReadProcfs(sh: Shared, kind: nat): nat {
    if kind == AT_SECURE then sh.secure else if kind >= |sh.table| then 0 else sh.table[kind]
  }

  function ReadEnviron(vector: seq<Record>, sh: Shared, kind: nat): nat {
    if kind == AT_SECURE then sh.secure else if sh.vectorSet then Lookup(vector, kind) else 0
  }

  /** What a thread's next step does to the shared variables. */
  function NextShared(vector: seq<Record>, sh: Shared, th: Thread): Shared {
    match th.pc
    case CasToEnviron => Swing(sh, InitProcfs, InitEnviron)
    case Fill(next) => if next < |vector| then StoreRecord(sh, vector[next]) else sh
    case WriteSecure(seen) => sh.(secure := seen)
    case CasToProcfs => Swing(sh, InitProcfs, GetProcfs)
    case SetVector => sh.(vectorSet := true)
    case EnvironSecure => if HasSecure(vector) then sh.(secure := Lookup(vector, AT_SECURE)) else sh
    case CasToGetEnviron => Swing(sh, InitEnviron, GetEnviron)
    case _ => sh
  }

  /** What a thread's next step does to itself. */
  function NextThread(vector: seq<Record>, sh: Shared, th: Thread, openSucceeds: bool): Thread
    requires th.Busy()
  {
    match th.pc
    case Idle => th.(pc := Dispatch)
    case Dispatch => th.(pc := HandlerEntry(sh.handler))
    case Open => th.(pc := if openSucceeds then Fill(0) else CasToEnviron)
    case CasToEnviron => th.(pc := TestEnviron)
    case Fill(next) => th.(pc := if next < |vector| then Fill(next + 1) else ReadSecure)
    case ReadSecure => th.(pc := WriteSecure(sh.secure))
    case WriteSecure(_) => th.(pc := CasToProcfs)
    case CasToProcfs => th.(pc := ProcfsGetter)
    case ProcfsGetter => Answered(th, ReadProcfs(sh, th.Kind()), false)
    case TestEnviron => if sh.environSet then th.(pc := SetVector) else Answered(th, 0, true)
    case SetVector => th.(pc := EnvironSecure)
    case EnvironSecure => th.(pc := CasToGetEnviron)
    case CasToGetEnviron => th.(pc := EnvironGetter)
    case EnvironGetter => Answered(th, ReadEnviron(vector, sh, th.Kind()), false)
  }

  predicate Moves(s: State, choice: Choice) {
    choice.Run? && choice.tid < |s.threads| && s.threads[choice.tid].Busy()
  }

  function Step(s: State, choice: Choice): State {
    if choice.EnvironAppears? then s.(shared := s.shared.(environSet := true))
    else if Moves(s, choice) then
      var th := s.threads[choice.tid];
      State(s.vector, NextShared(s.vector, s.shared, th),
            s.threads[choice.tid := NextThread(s.vector, s.shared, th, choice.openSucceeds)])
    else s
  }

  lemma {:induction false} AsksStay(vector: seq<Record>, sh: Shared, th: Thread, openSucceeds: bool)
    requires th.Busy()
    ensures NextThread(vector, sh, th, openSucceeds).asks == th.asks
  {
  }

  function Exec(s: State, schedule: seq<Choice>): (r: State)
    ensures r.vector == s.vector && |r.threads| == |s.threads|
    ensures forall t :: 0 <= t < |s.threads| ==> r.threads[t].asks == s.threads[t].asks
  {
    if schedule == [] then s
    else
      var before, choice := Exec(s, schedule[..|schedule| - 1]), schedule[|schedule| - 1];
      if Moves(before, choice) then
        AsksStay(s.vector, before.shared, before.threads[choice.tid], choice.openSucceeds);
        Step(before, choice)
      else Step(before, choice)
  }

  predicate Initial(s: State) {
    && WellFormed(s.vector)
    && s.shared == Shared(InitProcfs, seq(TABLE_SIZE, _ => 0), 0, false, s.shared.environSet)
    && forall t :: 0 <= t < |s.threads| ==> s.threads[t].answers == [] && s.threads[t].pc == Idle
  }

  // ---------------------------------------------------------------- the invariant

  /** Records before `n` are in the table. */
  predicate Stored(vector: seq<Record>, sh: Shared, n: nat) {
    forall i :: 0 <= i < n && i < |vector| && !Ignored(vector[i].kind) && vector[i].kind < |sh.table| ==>
      sh.table[vector[i].kind] == vector[i].value
  }

  predicate Complete(vector: seq<Record>, sh: Shared) {
    Stored(vector, sh, |vector|)
  }

  /** Entries are either untouched or right, whoever wrote them; a final getter was installed only after
      its source was ready. */
  predicate SharedInv(vector: seq<Record>, sh: Shared) {
    && |sh.table| == TABLE_SIZE
    && (forall k :: 0 <= k < TABLE_SIZE ==> sh.table[k] == 0 || (!Ignored(k) && sh.table[k] == Lookup(vector, k)))
    && (sh.handler.GetProcfs? ==> Complete(vector, sh))
    && (sh.handler.GetEnviron? ==> sh.vectorSet)
  }

  predicate AnswerRight(vector: seq<Record>, a: Answer) {
    && (a.gaveUp ==> a.value == 0)
    && (!a.gaveUp && !Ignored(a.kind) && a.kind != AT_SECURE ==> a.value == Lookup(vector, a.kind))
  }

  /** What a thread has learnt by reaching a program point. */
  predicate PcInv(vector: seq<Record>, sh: Shared, pc: Pc) {
    match pc
    case Fill(next) => next <= |vector| && Stored(vector, sh, next)
    case ReadSecure | WriteSecure(_) | CasToProcfs | ProcfsGetter => Complete(vector, sh)
    case EnvironSecure | CasToGetEnviron | EnvironGetter => sh.vectorSet
    case _ => true
  }

  predicate ThreadInv(vector: seq<Record>, sh: Shared, th: Thread) {
    && |th.answers| <= |th.asks|
    && (forall i :: 0 <= i < |th.answers| ==> th.answers[i].kind == th.asks[i] && AnswerRight(vector, th.answers[i]))
    && PcInv(vector, sh, th.pc)
  }

  predicate Inv(s: State) {
    && WellFormed(s.vector)
    && SharedInv(s.vector, s.shared)
    && forall t :: 0 <= t < |s.threads| ==> ThreadInv(s.vector, s.shared, s.threads[t])
  }

  /** A complete table answers like the kernel's vector. */
  lemma {:induction false} CompleteTable(vector: seq<Record>, sh: Shared, kind: nat)
    requires WellFormed(vector) && SharedInv(vector, sh) && Complete(vector, sh)
    requires !Ignored(kind) && kind != AT_SECURE
    ensures ReadProcfs(sh, kind) == Lookup(vector, kind)
  {
    if i :| 0 <= i < |vector| && vector[i].kind == kind {
      LookupFinds(vector, i);
    } else {
      LookupMisses(vector, kind);
    }
  }

  /** Storing a record never spoils what is known of the table: two writers write the same value. */
  lemma {:induction false} StoreGains(vector: seq<Record>, sh: Shared, next: nat, n: nat)
    requires WellFormed(vector) && SharedInv(vector, sh) && next < |vector|
    ensures SharedInv(vector, StoreRecord(sh, vector[next]))
    ensures Stored(vector, sh, n) ==> Stored(vector, StoreRecord(sh, vector[next]), n)
    ensures Stored(vector, sh, next) ==> Stored(vector, StoreRecord(sh, vector[next]), next + 1)
  {
    LookupFinds(vector, next);
    var sh' := StoreRecord(sh, vector[next]);
    assert forall m: nat :: Stored(vector, sh, m) ==> Stored(vector, sh', m);
  }

  /** The shared state only gains, so what another thread has learnt stays true. */
  lemma {:induction false} OthersKeepInv(vector: seq<Record>, sh: Shared, mover: Thread, pc: Pc)
    requires WellFormed(vector) && SharedInv(vector, sh) && PcInv(vector, sh, mover.pc) && PcInv(vector, sh, pc)
    ensures PcInv(vector, NextShared(vector, sh, mover), pc)
  {
    if mover.pc.Fill? && mover.pc.next < |vector| {
      StoreGains(vector, sh, mover.pc.next, |vector|);
      if pc.Fill? {
        StoreGains(vector, sh, mover.pc.next, pc.next);
      }
    }
  }

  lemma {:induction false} SharedStep(vector: seq<Record>, sh: Shared, th: Thread)
    requires WellFormed(vector) && SharedInv(vector, sh) && PcInv(vector, sh, th.pc)
    ensures SharedInv(vector, NextShared(vector, sh, th))
  {
    if th.pc.Fill? && th.pc.next < |vector| {
      StoreGains(vector, sh, th.pc.next, |vector|);
    }
  }

  lemma {:induction false} PcStep(vector: seq<Record>, sh: Shared, th: Thread, openSucceeds: bool)
    requires WellFormed(vector) && SharedInv(vector, sh) && PcInv(vector, sh, th.pc) && th.Busy()
    ensures PcInv(vector, NextShared(vector, sh, th), NextThread(vector, sh, th, openSucceeds).pc)
  {
    if th.pc.Fill? && th.pc.next < |vector| {
      StoreGains(vector, sh, th.pc.next, th.pc.next);
    }
  }

  lemma {:induction false} AnswersStep(vector: seq<Record>, sh: Shared, th: Thread, openSucceeds: bool)
    requires WellFormed(vector) && SharedInv(vector, sh) && ThreadInv(vector, sh, th) && th.Busy()
    ensures var th' := NextThread(vector, sh, th, openSucceeds);
      && |th'.answers| <= |th'.asks|
      && forall i :: 0 <= i < |th'.answers| ==>
           th'.answers[i].kind == th'.asks[i] && AnswerRight(vector, th'.answers[i])
  {
    if th.pc.ProcfsGetter? && !Ignored(th.Kind()) && th.Kind() != AT_SECURE {
      CompleteTable(vector, sh, th.Kind());
    }
  }

  lemma {:induction false} StepKeepsInv(s: State, choice: Choice)
    requires Inv(s)
    ensures Inv(Step(s, choice))
  {
    var s' := Step(s, choice);
    if Moves(s, choice) {
      var th := s.threads[choice.tid];
      SharedStep(s.vector, s.shared, th);
      forall t | 0 <= t < |s'.threads|
        ensures ThreadInv(s'.vector, s'.shared, s'.threads[t])
      {
        if t == choice.tid {
          PcStep(s.vector, s.shared, th, choice.openSucceeds);
          AnswersStep(s.vector, s.shared, th, choice.openSucceeds);
        } else {
          OthersKeepInv(s.vector, s.shared, th, s.threads[t].pc);
        }
      }
    } else {
      forall t | 0 <= t < |s'.threads|
        ensures ThreadInv(s'.vector, s'.shared, s'.threads[t])
      {
        assert ThreadInv(s.vector, s.shared, s.threads[t]);
      }
    }
  }

  lemma {:induction false} Reachable(s0: State, schedule: seq<Choice>)
    requires Initial(s0)
    ensures Inv(Exec(s0, schedule))
  {
    if schedule == [] {
      forall t | 0 <= t < |s0.threads|
        ensures ThreadInv(s0.vector, s0.shared, s0.threads[t])
      {
      }
    } else {
      Reachable(s0, schedule[..|schedule| - 1]);
      StepKeepsInv(Exec(s0, schedule[..|schedule| - 1]), schedule[|schedule| - 1]);
    }
  }

  // ---------------------------------------------------------------- main theorems

  /** In every interleaving, every finished call answers what the kernel's vector says for its type (the
      ignored types and AT_SECURE apart), unless it met a null __environ, and then it returned 0. */
  lemma {:induction false} AnswersAgreeWithKernel(s0: State, schedule: seq<Choice>, t: nat, i: nat)
    requires Initial(s0) && t < |s0.threads| && i < |Exec(s0, schedule).threads[t].answers|
    ensures |Exec(s0, schedule).threads[t].answers| <= |s0.threads[t].asks|
    ensures var a := Exec(s0, schedule).threads[t].answers[i];
      && a.kind == s0.threads[t].asks[i]
      && (a.gaveUp ==> a.value == 0)
      && (!a.gaveUp && !Ignored(a.kind) && a.kind != AT_SECURE ==> a.value == Lookup(s0.vector, a.kind))
  {
    Reachable(s0, schedule);
    var s := Exec(s0, schedule);
    assert ThreadInv(s.vector, s.shared, s.threads[t]);
  }

  predicate Final(h: Handler) {
    h.GetProcfs? || h.GetEnviron?
  }

  /** One step moves the dispatch pointer along init_procfs -> get_procfs or
      init_procfs -> init_environ -> get_environ, or leaves it alone. */
  lemma {:induction false} HandlerMoves(s: State, choice: Choice)
    ensures var h, h' := s.shared.handler, Step(s, choice).shared.handler;
      || h' == h
      || (h.InitProcfs? && (h'.GetProcfs? || h'.InitEnviron?))
      || (h.InitEnviron? && h'.GetEnviron?)
  {
  }

  function ExecFrom(s: State, schedule: seq<Choice>): State
    decreases |schedule|
  {
    if schedule == [] then s else ExecFrom(Step(s, schedule[0]), schedule[1..])
  }

  lemma {:induction false} ExecSplits(s: State, first: seq<Choice>, rest: seq<Choice>)
    ensures Exec(s, first + rest) == ExecFrom(Exec(s, first), rest)
    decreases |rest|
  {
    if rest == [] {
      assert first + rest == first;
    } else {
      var first' := first + [rest[0]];
      assert first'[..|first|] == first && first + rest == first' + rest[1..];
      ExecSplits(s, first', rest[1..]);
    }
  }

  /** Between calls, or inside a call that has reached a final getter; from the n-th answer on, none gave up. */
  predicate SettledThread(th: Thread, n: nat) {
    && (th.pc.Idle? || th.pc.Dispatch? || th.pc.ProcfsGetter? || th.pc.EnvironGetter?)
    && forall i :: n <= i < |th.answers| ==> !th.answers[i].gaveUp
  }

  lemma {:induction false} SettledStays(s: State, schedule: seq<Choice>, t: nat, n: nat)
    requires t < |s.threads| && Final(s.shared.handler) && SettledThread(s.threads[t], n)
    ensures ExecFrom(s, schedule).shared.handler == s.shared.handler
    ensures t < |ExecFrom(s, schedule).threads| && SettledThread(ExecFrom(s, schedule).threads[t], n)
    decreases |schedule|
  {
    if schedule != [] {
      HandlerMoves(s, schedule[0]);
      SettledStays(Step(s, schedule[0]), schedule[1..], t, n);
    }
  }

  /** Once the pointer holds a final getter it stays there, and every call entered from then on answers
      what the kernel's vector says: none of them gives up. */
  lemma {:induction false} AfterInitialisation(s0: State, before: seq<Choice>, after: seq<Choice>, t: nat, i: nat)
    requires Initial(s0) && t < |s0.threads|
    requires Final(Exec(s0, before).shared.handler) && Exec(s0, before).threads[t].pc.Idle?
    requires |Exec(s0, before).threads[t].answers| <= i < |Exec(s0, before + after).threads[t].answers|
    ensures Exec(s0, before + after).shared.handler == Exec(s0, before).shared.handler
    ensures var a := Exec(s0, before + after).threads[t].answers[i];
      !Ignored(a.kind) && a.kind != AT_SECURE ==> a.value == Lookup(s0.vector, a.kind)
  {
    var s := Exec(s0, before);
    ExecSplits(s0, before, after);
    SettledStays(s, after, t, |s.threads[t].answers|);
    AnswersAgreeWithKernel(s0, before + after, t, i);
  }

  // ---------------------------------------------------------------- AT_SECURE

  function SecureValue(vector: seq<Record>): nat {
    Lookup(vector, AT_SECURE)
  }

  /** Every copy of __auxv_secure a thread holds or has returned is one of the allowed values. */
  predicate SecureThread(th: Thread, allowed: set<nat>) {
    && (th.pc.WriteSecure? ==> th.pc.seen in allowed)
    && forall i :: 0 <= i < |th.answers| && th.answers[i].kind == AT_SECURE ==> th.answers[i].value in allowed
  }

  predicate SecureIn(s: State, allowed: set<nat>) {
    && s.shared.secure in allowed
    && forall t :: 0 <= t < |s.threads| ==> SecureThread(s.threads[t], allowed)
  }

  lemma {:induction false} SecureStep(s: State, choice: Choice, allowed: set<nat>)
    requires SecureIn(s, allowed) && 0 in allowed
    requires Moves(s, choice) && s.threads[choice.tid].pc.EnvironSecure? ==> SecureValue(s.vector) in allowed
    ensures SecureIn(Step(s, choice), allowed)
  {
    if Moves(s, choice) {
      assert SecureThread(s.threads[choice.tid], allowed);
      SecureThreadStep(s.vector, s.shared, s.threads[choice.tid], choice.openSucceeds, allowed);
    }
  }

  lemma {:induction false} SecureThreadStep(vector: seq<Record>, sh: Shared, th: Thread, openSucceeds: bool,
                                            allowed: set<nat>)
    requires th.Busy() && sh.secure in allowed && 0 in allowed && SecureThread(th, allowed)
    ensures SecureThread(NextThread(vector, sh, th, openSucceeds), allowed)
  {
  }

  /** __auxv_secure, and every answer for AT_SECURE, is 0 or the kernel's value: no third value appears. */
  lemma {:induction false} SecureIsZeroOrKernels(s0: State, schedule: seq<Choice>)
    requires Initial(s0)
    ensures SecureIn(Exec(s0, schedule), {0, SecureValue(s0.vector)})
  {
    if schedule != [] {
      SecureIsZeroOrKernels(s0, schedule[..|schedule| - 1]);
      SecureStep(Exec(s0, schedule[..|schedule| - 1]), schedule[|schedule| - 1], {0, SecureValue(s0.vector)});
    }
  }

  predicate OnProcfsPath(pc: Pc) {
    match pc
    case CasToEnviron | TestEnviron | SetVector | EnvironSecure | CasToGetEnviron | EnvironGetter => false
    case _ => true
  }

  predicate OnlyProcfs(s: State) {
    && (s.shared.handler.InitProcfs? || s.shared.handler.GetProcfs?)
    && forall t :: 0 <= t < |s.threads| ==> OnProcfsPath(s.threads[t].pc)
  }

  predicate OpensSucceed(schedule: seq<Choice>) {
    forall k :: 0 <= k < |schedule| && schedule[k].Run? ==> schedule[k].openSucceeds
  }

  /** When /proc/self/auxv can always be opened, nothing ever assigns the kernel's value to
      __auxv_secure: line 165 reads back the variable it assigns. */
  lemma {:induction false} ProcfsNeverSetsSecure(s0: State, schedule: seq<Choice>)
    requires Initial(s0) && OpensSucceed(schedule)
    ensures OnlyProcfs(Exec(s0, schedule)) && SecureIn(Exec(s0, schedule), {0})
  {
    if schedule != [] {
      var s, choice := Exec(s0, schedule[..|schedule| - 1]), schedule[|schedule| - 1];
      ProcfsNeverSetsSecure(s0, schedule[..|schedule| - 1]);
      assert Moves(s, choice) ==> OnProcfsPath(s.threads[choice.tid].pc);
      SecureStep(s, choice, {0});
    }
  }

  /** So with a readable /proc/self/auxv an answer for AT_SECURE is right exactly when the kernel's value
      is 0 ... */
  lemma {:induction false} SecureViaProcfs(s0: State, schedule: seq<Choice>, t: nat, i: nat)
    requires Initial(s0) && OpensSucceed(schedule) && t < |s0.threads|
    requires i < |Exec(s0, schedule).threads[t].answers|
    requires Exec(s0, schedule).threads[t].answers[i].kind == AT_SECURE
    ensures Exec(s0, schedule).threads[t].answers[i].value == SecureValue(s0.vector) <==> SecureValue(s0.vector) == 0
  {
    ProcfsNeverSetsSecure(s0, schedule);
    assert SecureThread(Exec(s0, schedule).threads[t], {0});
  }

  predicate OpensFail(schedule: seq<Choice>) {
    forall k :: 0 <= k < |schedule| && schedule[k].Run? ==> !schedule[k].openSucceeds
  }

  /** The environment path alone: whoever passed its assignment sees the kernel's value. */
  predicate EnvironThread(vector: seq<Record>, sh: Shared, th: Thread) {
    && !th.pc.Fill? && !th.pc.ReadSecure? && !th.pc.WriteSecure? && !th.pc.CasToProcfs? && !th.pc.ProcfsGetter?
    && (th.pc.CasToGetEnviron? || th.pc.EnvironGetter? ==> sh.secure == SecureValue(vector))
    && forall i :: 0 <= i < |th.answers| && th.answers[i].kind == AT_SECURE && !th.answers[i].gaveUp ==>
         th.answers[i].value == SecureValue(vector)
  }

  predicate EnvironShared(vector: seq<Record>, sh: Shared) {
    && !sh.handler.GetProcfs?
    && (sh.handler.GetEnviron? ==> sh.secure == SecureValue(vector))
    && (sh.secure == 0 || sh.secure == SecureValue(vector))
  }

  predicate OnlyEnviron(s: State) {
    && EnvironShared(s.vector, s.shared)
    && forall t :: 0 <= t < |s.threads| ==> EnvironThread(s.vector, s.shared, s.threads[t])
  }

  lemma {:induction false} EnvironThreadStep(vector: seq<Record>, sh: Shared, th: Thread)
    requires th.Busy() && EnvironShared(vector, sh) && EnvironThread(vector, sh, th)
    ensures EnvironShared(vector, NextShared(vector, sh, th))
    ensures NextShared(vector, sh, th).secure in {sh.secure, SecureValue(vector)}
    ensures EnvironThread(vector, NextShared(vector, sh, th), NextThread(vector, sh, th, false))
  {
    if !HasSecure(vector) {
      LookupMisses(vector, AT_SECURE);
    }
  }

  lemma {:induction false} EnvironSetsSecure(s0: State, schedule: seq<Choice>)
    requires Initial(s0) && OpensFail(schedule)
    ensures OnlyEnviron(Exec(s0, schedule))
  {
    if schedule != [] {
      var s, choice := Exec(s0, schedule[..|schedule| - 1]), schedule[|schedule| - 1];
      EnvironSetsSecure(s0, schedule[..|schedule| - 1]);
      if Moves(s, choice) {
        EnvironThreadStep(s.vector, s.shared, s.threads[choice.tid]);
      }
    }
  }

  /** ... and without procfs every answer for AT_SECURE that did not give up is the kernel's value. */
  lemma {:induction false} SecureViaEnviron(s0: State, schedule: seq<Choice>, t: nat, i: nat)
    requires Initial(s0) && OpensFail(schedule) && t < |s0.threads|
    requires i < |Exec(s0, schedule).threads[t].answers|
    requires Exec(s0, schedule).threads[t].answers[i].kind == AT_SECURE
    requires !Exec(s0, schedule).threads[t].answers[i].gaveUp
    ensures Exec(s0, schedule).threads[t].answers[i].value == SecureValue(s0.vector)
  {
    EnvironSetsSecure(s0, schedule);
    assert EnvironThread(s0.vector, Exec(s0, schedule).shared, Exec(s0, schedule).threads[t]);
  }

  /** Answer `i` of thread `t` is a proper answer for AT_SECURE. */
  predicate AnsweredSecure(s0: State, schedule: seq<Choice>, t: nat, i: nat) {
    && t < |s0.threads| && i < |Exec(s0, schedule).threads[t].answers|
    && Exec(s0, schedule).threads[t].answers[i].kind == AT_SECURE
    && !Exec(s0, schedule).threads[t].answers[i].gaveUp
  }

  ghost predicate SecureAlwaysRight(vector: seq<Record>) {
    forall s0: State, schedule: seq<Choice>, t: nat, i: nat ::
      Initial(s0) && s0.vector == vector && AnsweredSecure(s0, schedule, t, i) ==>
        Exec(s0, schedule).threads[t].answers[i].value == SecureValue(vector)
  }

  lemma {:induction false} ExecFromSplits(s: State, first: seq<Choice>, rest: seq<Choice>)
    ensures ExecFrom(s, first + rest) == ExecFrom(ExecFrom(s, first), rest)
    decreases |first|
  {
    if first == [] {
      assert first + rest == rest;
    } else {
      assert (first + rest)[1..] == first[1..] + rest;
      ExecFromSplits(Step(s, first[0]), first[1..], rest);
    }
  }

  function Alone(n: nat): seq<Choice> {
    if n == 0 then [] else [Run(0, true)] + Alone(n - 1)
  }

  /** A thread running alone reads the whole file. */
  lemma {:induction false} FillsTable(s: State, next: nat)
    requires |s.threads| == 1 && s.threads[0].Busy() && s.threads[0].pc == Fill(next) && next <= |s.vector|
    ensures var s' := ExecFrom(s, Alone(|s.vector| - next + 1));
      && s'.threads == [s.threads[0].(pc := ReadSecure)] && s'.shared.secure == s.shared.secure
    decreases |s.vector| - next
  {
    var rest := Alone(|s.vector| - next);
    var s1 := Step(s, Run(0, true));
    assert ExecFrom(s, [Run(0, true)] + rest) == ExecFrom(s1, rest) by {
      assert ([Run(0, true)] + rest)[1..] == rest;
    }
    if next < |s.vector| {
      FillsTable(s1, next + 1);
    } else {
      assert rest == [];
    }
  }

  lemma {:induction false} StartsFilling(s0: State)
    requires s0.threads == [Thread([AT_SECURE], [], Idle)] && s0.shared.handler == InitProcfs
    ensures ExecFrom(s0, Alone(3)) == s0.(threads := [Thread([AT_SECURE], [], Fill(0))])
  {
    assert Alone(3) == [Run(0, true)] + Alone(2) && Alone(2) == [Run(0, true)] + Alone(1) && Alone(1) == [Run(0, true)];
    var s1 := Step(s0, Run(0, true));
    var s2 := Step(s1, Run(0, true));
    assert Step(s2, Run(0, true)) == s0.(threads := [Thread([AT_SECURE], [], Fill(0))]);
    assert Alone(3)[1..] == Alone(2) && Alone(2)[1..] == Alone(1) && Alone(1)[1..] == [];
  }

  /** The shortest failing run: one thread, a readable /proc/self/auxv, getauxval(AT_SECURE). */
  lemma {:induction false} LoneSecureCall(vector: seq<Record>) returns (s0: State, schedule: seq<Choice>)
    requires WellFormed(vector)
    ensures Initial(s0) && s0.vector == vector && AnsweredSecure(s0, schedule, 0, 0)
    ensures Exec(s0, schedule).threads[0].answers[0].value == 0
  {
    hide WellFormed, Flatten, Step, Alone, ExecFrom, NextShared, NextThread;
    var sh := Shared(InitProcfs, seq(TABLE_SIZE, _ => 0), 0, false, false);
    s0 := State(vector, sh, [Thread([AT_SECURE], [], Idle)]);
    var entry := s0.(threads := [Thread([AT_SECURE], [], Fill(0))]);
    StartsFilling(s0);
    FillsTable(entry, 0);
    var filled := ExecFrom(entry, Alone(|vector| + 1));
    ExecFromSplits(s0, Alone(3), Alone(|vector| + 1));
    ExecFromSplits(s0, Alone(3) + Alone(|vector| + 1), Alone(4));
    schedule := Alone(3) + Alone(|vector| + 1) + Alone(4);
    FinishesSecure(filled);
    assert [] + schedule == schedule;
    ExecSplits(s0, [], schedule);
  }

  lemma {:induction false} FinishesSecure(s: State)
    requires s.threads == [Thread([AT_SECURE], [], ReadSecure)] && s.shared.secure == 0
    ensures ExecFrom(s, Alone(4)).threads == [Thread([AT_SECURE], [Answer(AT_SECURE, 0, false)], Idle)]
  {
    assert Alone(4) == [Run(0, true)] + Alone(3) && Alone(3) == [Run(0, true)] + Alone(2);
    assert Alone(2) == [Run(0, true)] + Alone(1) && Alone(1) == [Run(0, true)];
    assert Alone(4)[1..] == Alone(3) && Alone(3)[1..] == Alone(2) && Alone(2)[1..] == Alone(1) && Alone(1)[1..] == [];
    var s1 := Step(s, Run(0, true));
    var s2 := Step(s1, Run(0, true));
    var s3 := Step(s2, Run(0, true));
    assert s3.threads == [Thread([AT_SECURE], [], ProcfsGetter)] && s3.shared.secure == 0;
    var s4 := Step(s3, Run(0, true));
    assert s4.threads[0].answers == [Answer(AT_SECURE, 0, false)];
    assert s4.threads == [Thread([AT_SECURE], [Answer(AT_SECURE, 0, false)], Idle)];
    assert ExecFrom(s3, Alone(1)) == ExecFrom(s4, []) == s4;
    assert ExecFrom(s2, Alone(2)) == s4;
    assert ExecFrom(s1, Alone(3)) == s4;
  }

  /** getauxval(AT_SECURE) is right in every interleaving exactly for the kernels that report 0. */
  lemma {:induction false} SecureRightIff(vector: seq<Record>)
    requires WellFormed(vector)
    ensures SecureAlwaysRight(vector) <==> SecureValue(vector) == 0
  {
    if SecureAlwaysRight(vector) {
      var s0, schedule := LoneSecureCall(vector);
      assert AnsweredSecure(s0, schedule, 0, 0);
    } else {
      var s0: State, schedule: seq<Choice>, t: nat, i: nat :|
        Initial(s0) && s0.vector == vector && AnsweredSecure(s0, schedule, t, i)
        && Exec(s0, schedule).threads[t].answers[i].value != SecureValue(vector);
      SecureIsZeroOrKernels(s0, schedule);
      assert SecureThread(Exec(s0, schedule).threads[t], {0, SecureValue(vector)});
    }
  }
}
