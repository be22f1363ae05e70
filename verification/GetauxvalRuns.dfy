/** What whole runs of musl/getauxval.c answer, when they give up, where they leave the dispatch pointer, and that they
    end. */
module GetauxvalRuns {
  import opened Getauxval

  // ---------------------------------------------------------------- giving up

  predicate GaveUpSomewhere(th: Thread) {
    exists i :: 0 <= i < |th.answers| && th.answers[i].gaveUp
  }

  /** A call gives up exactly at the test of __environ, and exactly while that is null; it returns 0. */
  lemma {:induction false} GivesUpWhenNull(s: State, choice: Choice)
    requires Moves(s, choice)
    ensures var t := choice.tid;
      var was, now := s.threads[t], Step(s, choice).threads[t];
      && (was.pc == TestEnviron && !s.shared.environSet ==>
            now.answers == was.answers + [Answer(was.asks[|was.answers|], 0, true)])
      && (was.pc == TestEnviron && s.shared.environSet ==> now.answers == was.answers && now.pc == SetVector)
      && (|now.answers| > |was.answers| && now.answers[|was.answers|].gaveUp ==>
            was.pc == TestEnviron && !s.shared.environSet)
      && was.answers <= now.answers
  {
  }

  /** With __environ set from the start no call of any run gives up. */
  lemma {:induction false} NoneGivesUp(s0: State, schedule: seq<Choice>, t: nat)
    requires Initial(s0) && s0.shared.environSet && t < |s0.threads|
    ensures Exec(s0, schedule).shared.environSet && !GaveUpSomewhere(Exec(s0, schedule).threads[t])
  {
    if schedule != [] {
      var s, choice := Exec(s0, schedule[..|schedule| - 1]), schedule[|schedule| - 1];
      NoneGivesUp(s0, schedule[..|schedule| - 1], t);
      if Moves(s, choice) {
        EnvironStaysSet(s, choice);
        if choice.tid == t {
          NoGiveUpNow(s, choice);
        }
      }
    }
  }

  lemma {:induction false} EnvironStaysSet(s: State, choice: Choice)
    requires s.shared.environSet
    ensures Step(s, choice).shared.environSet
  {
  }

  lemma {:induction false} NoGiveUpNow(s: State, choice: Choice)
    requires Moves(s, choice) && s.shared.environSet && !GaveUpSomewhere(s.threads[choice.tid])
    ensures !GaveUpSomewhere(Step(s, choice).threads[choice.tid])
  {
  }

  /** So then every finished call answers what the kernel's vector says. */
  lemma {:induction false} EnvironSetAnswers(s0: State, schedule: seq<Choice>, t: nat, i: nat)
    requires Initial(s0) && s0.shared.environSet && t < |s0.threads|
    requires i < |Exec(s0, schedule).threads[t].answers|
    ensures |Exec(s0, schedule).threads[t].answers| <= |s0.threads[t].asks|
    ensures var a := Exec(s0, schedule).threads[t].answers[i];
      !a.gaveUp && a.kind == s0.threads[t].asks[i] && (a.kind !in {1, 22, 23} ==> a.value == Lookup(s0.vector, a.kind))
  {
    hide Exec, Lookup;
    AnswersAgreeWithKernel(s0, schedule, t, i);
    NoneGivesUp(s0, schedule, t);
    assert !Exec(s0, schedule).threads[t].answers[i].gaveUp;
  }

  // ---------------------------------------------------------------- answers for every type

  /** Every proper answer of the thread, the ignored types and AT_SECURE included. */
  predicate AllAnswer(th: Thread, f: nat -> nat) {
    forall i :: 0 <= i < |th.answers| && !th.answers[i].gaveUp ==> th.answers[i].value == f(th.answers[i].kind)
  }

  /** With a readable /proc/self/auxv: 0 for AT_IGNORE, AT_IGNOREPPC and AT_SECURE, else the kernel's value. */
  lemma {:induction false} ProcfsAnswers(s0: State, schedule: seq<Choice>, t: nat, i: nat)
    requires Initial(s0) && OpensSucceed(schedule) && t < |s0.threads|
    requires i < |Exec(s0, schedule).threads[t].answers|
    ensures var a := Exec(s0, schedule).threads[t].answers[i];
      !a.gaveUp && a.value == if a.kind in {1, 22, 23} then 0 else Lookup(s0.vector, a.kind)
  {
    ProcfsThread(s0, schedule, t);
    AnswersAgreeWithKernel(s0, schedule, t, i);
    ProcfsNeverSetsSecure(s0, schedule);
    assert SecureThread(Exec(s0, schedule).threads[t], {0});
  }

  /** No call gives up, and ignored types are answered with the untouched slots of the table. */
  predicate IgnoredZero(th: Thread) {
    forall i :: 0 <= i < |th.answers| ==>
      !th.answers[i].gaveUp && (th.answers[i].kind in {1, 22} ==> th.answers[i].value == 0)
  }

  lemma {:induction false} ProcfsThread(s0: State, schedule: seq<Choice>, t: nat)
    requires Initial(s0) && OpensSucceed(schedule) && t < |s0.threads|
    ensures IgnoredZero(Exec(s0, schedule).threads[t])
  {
    if schedule != [] {
      var s, choice := Exec(s0, schedule[..|schedule| - 1]), schedule[|schedule| - 1];
      ProcfsThread(s0, schedule[..|schedule| - 1], t);
      if Moves(s, choice) && choice.tid == t {
        ProcfsNeverSetsSecure(s0, schedule[..|schedule| - 1]);
        Reachable(s0, schedule[..|schedule| - 1]);
        assert OnProcfsPath(s.threads[t].pc);
        IgnoredStep(s.vector, s.shared, s.threads[t], choice.openSucceeds);
      }
    }
  }

  lemma {:induction false} IgnoredStep(vector: seq<Record>, sh: Shared, th: Thread, openSucceeds: bool)
    requires th.Busy() && IgnoredZero(th) && OnProcfsPath(th.pc) && SharedInv(vector, sh)
    ensures IgnoredZero(NextThread(vector, sh, th, openSucceeds))
  {
    if th.pc.ProcfsGetter? && th.Kind() in {1, 22} {
      assert sh.table[th.Kind()] == 0;
    }
  }

  /** Without procfs: the kernel's value for every type, of every call that does not give up. */
  lemma {:induction false} EnvironAnswers(s0: State, schedule: seq<Choice>, t: nat, i: nat)
    requires Initial(s0) && OpensFail(schedule) && t < |s0.threads|
    requires i < |Exec(s0, schedule).threads[t].answers|
    ensures var a := Exec(s0, schedule).threads[t].answers[i];
      a.value == if a.gaveUp then 0 else Lookup(s0.vector, a.kind)
  {
    AnswersAgreeWithKernel(s0, schedule, t, i);
    EnvironAll(s0, schedule, t);
  }

  lemma {:induction false} EnvironAll(s0: State, schedule: seq<Choice>, t: nat)
    requires Initial(s0) && OpensFail(schedule) && t < |s0.threads|
    ensures AllAnswer(Exec(s0, schedule).threads[t], kind => Lookup(s0.vector, kind))
  {
    if schedule != [] {
      var s, choice := Exec(s0, schedule[..|schedule| - 1]), schedule[|schedule| - 1];
      EnvironAll(s0, schedule[..|schedule| - 1], t);
      if Moves(s, choice) && choice.tid == t {
        EnvironSetsSecure(s0, schedule[..|schedule| - 1]);
        Reachable(s0, schedule[..|schedule| - 1]);
        assert EnvironThread(s.vector, s.shared, s.threads[t]) && ThreadInv(s.vector, s.shared, s.threads[t]);
        EnvironStep(s.vector, s.shared, s.threads[t]);
      }
    }
  }

  lemma {:induction false} EnvironStep(vector: seq<Record>, sh: Shared, th: Thread)
    requires th.Busy() && EnvironThread(vector, sh, th) && PcInv(vector, sh, th.pc)
    requires AllAnswer(th, kind => Lookup(vector, kind))
    ensures AllAnswer(NextThread(vector, sh, th, false), kind => Lookup(vector, kind))
  {
  }

  // ---------------------------------------------------------------- the dispatch pointer is moved

  /** The thread is behind the first swing of the pointer. */
  predicate PastFirst(th: Thread) {
    || th.answers != []
    || th.pc in {ProcfsGetter, TestEnviron, SetVector, EnvironSecure, CasToGetEnviron, EnvironGetter}
  }

  lemma {:induction false} PointerLeaves(s0: State, schedule: seq<Choice>, t: nat)
    requires Initial(s0) && t < |s0.threads|
    ensures PastFirst(Exec(s0, schedule).threads[t]) ==> !Exec(s0, schedule).shared.handler.InitProcfs?
  {
    if schedule != [] {
      var s, choice := Exec(s0, schedule[..|schedule| - 1]), schedule[|schedule| - 1];
      PointerLeaves(s0, schedule[..|schedule| - 1], t);
      HandlerMoves(s, choice);
      if Moves(s, choice) && choice.tid == t {
        PointerStep(s.vector, s.shared, s.threads[t], choice.openSucceeds);
      }
    }
  }

  lemma {:induction false} PointerStep(vector: seq<Record>, sh: Shared, th: Thread, openSucceeds: bool)
    requires th.Busy() && (PastFirst(th) ==> !sh.handler.InitProcfs?)
    ensures PastFirst(NextThread(vector, sh, th, openSucceeds)) ==> !NextShared(vector, sh, th).handler.InitProcfs?
  {
  }

  /** A proper answer from the environment is given behind the second swing. */
  predicate PastSecond(th: Thread) {
    (exists i :: 0 <= i < |th.answers| && !th.answers[i].gaveUp) || th.pc == EnvironGetter
  }

  lemma {:induction false} PointerArrives(s0: State, schedule: seq<Choice>, t: nat)
    requires Initial(s0) && OpensFail(schedule) && t < |s0.threads|
    ensures PastSecond(Exec(s0, schedule).threads[t]) ==> Exec(s0, schedule).shared.handler.GetEnviron?
  {
    if schedule != [] {
      var s, choice := Exec(s0, schedule[..|schedule| - 1]), schedule[|schedule| - 1];
      PointerArrives(s0, schedule[..|schedule| - 1], t);
      HandlerMoves(s, choice);
      if Moves(s, choice) && choice.tid == t {
        EnvironSetsSecure(s0, schedule[..|schedule| - 1]);
        PointerLeaves(s0, schedule[..|schedule| - 1], t);
        assert EnvironThread(s.vector, s.shared, s.threads[t]);
        SecondStep(s.vector, s.shared, s.threads[t]);
      }
    }
  }

  lemma {:induction false} SecondStep(vector: seq<Record>, sh: Shared, th: Thread)
    requires th.Busy() && (PastSecond(th) ==> sh.handler.GetEnviron?) && (PastFirst(th) ==> !sh.handler.InitProcfs?)
    requires EnvironThread(vector, sh, th) && !sh.handler.GetProcfs?
    ensures PastSecond(NextThread(vector, sh, th, false)) ==> NextShared(vector, sh, th).handler.GetEnviron?
  {
  }

  /** Initialisation happens: once a call has returned, the pointer no longer names __auxv_init_procfs; with a readable
      /proc/self/auxv it names __getauxval_procfs, and without procfs __getauxval_environ as soon as a call has returned
      without giving up. */
  lemma {:induction false} PointerIsMoved(s0: State, schedule: seq<Choice>, t: nat)
    requires Initial(s0) && t < |s0.threads| && Exec(s0, schedule).threads[t].answers != []
    ensures Exec(s0, schedule).shared.handler != InitProcfs
    ensures OpensSucceed(schedule) ==> Exec(s0, schedule).shared.handler == GetProcfs
    ensures OpensFail(schedule) && (exists i :: 0 <= i < |Exec(s0, schedule).threads[t].answers|
                                                && !Exec(s0, schedule).threads[t].answers[i].gaveUp) ==>
      Exec(s0, schedule).shared.handler == GetEnviron
  {
    hide Exec;
    var th := Exec(s0, schedule).threads[t];
    assert PastFirst(th);
    PointerLeaves(s0, schedule, t);
    if OpensSucceed(schedule) {
      ProcfsNeverSetsSecure(s0, schedule);
    }
    if OpensFail(schedule) {
      PointerArrives(s0, schedule, t);
    }
  }

  // ---------------------------------------------------------------- calls end

  /** Steps still to be made at most. */
  function Distance(records: nat, pc: Pc): nat {
    match pc
    case Idle => records + 9
    case Dispatch => records + 8
    case Open => records + 7
    case CasToEnviron => 6
    case Fill(next) => if next < records then records - next + 5 else 5
    case ReadSecure => 4
    case WriteSecure(_) => 3
    case CasToProcfs => 2
    case ProcfsGetter => 1
    case TestEnviron => 5
    case SetVector => 4
    case EnvironSecure => 3
    case CasToGetEnviron => 2
    case EnvironGetter => 1
  }

  lemma {:induction false} StepsCloser(s: State, choice: Choice)
    requires Moves(s, choice)
    ensures var was, now := s.threads[choice.tid], Step(s, choice).threads[choice.tid];
      if |now.answers| == |was.answers| then Distance(|s.vector|, now.pc) < Distance(|s.vector|, was.pc)
      else |now.answers| == |was.answers| + 1
  {
  }

  predicate OnlyThread(schedule: seq<Choice>, t: nat) {
    forall k :: 0 <= k < |schedule| ==> schedule[k].Run? && schedule[k].tid == t
  }

  /** After `n` of these steps one more call of the thread has returned. */
  predicate Returns(s: State, schedule: seq<Choice>, t: nat, n: nat)
    requires t < |s.threads| && n <= |schedule|
  {
    var s' := ExecFrom(s, schedule[..n]);
    t < |s'.threads| && |s'.threads[t].answers| == |s.threads[t].answers| + 1
  }

  lemma {:induction false} RunsToReturn(s: State, schedule: seq<Choice>, t: nat) returns (n: nat)
    requires t < |s.threads| && s.threads[t].Busy() && OnlyThread(schedule, t)
    requires |schedule| >= Distance(|s.vector|, s.threads[t].pc)
    ensures 0 < n <= |schedule| && n <= Distance(|s.vector|, s.threads[t].pc) && Returns(s, schedule, t, n)
    decreases |schedule|
  {
    hide Distance;
    DistanceIsPositive(|s.vector|, s.threads[t].pc);
    var s1 := Step(s, schedule[0]);
    StepsCloser(s, schedule[0]);
    if |s1.threads[t].answers| == |s.threads[t].answers| + 1 {
      assert schedule[..1][1..] == [];
      assert ExecFrom(s, schedule[..1]) == s1;
      n := 1;
    } else {
      var m := RunsToReturn(s1, schedule[1..], t);
      assert schedule[..m + 1][1..] == schedule[1..][..m];
      assert ExecFrom(s, schedule[..m + 1]) == ExecFrom(s1, schedule[1..][..m]);
      n := m + 1;
    }
  }

  lemma {:induction false} DistanceIsPositive(records: nat, pc: Pc)
    ensures 0 < Distance(records, pc) <= records + 9
  {
  }

  /** No call waits for another thread: from any state, with opens succeeding or failing as they like, a thread running
      alone finishes its call within a bounded number of steps, at most nine more than the vector has records. */
  lemma {:induction false} FinishesAlone(s: State, schedule: seq<Choice>, t: nat)
    requires t < |s.threads| && s.threads[t].Busy() && OnlyThread(schedule, t) && |schedule| >= |s.vector| + 9
    ensures exists n :: 0 < n <= |s.vector| + 9 && n <= |schedule| && Returns(s, schedule, t, n)
  {
    DistanceIsPositive(|s.vector|, s.threads[t].pc);
    var n := RunsToReturn(s, schedule, t);
  }
}
