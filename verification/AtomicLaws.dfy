/** What the operations of musl/atomic.h do to memory, read off whole runs: each case written out in numbers and
    bits. */
module AtomicLaws {
  import opened Atomics
  import opened Bits

  // ---------------------------------------------------------------- effects

  /** What a call that returned `ret` leaves behind: a swap and a store their operand, a compare-and-swap its new value
      if it found the expected one, a fetch-and-add the sum modulo 2^32, the bitwise operations bit by bit. */
  ghost predicate Leaves(op: Op, ret: Word, after: Word) {
    match op
    case Swap(v) => after == v
    case Store(v) => after == v
    case Cas(t, v) => after == if ret == t then v else ret
    case FetchAdd(v) => after == (ret + v) % 0x1_0000_0000
    case FetchAnd(v) => forall i: nat :: Bit(after, i) <==> Bit(ret, i) && Bit(v, i)
    case FetchOr(v) => forall i: nat :: Bit(after, i) <==> Bit(ret, i) || Bit(v, i)
  }

  /** No event of log[lo..hi] is at the cell. */
  predicate Untouched(log: seq<Event>, cell: nat, lo: nat, hi: nat)
    requires hi <= |log|
  {
    forall i :: lo <= i < hi ==> log[i].call.cell != cell
  }

  lemma {:induction false} UpdatedLeaves(op: Op, seen: Word)
    ensures Leaves(op, seen, Updated(op, seen))
  {
    hide Bit, BitOr, BitAnd;
    match op
    case FetchAnd(v) =>
      forall i: nat
        ensures Bit(BitAnd(seen, v), i) <==> Bit(seen, i) && Bit(v, i)
      {
        AndBits(seen, v, i);
      }
    case FetchOr(v) =>
      forall i: nat
        ensures Bit(BitOr(seen, v), i) <==> Bit(seen, i) || Bit(v, i)
      {
        OrBits(seen, v, i);
      }
    case _ =>
  }

  lemma {:induction false} ReplayUntouched(mem0: seq<Word>, log: seq<Event>, cell: nat, lo: nat, hi: nat)
    requires cell < |mem0| && lo <= hi <= |log| && Untouched(log, cell, lo, hi)
    ensures Replay(mem0, log[..hi])[cell] == Replay(mem0, log[..lo])[cell]
  {
    hide Updated;
    if lo < hi {
      ReplayUntouched(mem0, log, cell, lo, hi - 1);
      assert log[..hi][..hi - 1] == log[..hi - 1];
    }
  }

  lemma {:induction false} ReplayAfter(mem0: seq<Word>, log: seq<Event>, j: nat)
    requires j < |log| && Legal(mem0, log)
    ensures var e := log[j];
      e.call.cell < |mem0| && Replay(mem0, log[..j + 1])[e.call.cell] == Updated(e.call.op, e.ret)
  {
    hide Updated;
    assert log[..j + 1][..j] == log[..j];
  }

  /** In every run: the first call to take effect on a cell returns its initial contents, each later one what the one
      before it left behind, and the cell holds what the last one left. Cells that no call touched are unchanged. */
  lemma {:induction false} EffectsFollow(s0: State, schedule: seq<Choice>, cell: nat, k: nat)
    requires Initial(s0) && cell < |s0.mem|
    ensures var s := Exec(s0, schedule); var log := s.log;
      && (Untouched(log, cell, 0, |log|) ==> s.mem[cell] == s0.mem[cell])
      && (k < |log| && log[k].call.cell == cell ==>
            && (Untouched(log, cell, 0, k) ==> log[k].ret == s0.mem[cell])
            && (Untouched(log, cell, k + 1, |log|) ==> Leaves(log[k].call.op, log[k].ret, s.mem[cell])))
    ensures var log := Exec(s0, schedule).log;
      forall j :: 0 <= j < k < |log| && log[j].call.cell == cell == log[k].call.cell && Untouched(log, cell, j + 1, k)
        ==> Leaves(log[j].call.op, log[j].ret, log[k].ret)
  {
    hide Exec, Replay, Updated, Leaves, Inv, Untouched;
    Atomicity(s0, schedule);
    var s := Exec(s0, schedule);
    var log := s.log;
    assert log[..|log|] == log && Replay(s0.mem, log[..0]) == s0.mem by {
      NothingReplayed(s0.mem, log);
    }
    if Untouched(log, cell, 0, |log|) {
      ReplayUntouched(s0.mem, log, cell, 0, |log|);
    }
    if k < |log| && log[k].call.cell == cell {
      if Untouched(log, cell, 0, k) {
        ReplayUntouched(s0.mem, log, cell, 0, k);
      }
      ReplayAfter(s0.mem, log, k);
      UpdatedLeaves(log[k].call.op, log[k].ret);
      if Untouched(log, cell, k + 1, |log|) {
        ReplayUntouched(s0.mem, log, cell, k + 1, |log|);
      }
      forall j | 0 <= j < k && log[j].call.cell == cell && Untouched(log, cell, j + 1, k)
        ensures Leaves(log[j].call.op, log[j].ret, log[k].ret)
      {
        ReplayAfter(s0.mem, log, j);
        UpdatedLeaves(log[j].call.op, log[j].ret);
        ReplayUntouched(s0.mem, log, cell, j + 1, k);
      }
    }
  }

  lemma {:induction false} NothingReplayed(mem0: seq<Word>, log: seq<Event>)
    ensures log[..|log|] == log && Replay(mem0, log[..0]) == mem0
  {
  }

  // ---------------------------------------------------------------- progress

  function Alone(t: nat, n: nat): seq<Choice> {
    seq(n, _ => Advance(t))
  }

  /** Alone, a loaded value can be stored. */
  lemma {:induction false} LoadedCommits(s: State, t: nat)
    requires CellsExist(s) && t < |s.threads| && s.threads[t].Busy() && s.threads[t].pc.Enter?
    ensures var s1 := Step(s, Advance(t));
      && CellsExist(s1) && |s1.threads| == |s.threads| && s1.threads[t].program == s.threads[t].program
      && (|s1.threads[t].returned| == |s.threads[t].returned| ==>
            |Step(s1, Advance(t)).threads[t].returned| == |s.threads[t].returned| + 1)
      && |s.threads[t].returned| <= |s1.threads[t].returned|
  {
    StepKeepsPrograms(s, Advance(t));
  }

  lemma {:induction false} ReturnedGrows(s: State, t: nat)
    requires CellsExist(s) && t < |s.threads|
    ensures var s1 := Step(s, Advance(t));
      t < |s1.threads| && |s.threads[t].returned| <= |s1.threads[t].returned|
    ensures var s1 := Step(s, Advance(t));
      s.threads[t].Busy() && s.threads[t].pc.Loaded? && |s1.threads[t].returned| == |s.threads[t].returned| ==>
        s1.threads[t].pc.Enter? && s1.threads[t].Busy()
  {
  }

  /** No call waits for another thread: wherever a run has left it, three steps of its thread alone complete it. */
  lemma {:induction false} FinishesAlone(s0: State, schedule: seq<Choice>, t: nat)
    requires CellsExist(s0) && t < |s0.threads| && Exec(s0, schedule).threads[t].Busy()
    ensures |Exec(s0, schedule + Alone(t, 3)).threads[t].returned| > |Exec(s0, schedule).threads[t].returned|
  {
    hide Step;
    var a := Advance(t);
    var s := Exec(s0, schedule);
    assert Alone(t, 3) == [a, a, a];
    assert (schedule + [a, a, a])[..|schedule| + 2] == schedule + [a, a];
    assert (schedule + [a, a])[..|schedule| + 1] == schedule + [a];
    assert (schedule + [a])[..|schedule|] == schedule;
    var s1 := Step(s, a);
    StepKeepsPrograms(s, a);
    StepKeepsPrograms(s1, a);
    var s2 := Step(s1, a);
    StepKeepsPrograms(s2, a);
    assert Exec(s0, schedule + [a]) == s1 && Exec(s0, schedule + [a, a]) == s2;
    ReturnedGrows(s, t);
    ReturnedGrows(s1, t);
    ReturnedGrows(s2, t);
    if s.threads[t].pc.Enter? {
      LoadedCommits(s, t);
    } else if |s1.threads[t].returned| == |s.threads[t].returned| {
      LoadedCommits(s1, t);
    }
  }

  // ---------------------------------------------------------------- a_or_64 and a_and_64, bit by bit

  /** Some argument has the bit. */
  predicate SomeHas(args: seq<Wide>, i: nat) {
    exists k :: 0 <= k < |args| && Bit(args[k], i)
  }

  predicate AllHave(args: seq<Wide>, i: nat) {
    forall k :: 0 <= k < |args| ==> Bit(args[k], i)
  }

  lemma {:induction false} OrFolds(args: seq<Wide>, i: nat)
    ensures Bit(Fold64(Or, args), i) <==> SomeHas(args, i)
  {
    hide Bit;
    if args == [] {
      ZeroBits(i);
    } else {
      var init, last := args[..|args| - 1], args[|args| - 1];
      OrFolds(init, i);
      OrBits(Fold64(Or, init), last, i);
      if SomeHas(init, i) {
        var k :| 0 <= k < |init| && Bit(init[k], i);
        assert args[k] == init[k];
      }
      if SomeHas(args, i) && !Bit(last, i) {
        var k :| 0 <= k < |args| && Bit(args[k], i);
        assert init[k] == args[k];
      }
      assert Bit(last, i) ==> Bit(args[|args| - 1], i);
    }
  }

  lemma {:induction false} AndFolds(args: seq<Wide>, i: nat)
    requires i < 64
    ensures Bit(Fold64(And, args), i) <==> AllHave(args, i)
  {
    hide Bit;
    if args == [] {
      FullBits(64, i);
      ModulusIsPow2();
    } else {
      var init, last := args[..|args| - 1], args[|args| - 1];
      AndFolds(init, i);
      AndBits(Fold64(And, init), last, i);
      assert args == init + [last];
    }
  }

  lemma {:induction false} FullBits(n: nat, i: nat)
    requires i < n
    ensures Bit(Pow2(n) - 1, i)
  {
    if i > 0 {
      FullBits(n - 1, i - 1);
      assert (Pow2(n) - 1) / 2 == Pow2(n - 1) - 1;
    }
  }

  predicate SomeList(argLists: seq<seq<Wide>>, i: nat) {
    exists t :: 0 <= t < |argLists| && SomeHas(argLists[t], i)
  }

  lemma {:induction false} OrFoldsAll(argLists: seq<seq<Wide>>, i: nat)
    ensures Bit(FoldAll64(Or, argLists), i) <==> SomeList(argLists, i)
  {
    hide Bit, SomeHas, Fold64;
    if argLists == [] {
      ZeroBits(i);
    } else {
      var init, last := argLists[..|argLists| - 1], argLists[|argLists| - 1];
      OrFoldsAll(init, i);
      OrFolds(last, i);
      OrBits(FoldAll64(Or, init), Fold64(Or, last), i);
      if SomeList(init, i) {
        var t :| 0 <= t < |init| && SomeHas(init[t], i);
        assert argLists[t] == init[t];
      }
      if SomeList(argLists, i) && !SomeHas(last, i) {
        var t :| 0 <= t < |argLists| && SomeHas(argLists[t], i);
        assert init[t] == argLists[t];
      }
      assert SomeHas(last, i) ==> SomeHas(argLists[|argLists| - 1], i);
    }
  }

  lemma {:induction false} AndFoldsAll(argLists: seq<seq<Wide>>, i: nat)
    requires i < 64
    ensures Bit(FoldAll64(And, argLists), i) <==> forall t :: 0 <= t < |argLists| ==> AllHave(argLists[t], i)
  {
    hide Bit, AllHave, Fold64;
    if argLists == [] {
      FullBits(64, i);
      ModulusIsPow2();
    } else {
      var init, last := argLists[..|argLists| - 1], argLists[|argLists| - 1];
      AndFoldsAll(init, i);
      AndFolds(last, i);
      AndBits(FoldAll64(And, init), Fold64(And, last), i);
      assert argLists == init + [last];
    }
  }

  /** After any number of racing a_or_64 calls a bit of the word is set if it was or if any argument has it; after
      a_and_64 calls, if it was and all arguments have it. The low 32 bits lie in the first cell. */
  lemma {:induction false} WideBits(kind: Kind, s0: State, schedule: seq<Choice>, base: nat,
                                    argLists: seq<seq<Wide>>, i: nat)
    requires !kind.Add? && Initial(s0) && base + 1 < |s0.mem| && |argLists| == |s0.threads| && i < 64
    requires forall t :: 0 <= t < |s0.threads| ==> s0.threads[t].program == Program64(kind, base, argLists[t])
    requires forall t :: 0 <= t < |s0.threads| ==> Exec(s0, schedule).threads[t].Finished()
    ensures var mem := Exec(s0, schedule).mem;
      var before := s0.mem[base] as int + 0x1_0000_0000 * s0.mem[base + 1] as int;
      var after := mem[base] as int + 0x1_0000_0000 * mem[base + 1] as int;
      if kind.Or? then
        Bit(after, i) <==> Bit(before, i) || exists t :: 0 <= t < |argLists| && SomeHas(argLists[t], i)
      else
        Bit(after, i) <==> Bit(before, i) && forall t :: 0 <= t < |argLists| ==> AllHave(argLists[t], i)
  {
    hide Bit, BitOr, BitAnd, Exec, FoldAll64, Program64, SomeHas, AllHave;
    WideFinalValue(kind, s0, schedule, base, argLists);
    var before := Join(s0.mem[base], s0.mem[base + 1]);
    if kind.Or? {
      OrFoldsAll(argLists, i);
      OrBits(before, FoldAll64(Or, argLists), i);
    } else {
      AndFoldsAll(argLists, i);
      AndBits(before, FoldAll64(And, argLists), i);
    }
  }

  /** The calls that a_or_64 and a_and_64 make: on the low half unless it has no bits to set or to clear, then on the
      high half. */
  lemma {:induction false} WideCalls(base: nat, low: Word, high: Word)
    ensures var v := low + 0x1_0000_0000 * high;
      && Calls64(Or, base, v) == (if low == 0 then [] else [Call(base, FetchOr(low))])
                                 + (if high == 0 then [] else [Call(base + 1, FetchOr(high))])
      && Calls64(And, base, v) == (if low == 0xffff_ffff then [] else [Call(base, FetchAnd(low))])
                                  + (if high == 0xffff_ffff then [] else [Call(base + 1, FetchAnd(high))])
  {
    assert Low(low + MODULUS * high) == low && High(low + MODULUS * high) == high;
  }
}
