/** Where a resumed child stops, what a delete does to the index of the lifted breakpoint, and which
    pairs of commands undo each other: each with the exact condition under which it holds. */
module StopPoints {
  import opened Words
  import opened Text
  import opened Patches
  import opened Child
  import opened Session

  // ----- Where cont stops -----

  /** The first state of the native run, from index `from` on, that stands on a breakpoint. */
  ghost predicate FirstHit(cpu: Cpu, image: Mem, m: Machine, addrs: seq<int>, from: nat, n: nat) {
    && from <= n && Run(cpu, image, m, n).Some? && Run(cpu, image, m, n).value.rip in addrs
    && forall j: nat :: from <= j < n && Run(cpu, image, m, j).Some? ==> Run(cpu, image, m, j).value.rip !in addrs
  }

  lemma ExactArmedAt(w: World, s: State, p: Machine)
    requires TableOk(w, s) && ExactStop(w, s) && OrderlyAt(w.cpu, s.mem, w.image, p)
    ensures ArmedAt(s.mem, p) <==> p.rip in s.addrs && Unlifted(s, p.rip)
  {
  }

  /** From a stop, cont halts at the next breakpoint of the native run exactly when that breakpoint
      is not in the word lifted at the stop; otherwise the child runs over it. */
  lemma ContStopsAtNextIff(w: World, s: State, n: nat)
    requires Inv(w, s) && s.live && ExactStop(w, s) && PrefixCode(w.cpu)
    requires Orderly(w.cpu, s.mem, w.image, s.m, n + 1)
    requires FirstHit(w.cpu, w.image, s.m, s.addrs, if s.lid < 0 then 0 else 1, n)
    ensures CanResume(w, s, n, Itself) && DoCont(w, s, n, Itself).state.live <==>
            Unlifted(s, Run(w.cpu, w.image, s.m, n).value.rip)
  {
    hide ExecOne, PrefixCode, Safe, Clean, OrderlyAt, ExactStop, AtStop;
    StopsIff(w.cpu, s.mem, w.image, s.m, s.addrs, n);
    forall j: nat | j <= n && Run(w.cpu, w.image, s.m, j).Some?
      ensures var p := Run(w.cpu, w.image, s.m, j).value;
              ArmedAt(s.mem, p) <==> p.rip in s.addrs && Unlifted(s, p.rip)
    {
      ExactArmedAt(w, s, Run(w.cpu, w.image, s.m, j).value);
    }
    StandsOnLifted(w, s);
    if Stops(w.cpu, s.mem, s.m, n) {
      var o := ExecOne(w.cpu, s.mem, Run(w.cpu, s.mem, s.m, n).value);
      if o.Trap? { StopFrame(w, s, o.at, true); }
    }
  }

  lemma StandsOnLifted(w: World, s: State)
    requires ExactStop(w, s)
    ensures s.lid >= 0 ==> Run(w.cpu, w.image, s.m, 0).value.rip == s.addrs[s.lid] && !Unlifted(s, s.addrs[s.lid])
  {
  }

  /** Between stops, too, with breakpoints set and deleted meanwhile, and whatever ends the wait: the
      child has not passed any breakpoint outside the lifted word. */
  lemma NeverPassesArmed(w: World, s: State, n: nat, k: nat, p: Machine)
    requires Inv(w, s) && s.live && Tight(s) && PrefixCode(w.cpu)
    requires Run(w.cpu, s.mem, s.m, n).Some? && Orderly(w.cpu, s.mem, w.image, s.m, n)
    requires Run(w.cpu, w.image, s.m, k) == Some(p) && p.rip in s.addrs && Unlifted(s, p.rip)
    ensures n <= k
  {
    hide ExecOne, PrefixCode, Safe, Clean, Orderly;
    var i :| 0 <= i < |s.addrs| && s.addrs[i] == p.rip;
    assert IsCC(s.mem, s.addrs[i]);
    PatchedRun(w.cpu, s.mem, w.image, s.m, s.addrs, n);
  }

  /** A stop of cont by another signal leaves the child where the native run is exactly when there is no
      breakpoint one byte below rip: if there is, rip is moved back onto it. */
  lemma SignalStopIff(w: World, s: State, n: nat)
    requires Inv(w, s) && s.live && s.lid < |s.addrs| && PrefixCode(w.cpu)
    requires CanResume(w, s, n, BySignal) && Orderly(w.cpu, s.mem, w.image, s.m, n)
    ensures Run(w.cpu, w.image, s.m, n) == Some(DoCont(w, s, n, BySignal).state.m) <==>
            Run(w.cpu, s.mem, s.m, n).value.rip - 1 !in s.addrs
  {
    hide ExecOne, Run, PrefixCode, Safe, Orderly;
    PatchedRun(w.cpu, s.mem, w.image, s.m, s.addrs, n);
  }

  /** si on an armed byte executes no instruction of the program: it runs the int3, and rip ends one
      byte further with everything else unchanged. So si agrees with the unpatched program exactly
      when the byte is not armed (a native one-byte no-op looks the same either way). */
  lemma SiAgreesIff(w: World, s: State)
    requires Inv(w, s) && s.live && s.lid < |s.addrs| && PrefixCode(w.cpu) && CanStep(w, s, Itself)
    requires OrderlyAt(w.cpu, s.mem, w.image, s.m)
    requires ExecOne(w.cpu, w.image, s.m) != Next(s.m.(rip := s.m.rip + 1))
    ensures var t := DoSi(w, s, Itself).state;
            (if t.live then ExecOne(w.cpu, w.image, s.m) == Next(t.m) else ExecOne(w.cpu, w.image, s.m).Exited?) <==>
            !ArmedAt(s.mem, s.m)
  {
    hide ExecOne, PrefixCode, Safe, OrderlyAt, Clean;
    PatchedStep(w.cpu, s.mem, w.image, s.m, s.addrs);
  }

  /** Of the commands that do not resume the child, a start leaves the byte at rip armed exactly with a
      breakpoint on the first instruction; a break exactly at the current instruction; and a delete
      exactly when it re-arms a neighbour there: then si must not be the next command. */
  lemma ArmedUnderfootIff(w: World, s: State, c: Command)
    requires Inv(w, s) && Legal(w, s, c) && Step(w, s, c).reply.Done?
    ensures c.Start? && c.launch.Execs? && Read(w.image, c.init.rip) != CC ==>
              (ArmedAt(Step(w, s, c).state.mem, Step(w, s, c).state.m) <==> c.init.rip in s.addrs)
    ensures c.Break? && !ArmedAt(s.mem, s.m) ==>
              (ArmedAt(Step(w, s, c).state.mem, Step(w, s, c).state.m) <==> c.addr == s.m.rip)
    ensures c.Delete? && !ArmedAt(s.mem, s.m) ==>
              (ArmedAt(Step(w, s, c).state.mem, Step(w, s, c).state.m) <==>
               s.m.rip in s.addrs && s.addrs[c.id] < s.m.rip < s.addrs[c.id] + 8)
  {
    hide Safe, Run, ExecOne, SavesRight;
    match c
    case Start(init, launch) => StartRuns(w, s, init, launch);
    case Delete(id) => if !ArmedAt(s.mem, s.m) { DeleteUnderfoot(w, s, id); }
    case _ =>
  }

  lemma DeleteUnderfoot(w: World, s: State, id: nat)
    requires Inv(w, s) && s.live && id < |s.addrs| && !ArmedAt(s.mem, s.m)
    ensures var t := DoDelete(w, s, id).state;
            ArmedAt(t.mem, t.m) <==> s.m.rip in s.addrs && s.addrs[id] < s.m.rip < s.addrs[id] + 8
  {
    hide Safe;
  }

  /** A stop leaves it armed exactly when another signal ended a cont on a breakpoint, with none one
      byte below: cont looks only there. */
  lemma StopUnderfootIff(w: World, s: State, m: Machine, cont: bool)
    requires Inv(w, s) && s.live && Tight(s)
    requires Read(w.image, AtStop(w, s, m, cont).state.m.rip) != CC
    ensures var t := AtStop(w, s, m, cont).state;
            ArmedAt(t.mem, t.m) <==> cont && m.rip in s.addrs && m.rip - 1 !in s.addrs
  {
    hide Safe, Clean, AtStop;
    StopKeeps(w, s, m, cont);
    StopWhere(w, s, m, cont);
  }

  lemma StopWhere(w: World, s: State, m: Machine, cont: bool)
    requires s.lid < |s.addrs|
    ensures var t := AtStop(w, s, m, cont).state;
            && t.addrs == s.addrs
            && (t.lid >= 0 <==> m.rip - (if cont then 1 else 0) in s.addrs)
            && (t.lid < 0 ==> t.m == m)
  {
  }

  // ----- Commands that undo each other -----

  /** Lifting the breakpoint hit and re-arming at the next stop gives the memory back exactly when
      every breakpoint of the lifted word was armed; rip stays on the breakpoint. */
  lemma LiftThenRearmIff(w: World, s: State, cont: bool)
    requires TableOk(w, s) && s.lid == -1 && Clean(s.mem, w.image, s.addrs)
    requires Restore(w, s, cont).lid >= 0
    ensures var t := Restore(w, s, cont);
            Reset(w, t) == s.(m := t.m) <==>
            forall b :: b in s.addrs && InWindow(t.m.rip, b) ==> IsCC(s.mem, b)
  {
  }

  /** Handling a stop a second time, with nothing executed in between, as when another signal stops an
      si: the state stays as it is exactly when the first handling left no breakpoint at rip armed. */
  lemma StopTwiceIff(w: World, s: State, m: Machine, cont: bool)
    requires Inv(w, s) && s.live && Tight(s)
    ensures var t := AtStop(w, s, m, cont).state;
            AtStop(w, t, t.m, false) == Res(t, Done) <==> !(cont && m.rip in s.addrs && m.rip - 1 !in s.addrs)
  {
    hide Safe, Clean, AtStop, ExactStop;
    StopKeeps(w, s, m, cont);
    StopWhere(w, s, m, cont);
    ExactAgainIff(w, AtStop(w, s, m, cont).state);
  }

  lemma ExactAgainIff(w: World, t: State)
    requires TableOk(w, t) && ExactStop(w, t) && -1 <= t.lid
    ensures AtStop(w, t, t.m, false) == Res(t, Done) <==> t.lid >= 0 || t.m.rip !in t.addrs
  {
    hide Safe;
    ResetTwice(w, t);
    if t.lid >= 0 {
      RearmThenLift(w, t);
    }
  }

  lemma RearmThenLift(w: World, t: State)
    requires TableOk(w, t) && ExactStop(w, t) && t.lid >= 0
    ensures Restore(w, Reset(w, t), false) == t
  {
    hide PairSafe;
    assert IndexOf(t.addrs, t.m.rip) == t.lid;
    assert Restore(w, Reset(w, t), false).mem == t.mem;
  }

  lemma ResetTwice(w: World, s: State)
    requires s.lid < |s.addrs|
    ensures Reset(w, Reset(w, s)) == Reset(w, s) && Reset(w, s).lid < 0
  {
  }

  /** Setting a breakpoint and deleting it again restores memory and table exactly when every
      breakpoint in the seven bytes behind it was armed: the delete re-arms them. */
  lemma BreakThenDeleteIff(w: World, s: State, a: Addr)
    requires Inv(w, s) && s.status.Running? && DoBreak(w, s, a).reply.Done?
    ensures DoDelete(w, DoBreak(w, s, a).state, |s.addrs|).state == s <==>
            forall b :: b in s.addrs && a < b < a + 8 ==> IsCC(s.mem, b)
  {
  }

  // ----- Deleting below the lifted breakpoint -----

  /** After a delete the next stop reads outside the table exactly when lid named the last entry,
      whichever one was deleted. */
  lemma DeleteThenStopIff(w: World, s: State, id: nat, m: Machine, cont: bool)
    requires s.live && -1 <= s.lid < |s.addrs| && id < |s.addrs|
    ensures AtStop(w, DoDelete(w, s, id).state, m, cont).reply.Undefined? <==> s.lid == |s.addrs| - 1
  {
  }

  /** The index in lid still names the lifted breakpoint exactly when a later one was deleted. */
  lemma DeleteKeepsNameIff(w: World, s: State, id: nat)
    requires TableOk(w, s) && s.live && 0 <= s.lid < |s.addrs| && id < |s.addrs|
    ensures var t := DoDelete(w, s, id).state;
            t.lid < |t.addrs| && t.addrs[t.lid] == s.addrs[s.lid] <==> id > s.lid
  {
  }

  /** After a delete at a stop, does the next stop find every remaining breakpoint armed again?
      Exactly when the deleted one comes after the lifted one in the table, or lid has moved to a
      next entry and each breakpoint of the lifted word lies in the word of the deleted one or of
      that next entry. When lid was the last index, the code would read behind its table. */
  lemma DeleteRearmsIff(w: World, s: State, id: nat)
    requires Inv(w, s) && s.live && ExactStop(w, s) && s.lid >= 0 && id < |s.addrs|
    requires forall k :: 0 <= k < |s.addrs| ==> w.image[s.addrs[k]] != CC
    ensures var t := DoDelete(w, s, id).state;
            t.lid < |t.addrs| && Reset(w, t).mem == Armed(w.image, Elems(t.addrs)) <==>
            || id > s.lid
            || (s.lid + 1 < |s.addrs| &&
                forall k :: 0 <= k < |s.addrs| && InWindow(s.addrs[s.lid], s.addrs[k]) ==>
                  InWindow(s.addrs[id], s.addrs[k]) || InWindow(s.addrs[s.lid + 1], s.addrs[k]))
  {
    var t := DoDelete(w, s, id).state;
    RemoveSafe(w.image, s.addrs, id);
    if id > s.lid {
      ExactIsTight(w, s);
      DeleteKeeps(w, s, id);
      ResetArmsAll(w, t);
    } else if s.lid + 1 < |s.addrs| {
      assert t.addrs[t.lid] == s.addrs[s.lid + 1];
      DeleteBelow(w, s, id);
    }
  }

  lemma DeleteBelow(w: World, s: State, id: nat)
    requires Inv(w, s) && s.live && ExactStop(w, s) && 0 <= id <= s.lid && s.lid + 1 < |s.addrs|
    requires forall k :: 0 <= k < |s.addrs| ==> w.image[s.addrs[k]] != CC
    ensures var t := DoDelete(w, s, id).state;
            t.lid < |t.addrs| && t.addrs[t.lid] == s.addrs[s.lid + 1] &&
            (Reset(w, t).mem == Armed(w.image, Elems(t.addrs)) <==>
             forall k :: 0 <= k < |s.addrs| && InWindow(s.addrs[s.lid], s.addrs[k]) ==>
               InWindow(s.addrs[id], s.addrs[k]) || InWindow(s.addrs[s.lid + 1], s.addrs[k]))
  {
    hide Safe, DoDelete, Reset, Armed, ExactStop;
    var t := DoDelete(w, s, id).state;
    DeleteShifts(w, s, id);
    var goal := Armed(w.image, Elems(t.addrs));
    var mem := Reset(w, t).mem;
    forall x | 0 <= x < |w.image|
      ensures mem[x] == goal[x] <==>
              (x in s.addrs && InWindow(s.addrs[s.lid], x) ==>
                 InWindow(s.addrs[id], x) || InWindow(s.addrs[s.lid + 1], x))
    {
      DeleteByte(w, s, id, x);
    }
    if mem == goal {
      forall k | 0 <= k < |s.addrs| && InWindow(s.addrs[s.lid], s.addrs[k])
        ensures InWindow(s.addrs[id], s.addrs[k]) || InWindow(s.addrs[s.lid + 1], s.addrs[k])
      {
        assert Mapped(w.image, s.addrs[k]);
        assert mem[s.addrs[k]] == goal[s.addrs[k]];
      }
    }
  }

  lemma DeleteShifts(w: World, s: State, id: nat)
    requires s.live && 0 <= id <= s.lid && s.lid + 1 < |s.addrs|
    ensures var t := DoDelete(w, s, id).state;
            t.lid < |t.addrs| && t.addrs[t.lid] == s.addrs[s.lid + 1] && |Reset(w, t).mem| == |s.mem|
    ensures |Armed(w.image, Elems(DoDelete(w, s, id).state.addrs))| == |w.image|
  {
  }

  lemma DeleteByte(w: World, s: State, id: nat, x: int)
    requires Inv(w, s) && s.live && ExactStop(w, s) && 0 <= id <= s.lid && s.lid + 1 < |s.addrs|
    requires forall k :: 0 <= k < |s.addrs| ==> w.image[s.addrs[k]] != CC
    requires 0 <= x < |w.image|
    ensures var t := DoDelete(w, s, id).state;
            t.lid < |t.addrs| && |Reset(w, t).mem| == |w.image| &&
            (Reset(w, t).mem[x] == Armed(w.image, Elems(t.addrs))[x] <==>
             (x in s.addrs && InWindow(s.addrs[s.lid], x) ==>
                InWindow(s.addrs[id], x) || InWindow(s.addrs[s.lid + 1], x)))
  {
    hide Safe;
    var t := DoDelete(w, s, id).state;
    RemoveSafe(w.image, s.addrs, id);
    assert t.addrs[t.lid] == s.addrs[s.lid + 1];
    assert x in t.addrs <==> x in Elems(t.addrs);
    assert x in s.addrs <==> x in Elems(s.addrs);
  }
}
