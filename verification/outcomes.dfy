/** How every command ends, and what it leaves, entry by entry and byte by byte: each by conditions on
    the state before it. */
module Outcomes {
  import opened Words
  import opened Text
  import opened Patches
  import opened Child
  import opened Session
  import Runs

  // ----- Replies -----

  /** The status that the table of the code asks for; run only needs a program. */
  predicate RightStatus(s: State, c: Command) {
    match c
    case Load(_) => s.status.NotLoaded?
    case Start(_, _) => s.status.Loaded?
    case RunProgram(_, _, _, _) => !s.status.NotLoaded?
    case _ => s.status.Running?
  }

  lemma WrongStatusIff(w: World, s: State, c: Command)
    requires Inv(w, s) && Legal(w, s, c)
    ensures Step(w, s, c).reply.WrongStatus? <==> !RightStatus(s, c)
  {
    hide Safe, Clean, Run, ExecOne, Reset, Restore, SavesRight;
  }

  /** The commands that end the debugger: those that make it ask for a child, or for a word of one, that
      is not there. */
  predicate NoTarget(w: World, s: State, c: Command) {
    match c
    case Load(_) => false
    case Start(_, launch) => s.status.Loaded? && !launch.Execs? && s.addrs != []
    case Break(a) => s.status.Running? && InText(s, a) && a !in s.addrs && !(s.live && a + 8 <= |w.image|)
    case Delete(id) => s.status.Running? && !s.live && 0 <= id < |s.addrs|
    case Cont(_, _) => s.status.Running? && !s.live
    case Si(_) => s.status.Running? && !s.live
    case RunProgram(_, launch, _, _) =>
      || (s.status.Running? && !s.live)
      || (s.status.Loaded? && !launch.Execs? && (s.addrs != [] || launch.ExitsAtOnce?))
  }

  lemma QuitIff(w: World, s: State, c: Command)
    requires Inv(w, s) && Legal(w, s, c)
    ensures Step(w, s, c).reply.Quit? <==> NoTarget(w, s, c)
  {
    hide Safe, Run, ExecOne, Reset, Restore, SavesRight;
    if c.RunProgram? {
      StopFrame(w, s.(live := true, mem := w.image), c.init, false);
    }
  }

  predicate NoSuchBreakpoint(s: State, c: Command) {
    match c
    case Break(a) => s.status.Running? && (!InText(s, a) || a in s.addrs)
    case Delete(id) => s.status.Running? && !(0 <= id <= |s.addrs|)
    case _ => false
  }

  lemma BadBreakpointIff(w: World, s: State, c: Command)
    requires Inv(w, s) && Legal(w, s, c)
    ensures Step(w, s, c).reply.BadBreakpoint? <==> NoSuchBreakpoint(s, c)
  {
    hide Safe, Clean, Run, ExecOne, Reset, Restore, SavesRight;
  }

  /** The waits that end because the child was killed. */
  predicate WaitsForKilled(s: State, c: Command) {
    match c
    case Start(_, launch) => s.status.Loaded? && launch.KilledAtOnce? && s.addrs == []
    case Cont(_, why) => s.live && why.Killed?
    case Si(why) => s.live && why.Killed?
    case RunProgram(_, launch, _, why) =>
      || (s.live && why.Killed?)
      || (s.status.Loaded? && launch.KilledAtOnce? && s.addrs == [])
      || (s.status.Loaded? && launch.Execs? && why.Killed? && s.lid < |s.addrs|)
    case _ => false
  }

  lemma BadWaitIff(w: World, s: State, c: Command)
    requires Inv(w, s) && Legal(w, s, c)
    ensures Step(w, s, c).reply.BadWait? <==> WaitsForKilled(s, c)
  {
    hide Safe, Clean, Run, ExecOne, Reset, Restore, SavesRight;
    if c.RunProgram? {
      StopFrame(w, s.(live := true, mem := w.image), c.init, false);
    }
  }

  lemma NoFileIff(w: World, s: State, c: Command)
    requires Inv(w, s) && Legal(w, s, c)
    ensures Step(w, s, c).reply.NoFile? <==> c.Load? && s.status.NotLoaded? && c.file.None?
  {
    hide Safe, Clean, Run, ExecOne, Reset, Restore, SavesRight;
  }

  /** Which breakpoints are accepted: for a live child, exactly the new ones in the text section with a
      whole mapped word behind them, however close to others. */
  lemma BreakAcceptsIff(w: World, s: State, a: Addr)
    requires Inv(w, s) && Legal(w, s, Break(a)) && s.entry + s.size <= TOP && s.size > 0
    ensures Step(w, s, Break(a)).reply.Done? <==>
            s.live && s.entry <= a < s.entry + s.size && a !in s.addrs && a + 8 <= |w.image|
  {
    hide Safe, SavesRight;
  }

  // ----- What is left -----

  /** A command that is refused, and one that reads outside the table, leaves everything as it was. So
      does one that ends the debugger, but for the status after a run whose child exits at once. */
  lemma RefusedChangesNothing(w: World, s: State, c: Command)
    requires Inv(w, s) && Legal(w, s, c)
    requires !Step(w, s, c).reply.Done? && !Step(w, s, c).reply.BadWait?
    ensures Step(w, s, c).state ==
            if c.RunProgram? && s.status.Loaded? && c.launch.ExitsAtOnce? && s.addrs == [] then s.(status := Running) else s
  {
    hide Safe, Clean, Run, ExecOne, Reset, Restore, SavesRight;
    if c.RunProgram? {
      StopFrame(w, s.(live := true, mem := w.image), c.init, false);
      Runs.StopValid(w, s.(live := true, mem := w.image), c.init, false);
    }
  }

  /** load takes entry point and size from the first section at the entry point, so that break then
      accepts exactly that section; if there is none, they stay. */
  lemma LoadTakesText(w: World, s: State, elf: Elf)
    requires Inv(w, s) && s.status.NotLoaded?
    ensures var t := Step(w, s, Load(Some(elf))).state;
            && t.status.Loaded? && !t.live && t.addrs == [] && t.lid == -1
            && (forall i :: FirstAt(elf, i) ==>
                  && t.entry == elf.entry && t.size == elf.sections[i].size
                  && (0 < t.size && t.entry + t.size <= TOP ==>
                        forall a: Addr :: InText(t, a) <==> elf.entry <= a < elf.entry + elf.sections[i].size))
            && ((forall j :: 0 <= j < |elf.sections| ==> elf.sections[j].addr != elf.entry) ==> t.entry == s.entry && t.size == s.size)
  {
    var t := Step(w, s, Load(Some(elf))).state;
    forall i | FirstAt(elf, i)
      ensures FindText(elf.entry, elf.sections) == Some(elf.sections[i])
    {
      FirstIsFound(elf.entry, elf.sections, i);
    }
  }

  /** Section i is the first at the entry point. */
  predicate FirstAt(elf: Elf, i: int) {
    0 <= i < |elf.sections| && elf.sections[i].addr == elf.entry && forall j :: 0 <= j < i ==> elf.sections[j].addr != elf.entry
  }

  lemma {:induction false} FirstIsFound(entry: Addr, sections: seq<Section>, i: nat)
    requires i < |sections| && sections[i].addr == entry && forall j :: 0 <= j < i ==> sections[j].addr != entry
    ensures FindText(entry, sections) == Some(sections[i])
  {
    if i > 0 {
      FirstIsFound(entry, sections[1..], i - 1);
    }
  }

  /** break adds one entry behind the others, and int3 on one byte. */
  lemma BreakAdds(w: World, s: State, a: Addr)
    requires Inv(w, s) && Legal(w, s, Break(a)) && Step(w, s, Break(a)).reply.Done?
    ensures var t := Step(w, s, Break(a)).state;
            && |t.addrs| == |s.addrs| + 1 && t.addrs[|s.addrs|] == a
            && (forall k :: 0 <= k < |s.addrs| ==> t.addrs[k] == s.addrs[k])
            && |t.mem| == |s.mem| && (forall x :: 0 <= x < |s.mem| ==> t.mem[x] == if x == a then CC else s.mem[x])
            && t == s.(addrs := t.addrs, mem := t.mem)
  {
    hide Safe, SavesRight;
  }

  /** delete closes the gap in the table: later breakpoints move down by one, and so do the ids for the
      next delete. In the word behind it its own byte and those of no breakpoint become original, and
      all other breakpoints are armed; lid stays. */
  lemma DeleteCloses(w: World, s: State, id: nat)
    requires Inv(w, s) && s.live && id < |s.addrs|
    ensures var t := Step(w, s, Delete(id)).state;
            && Step(w, s, Delete(id)).reply.Done?
            && |t.addrs| == |s.addrs| - 1
            && (forall k :: 0 <= k < |t.addrs| ==> t.addrs[k] == s.addrs[if k < id then k else k + 1])
            && |t.mem| == |s.mem|
            && (forall x :: 0 <= x < |s.mem| ==>
                  t.mem[x] == if !InWindow(s.addrs[id], x) then s.mem[x]
                              else if x in s.addrs && x != s.addrs[id] then CC else w.image[x])
            && t == s.(addrs := t.addrs, mem := t.mem)
  {
    hide PairSafe;
  }

  /** s has come to a stop in machine state m. If a breakpoint is where rip is, or after a cont one byte
      below, then the child is put on it, its word is original, and lid is its index. The breakpoints of
      the word lifted before are armed again. Nothing else has changed. */
  ghost predicate StoppedAt(w: World, s: State, m: Machine, cont: bool, t: State)
    requires |s.mem| == |w.image| && s.lid < |s.addrs|
  {
    var hit := m.rip - if cont then 1 else 0;
    && (hit in s.addrs ==> 0 <= t.lid < |s.addrs| && s.addrs[t.lid] == hit && t.m == m.(rip := hit))
    && (hit !in s.addrs ==> t.lid == -1 && t.m == m)
    && |t.mem| == |s.mem|
    && (forall x :: 0 <= x < |s.mem| ==>
          t.mem[x] == if hit in s.addrs && InWindow(hit, x) then w.image[x]
                      else if s.lid >= 0 && InWindow(s.addrs[s.lid], x) then if x in s.addrs then CC else w.image[x]
                      else s.mem[x])
    && t == s.(lid := t.lid, m := t.m, mem := t.mem)
  }

  lemma StopEffect(w: World, s: State, m: Machine, cont: bool)
    requires |s.mem| == |w.image| && -1 <= s.lid < |s.addrs|
    ensures StoppedAt(w, s, m, cont, AtStop(w, s, m, cont).state)
  {
  }

  /** The end of a wait for a running child: it is gone, with status LOADED and all else kept for the
      next start; or killed; or stopped where it trapped, where the signal found it, or after its one
      instruction. */
  ghost predicate WaitEnds(w: World, s: State, p: Machine, why: Cause, cont: bool, r: Res)
    requires |s.mem| == |w.image| && s.lid < |s.addrs|
  {
    var o := ExecOne(w.cpu, s.mem, p);
    match why
    case Killed => r.reply == BadWait && r.state == s.(live := false)
    case BySignal => r.reply == Done && StoppedAt(w, s, p, cont, r.state)
    case Itself =>
      match o
      case Exited => r.reply == Done && r.state == s.(status := Loaded, live := false)
      case Trap(at) => r.reply == Done && StoppedAt(w, s, at, cont, r.state)
      case Next(next) => r.reply == Done && StoppedAt(w, s, next, cont, r.state)
      case Fault => true
  }

  lemma ContEnds(w: World, s: State, n: nat, why: Cause)
    requires Inv(w, s) && s.live && s.lid < |s.addrs| && Legal(w, s, Cont(n, why))
    ensures WaitEnds(w, s, Run(w.cpu, s.mem, s.m, n).value, why, true, Step(w, s, Cont(n, why)))
  {
    hide Safe, Run, ExecOne, AtStop, StoppedAt;
    var p := Run(w.cpu, s.mem, s.m, n).value;
    var o := ExecOne(w.cpu, s.mem, p);
    StopEffect(w, s, p, true);
    StopFrame(w, s, p, true);
    if o.Trap? {
      StopEffect(w, s, o.at, true);
      StopFrame(w, s, o.at, true);
    }
  }

  lemma SiEnds(w: World, s: State, why: Cause)
    requires Inv(w, s) && s.live && s.lid < |s.addrs| && Legal(w, s, Si(why))
    ensures WaitEnds(w, s, s.m, why, false, Step(w, s, Si(why)))
  {
    hide Safe, Run, ExecOne, AtStop, StoppedAt;
    var o := ExecOne(w.cpu, s.mem, s.m);
    StopEffect(w, s, s.m, false);
    StopFrame(w, s, s.m, false);
    if o.Trap? || o.Next? {
      StopEffect(w, s, if o.Trap? then o.at else o.next, false);
      StopFrame(w, s, if o.Trap? then o.at else o.next, false);
    }
  }

  /** A start that comes to a stop: new text with exactly the table armed, the child at its first
      instruction, and lid the index of the breakpoint there, or -1. */
  lemma StartArms(w: World, s: State, init: Machine)
    requires Inv(w, s) && s.status.Loaded? && s.lid < |s.addrs|
    ensures var r := Step(w, s, Start(init, Execs));
            var t := r.state;
            && r.reply.Done? && t.status.Running? && t.live && t.m == init
            && (init.rip in s.addrs ==> 0 <= t.lid < |s.addrs| && s.addrs[t.lid] == init.rip)
            && (init.rip !in s.addrs ==> t.lid == -1)
            && |t.mem| == |w.image|
            && (forall x :: 0 <= x < |t.mem| ==> t.mem[x] == if x in s.addrs then CC else w.image[x])
            && t == s.(status := Running, live := true, lid := t.lid, m := t.m, mem := t.mem)
  {
    hide Safe, AtStop;
    var forked := s.(live := true, mem := w.image);
    StopEffect(w, forked, init, false);
    StopFrame(w, forked, init, false);
  }

  /** A start whose child is gone before it stops: with an empty table it says RUNNING, and nothing else
      changes. */
  lemma StartFails(w: World, s: State, init: Machine, launch: Launch)
    requires Inv(w, s) && s.status.Loaded? && !launch.Execs? && s.addrs == []
    ensures Step(w, s, Start(init, launch)) ==
            Res(s.(status := Running), if launch.KilledAtOnce? then BadWait else Done)
  {
  }

  lemma TwoCommands(w: World, s: State, c: Command, d: Command)
    requires Legal(w, s, c) && !Runs.Ends(Step(w, s, c).reply) && Legal(w, Step(w, s, c).state, d)
    ensures Runs.LegalRun(w, s, [c, d])
    ensures Runs.RunAll(w, s, [c, d]) == Step(w, Step(w, s, c).state, d)
  {
    hide Legal, Step;
    assert [c, d][1..] == [d] && [d][1..] == [];
    assert Runs.LegalRun(w, Step(w, s, c).state, [c, d][1..]);
  }

  /** run is cont, or from LOADED the commands start and cont, unless the start reports an error. */
  lemma RunIsStartThenCont(w: World, s: State, init: Machine, launch: Launch, n: nat, why: Cause)
    requires Legal(w, s, RunProgram(init, launch, n, why))
    ensures var r := Step(w, s, RunProgram(init, launch, n, why));
            && (s.status.Running? ==> Legal(w, s, Cont(n, why)) && r == Step(w, s, Cont(n, why)))
            && (s.status.Loaded? && Step(w, s, Start(init, launch)).reply.Done? ==>
                  && Runs.LegalRun(w, s, [Start(init, launch), Cont(n, why)])
                  && r == Runs.RunAll(w, s, [Start(init, launch), Cont(n, why)]))
            && (s.status.Loaded? && !Step(w, s, Start(init, launch)).reply.Done? ==> r == Step(w, s, Start(init, launch)))
  {
    hide CanResume, DoCont, DoStart;
    StartRuns(w, s, init, launch);
    if s.status.Loaded? && Step(w, s, Start(init, launch)).reply.Done? {
      TwoCommands(w, s, Start(init, launch), Cont(n, why));
    }
  }

  /** The whole table survives the end of the program: after an exit a start plants all of it again, and
      the session goes on. */
  lemma RestartArmsAll(w: World, s: State, n: nat, init: Machine)
    requires Inv(w, s) && s.live && Tight(s) && Legal(w, s, Cont(n, Itself))
    requires ExecOne(w.cpu, s.mem, Run(w.cpu, s.mem, s.m, n).value).Exited?
    ensures var cmds := [Cont(n, Itself), Start(init, Execs)];
            && Runs.LegalRun(w, s, cmds) && Runs.RunAll(w, s, cmds).reply.Done?
            && var t := Runs.RunAll(w, s, cmds).state;
               t.live && t.m == init && t.addrs == s.addrs && t.mem == Armed(w.image, Elems(s.addrs)) && Tight(t)
  {
    hide Safe, Clean, Run, ExecOne, DoStart, DoCont, CanResume;
    ContEnds(w, s, n, Itself);
    StepKeeps(w, s, Cont(n, Itself));
    var gone := Step(w, s, Cont(n, Itself)).state;
    StartArms(w, gone, init);
    StepKeeps(w, gone, Start(init, Execs));
    TwoCommands(w, s, Cont(n, Itself), Start(init, Execs));
  }
}
