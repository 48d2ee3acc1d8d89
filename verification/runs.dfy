/** Properties of whole debugging sessions. */
module Runs {
  import opened Text
  import opened Patches
  import opened Child
  import opened Session

  /** After these replies the session is over. */
  predicate Ends(r: Reply) {
    r.Quit? || r.Undefined?
  }

  ghost predicate LegalRun(w: World, s: State, cmds: seq<Command>)
    decreases |cmds|
  {
    cmds == [] ||
    (Legal(w, s, cmds[0]) &&
     (Ends(Step(w, s, cmds[0]).reply) || LegalRun(w, Step(w, s, cmds[0]).state, cmds[1..])))
  }

  /** The state and the last reply of a session. */
  ghost function RunAll(w: World, s: State, cmds: seq<Command>): Res
    requires LegalRun(w, s, cmds)
    decreases |cmds|
  {
    if cmds == [] then Res(s, Done)
    else
      var r := Step(w, s, cmds[0]);
      if Ends(r.reply) || |cmds| == 1 then r else RunAll(w, r.state, cmds[1..])
  }

  /** No delete of the session shifts the index kept in lid or names an entry outside the table. */
  ghost predicate KeepsLidAll(w: World, s: State, cmds: seq<Command>)
    requires LegalRun(w, s, cmds)
    decreases |cmds|
  {
    cmds == [] ||
    (KeepsLid(s, cmds[0]) &&
     (Ends(Step(w, s, cmds[0]).reply) || KeepsLidAll(w, Step(w, s, cmds[0]).state, cmds[1..])))
  }

  predicate Initial(s: State) {
    s.status.NotLoaded? && s.addrs == [] && s.lid == -1 && !s.live
  }

  lemma InitialInv(w: World, s: State)
    requires Initial(s)
    ensures Inv(w, s) && Tight(s)
  {
  }

  /** The invariant holds at every reachable state; with no delete up to lid or past the table, all
      breakpoints outside the lifted word are armed, and the table is never read outside. */
  lemma {:induction false} RunKeeps(w: World, s: State, cmds: seq<Command>)
    requires Inv(w, s) && LegalRun(w, s, cmds)
    ensures Inv(w, RunAll(w, s, cmds).state)
    ensures Tight(s) && KeepsLidAll(w, s, cmds) ==>
              Tight(RunAll(w, s, cmds).state) && !RunAll(w, s, cmds).reply.Undefined?
    decreases |cmds|
  {
    hide Inv, Tight, Step, Legal, KeepsLid;
    if cmds != [] {
      StepKeeps(w, s, cmds[0]);
      if !Ends(Step(w, s, cmds[0]).reply) {
        RunKeeps(w, Step(w, s, cmds[0]).state, cmds[1..]);
      }
    }
  }

  /** Any session that ends with an empty table and a live child leaves the text as the program
      mapped it: no stale int3 comes back from a saved word. */
  lemma TotalRemoval(w: World, s: State, cmds: seq<Command>)
    requires Inv(w, s) && LegalRun(w, s, cmds)
    requires RunAll(w, s, cmds).state.addrs == [] && RunAll(w, s, cmds).state.live
    ensures RunAll(w, s, cmds).state.mem == w.image
  {
    RunKeeps(w, s, cmds);
  }

  /** The memory at every stop of every session that keeps lid in place, whatever stopped the child:
      when cont, si or run comes back with the child alive, all breakpoints are armed but those in the
      word of the one the child stands on, every other byte is original, and rip is on that
      breakpoint. */
  lemma EveryStopIsExact(w: World, s: State, cmds: seq<Command>, c: Command)
    requires Initial(s) && LegalRun(w, s, cmds) && KeepsLidAll(w, s, cmds)
    requires (c.Cont? || c.Si? || c.RunProgram?) && Legal(w, RunAll(w, s, cmds).state, c)
    requires var r := Step(w, RunAll(w, s, cmds).state, c); r.reply.Done? && r.state.live
    ensures ExactStop(w, Step(w, RunAll(w, s, cmds).state, c).state)
  {
    hide DoStart, DoCont, DoSi, CanResume, CanStep, CanRun, DoRun, Inv, Tight, ExactStop;
    InitialInv(w, s);
    RunKeeps(w, s, cmds);
    var t := RunAll(w, s, cmds).state;
    match c
    case Cont(n, why) => if t.status.Running? { ContKeeps(w, t, n, why); }
    case Si(why) => if t.status.Running? { SiKeeps(w, t, why); }
    case RunProgram(init, launch, n, why) => RunProgramKeeps(w, t, init, launch, n, why);
  }

  // ----- Life cycle -----

  /** A loaded program stays loaded. */
  predicate KeepsProgram(s: State, t: State) {
    !s.status.NotLoaded? ==> !t.status.NotLoaded? && t.entry == s.entry && t.size == s.size
  }

  lemma ContKeepsProgram(w: World, s: State, n: nat, why: Cause)
    requires CanResume(w, s, n, why) && s.status.Running?
    ensures KeepsProgram(s, DoCont(w, s, n, why).state) && DoCont(w, s, n, why).state.addrs == s.addrs
  {
    hide ExecOne, Run, AtStop;
    if s.live {
      var p := Run(w.cpu, s.mem, s.m, n).value;
      var o := ExecOne(w.cpu, s.mem, p);
      StopFrame(w, s, p, true);
      if o.Trap? { StopFrame(w, s, o.at, true); }
    }
  }

  lemma SiKeepsProgram(w: World, s: State, why: Cause)
    requires CanStep(w, s, why) && s.status.Running?
    ensures KeepsProgram(s, DoSi(w, s, why).state)
  {
    hide ExecOne, AtStop;
    var o := ExecOne(w.cpu, s.mem, s.m);
    StopFrame(w, s, s.m, false);
    if o.Next? { StopFrame(w, s, o.next, false); }
    if o.Trap? { StopFrame(w, s, o.at, false); }
  }

  lemma StartKeepsProgram(w: World, s: State, init: Machine, launch: Launch)
    requires s.status.Loaded?
    ensures KeepsProgram(s, DoStart(w, s, init, launch).state)
  {
    hide AtStop;
    StopFrame(w, s.(live := true, mem := w.image), init, false);
  }

  lemma StepKeepsProgram(w: World, s: State, c: Command)
    requires Legal(w, s, c)
    ensures KeepsProgram(s, Step(w, s, c).state)
    ensures c.Load? && Step(w, s, c).reply.Done? ==> s.status.NotLoaded? && !Step(w, s, c).state.status.NotLoaded?
  {
    hide CanResume, CanStep, DoCont, DoSi, DoStart, Overlay, Armed, Safe, SavesRight;
    match c
    case Start(init, launch) => if s.status.Loaded? { StartKeepsProgram(w, s, init, launch); }
    case Cont(n, why) => if s.status.Running? { ContKeepsProgram(w, s, n, why); }
    case Si(why) => if s.status.Running? { SiKeepsProgram(w, s, why); }
    case RunProgram(init, launch, n, why) =>
      if s.status.Running? {
        ContKeepsProgram(w, s, n, why);
      } else if s.status.Loaded? {
        StartKeepsProgram(w, s, init, launch);
        StartRuns(w, s, init, launch);
        if DoStart(w, s, init, launch).reply.Done? {
          ContKeepsProgram(w, DoStart(w, s, init, launch).state, n, why);
        }
      }
    case _ =>
  }

  /** Text changes only while there is a child: start makes one, and every other command that finds
      none leaves the text as it is. */
  lemma TextNeedsChild(w: World, s: State, c: Command)
    requires Inv(w, s) && Legal(w, s, c) && !s.live
    ensures Step(w, s, c).state.mem != s.mem ==> s.status.Loaded? && (c.Start? || c.RunProgram?)
    ensures c.Start? && Step(w, s, c).state.mem != s.mem ==> Step(w, s, c).state.live
  {
    hide Safe, Clean, AtStop, SavesRight, Run, ExecOne;
    if c.Start? && s.status.Loaded? {
      StopFrame(w, s.(live := true, mem := w.image), c.init, false);
    }
  }

  function LoadDone(c: Command, r: Reply): nat {
    if c.Load? && r.Done? then 1 else 0
  }

  /** How many loads of the session succeed. */
  ghost function LoadsDone(w: World, s: State, cmds: seq<Command>): nat
    requires LegalRun(w, s, cmds)
    decreases |cmds|
  {
    if cmds == [] then 0
    else
      var r := Step(w, s, cmds[0]);
      LoadDone(cmds[0], r.reply) + if Ends(r.reply) then 0 else LoadsDone(w, r.state, cmds[1..])
  }

  /** Over any session a loaded program stays loaded, with the same entry point and text size; load
      succeeds at most once; and so every breakpoint lies in the text section first loaded. */
  lemma {:induction false} LifeCycle(w: World, s: State, cmds: seq<Command>)
    requires Inv(w, s) && LegalRun(w, s, cmds)
    ensures var t := RunAll(w, s, cmds).state;
            && (!s.status.NotLoaded? ==> !t.status.NotLoaded? && t.entry == s.entry && t.size == s.size)
            && (forall a :: a in t.addrs ==> InText(t, a))
            && (!s.status.NotLoaded? ==> forall a :: a in t.addrs ==> InText(s, a))
            && LoadsDone(w, s, cmds) <= (if s.status.NotLoaded? then 1 else 0)
    decreases |cmds|
  {
    hide Step, Legal, Safe, Clean;
    if cmds != [] {
      StepKeepsProgram(w, s, cmds[0]);
      StepKeeps(w, s, cmds[0]);
      if !Ends(Step(w, s, cmds[0]).reply) {
        LifeCycle(w, Step(w, s, cmds[0]).state, cmds[1..]);
      }
    }
  }

  // ----- RUNNING without a child -----

  predicate Lost(s: State) {
    s.status.Running? && !s.live
  }

  /** The commands that leave status RUNNING with no child: a wait that ends because the child was
      killed, and a start of a child that never executes the program, with no breakpoint to plant. */
  predicate LosesChild(s: State, c: Command) {
    match c
    case Start(_, launch) => s.status.Loaded? && !launch.Execs? && s.addrs == []
    case Cont(_, why) => s.status.Running? && why.Killed?
    case Si(why) => s.status.Running? && why.Killed?
    case RunProgram(_, launch, _, why) =>
      || (s.status.Running? && why.Killed?)
      || (s.status.Loaded? && if launch.Execs? then why.Killed? && s.lid < |s.addrs| else s.addrs == [])
    case _ => false
  }

  /** The child of a running program is lost by exactly these commands. */
  lemma LostIff(w: World, s: State, c: Command)
    requires Inv(w, s) && Legal(w, s, c) && !Lost(s)
    ensures Lost(Step(w, s, c).state) <==> LosesChild(s, c)
  {
    hide Inv, Safe, SavesRight, CanResume, CanStep, DoStart, DoCont, DoSi, Overlay, Armed;
    LiveRuns(w, s);
    match c
    case Start(init, launch) => if s.status.Loaded? { StartLoses(w, s, init, launch); }
    case Cont(n, why) => if s.live { ContLoses(w, s, n, why); }
    case Si(why) => if s.live { SiLoses(w, s, why); }
    case RunProgram(init, launch, n, why) =>
      if s.live {
        ContLoses(w, s, n, why);
      } else {
        StartLoses(w, s, init, launch);
        var r := DoStart(w, s, init, launch);
        if s.status.Loaded? && r.reply.Done? {
          if r.state.live { ContLoses(w, r.state, n, why); } else { NoChild(w, r.state, n, why); }
        }
      }
    case _ =>
  }

  lemma StartLoses(w: World, s: State, init: Machine, launch: Launch)
    requires !s.live
    ensures var r := DoStart(w, s, init, launch);
            s.status.Loaded? ==>
              && (Lost(r.state) <==> !launch.Execs? && s.addrs == [])
              && (r.reply.Done? <==> if launch.Execs? then s.lid < |s.addrs| else launch.ExitsAtOnce? && s.addrs == [])
              && (r.reply.Done? ==> r.state.status.Running?)
  {
    hide AtStop;
    StopFrame(w, s.(live := true, mem := w.image), init, false);
  }

  lemma ContLoses(w: World, s: State, n: nat, why: Cause)
    requires s.live && s.status.Running? && CanResume(w, s, n, why)
    ensures Lost(DoCont(w, s, n, why).state) <==> why.Killed?
  {
    hide AtStop, Run, ExecOne;
    var p := Run(w.cpu, s.mem, s.m, n).value;
    var o := ExecOne(w.cpu, s.mem, p);
    StopFrame(w, s, p, true);
    if o.Trap? { StopFrame(w, s, o.at, true); }
  }

  lemma SiLoses(w: World, s: State, why: Cause)
    requires s.live && s.status.Running? && CanStep(w, s, why)
    ensures Lost(DoSi(w, s, why).state) <==> why.Killed?
  {
    hide AtStop, ExecOne;
    var o := ExecOne(w.cpu, s.mem, s.m);
    StopFrame(w, s, s.m, false);
    if o.Next? { StopFrame(w, s, o.next, false); }
    if o.Trap? { StopFrame(w, s, o.at, false); }
  }

  /** RUNNING without a child is for good: no command gets any further, or changes anything. */
  lemma LostStays(w: World, s: State, c: Command)
    requires Lost(s) && Legal(w, s, c)
    ensures Step(w, s, c).state == s && !Step(w, s, c).reply.Done?
  {
    hide Safe, SavesRight, DoStart;
  }

  lemma {:induction false} LostForGood(w: World, s: State, cmds: seq<Command>)
    requires Lost(s) && LegalRun(w, s, cmds)
    ensures RunAll(w, s, cmds).state == s
    decreases |cmds|
  {
    hide Step, Legal;
    if cmds != [] {
      LostStays(w, s, cmds[0]);
      if !Ends(Step(w, s, cmds[0]).reply) {
        LostForGood(w, s, cmds[1..]);
      }
    }
  }

  ghost predicate KeepsChildAll(w: World, s: State, cmds: seq<Command>)
    requires LegalRun(w, s, cmds)
    decreases |cmds|
  {
    cmds == [] ||
    (!LosesChild(s, cmds[0]) &&
     (Ends(Step(w, s, cmds[0]).reply) || KeepsChildAll(w, Step(w, s, cmds[0]).state, cmds[1..])))
  }

  /** After a session RUNNING means that there is a child exactly when no command of it lost one. */
  lemma {:induction false} LostAtEndIff(w: World, s: State, cmds: seq<Command>)
    requires Inv(w, s) && LegalRun(w, s, cmds) && !Lost(s)
    ensures !Lost(RunAll(w, s, cmds).state) <==> KeepsChildAll(w, s, cmds)
    decreases |cmds|
  {
    hide Inv, Step, Legal, LosesChild;
    if cmds != [] {
      LostIff(w, s, cmds[0]);
      StepKeeps(w, s, cmds[0]);
      var r := Step(w, s, cmds[0]);
      if !Ends(r.reply) {
        if LosesChild(s, cmds[0]) {
          LostForGood(w, r.state, cmds[1..]);
        } else {
          LostAtEndIff(w, r.state, cmds[1..]);
        }
      }
    }
  }

  // ----- Reading outside the table -----

  predicate Stale(s: State) {
    s.lid >= |s.addrs|
  }

  /** lid ceases to name an entry exactly when a delete succeeds while it names the last one. */
  lemma StaleIff(w: World, s: State, c: Command)
    requires Inv(w, s) && Legal(w, s, c) && !Stale(s)
    ensures Stale(Step(w, s, c).state) <==>
            c.Delete? && s.live && 0 <= c.id < |s.addrs| && s.lid == |s.addrs| - 1
  {
    hide Inv, Safe, SavesRight, CanResume, CanStep, DoStart, DoCont, DoSi, Overlay, Armed;
    LiveRuns(w, s);
    match c
    case Start(init, launch) => StartLid(w, s, init, launch);
    case Cont(n, why) => if s.status.Running? { ContLid(w, s, n, why); }
    case Si(why) => if s.status.Running? { SiLid(w, s, why); }
    case RunProgram(init, launch, n, why) =>
      if s.status.Running? {
        ContLid(w, s, n, why);
      } else if s.status.Loaded? {
        StartLid(w, s, init, launch);
        if DoStart(w, s, init, launch).reply.Done? {
          ContLid(w, DoStart(w, s, init, launch).state, n, why);
        }
      }
    case _ =>
  }

  lemma SiLid(w: World, s: State, why: Cause)
    requires CanStep(w, s, why)
    ensures !Stale(s) ==> !Stale(DoSi(w, s, why).state)
  {
    hide AtStop, ExecOne;
    var o := ExecOne(w.cpu, s.mem, s.m);
    StopValid(w, s, s.m, false);
    if o.Next? { StopValid(w, s, o.next, false); }
    if o.Trap? { StopValid(w, s, o.at, false); }
  }

  lemma StopValid(w: World, s: State, m: Machine, cont: bool)
    ensures !Stale(s) ==> !Stale(AtStop(w, s, m, cont).state)
  {
  }

  lemma StartLid(w: World, s: State, init: Machine, launch: Launch)
    ensures !Stale(s) ==> !Stale(DoStart(w, s, init, launch).state)
  {
    hide AtStop;
    StopValid(w, s.(live := true, mem := w.image), init, false);
    StopFrame(w, s.(live := true, mem := w.image), init, false);
  }

  lemma ContLid(w: World, s: State, n: nat, why: Cause)
    requires CanResume(w, s, n, why)
    ensures !Stale(s) ==> !Stale(DoCont(w, s, n, why).state)
  {
    hide AtStop, Run, ExecOne;
    if s.live {
      var p := Run(w.cpu, s.mem, s.m, n).value;
      var o := ExecOne(w.cpu, s.mem, p);
      StopValid(w, s, p, true);
      if o.Trap? { StopValid(w, s, o.at, true); }
    }
  }

  /** The command gets as far as a stop of the child. */
  predicate ReachesStop(w: World, s: State, c: Command)
    requires Legal(w, s, c)
  {
    match c
    case Start(_, launch) => s.status.Loaded? && launch.Execs?
    case Cont(n, why) => s.status.Running? && s.live && Halts(w, s, n, why)
    case Si(why) => s.status.Running? && s.live && Halts(w, s, 0, why)
    case RunProgram(_, launch, n, why) =>
      || (s.status.Running? && s.live && Halts(w, s, n, why))
      || (s.status.Loaded? && launch.Execs?)
    case _ => false
  }

  predicate Halts(w: World, s: State, n: nat, why: Cause)
    requires Run(w.cpu, s.mem, s.m, n).Some?
  {
    why.BySignal? || (why.Itself? && !ExecOne(w.cpu, s.mem, Run(w.cpu, s.mem, s.m, n).value).Exited?)
  }

  /** The debugger reads outside its table exactly when it is told to delete the entry one past it, or
      comes to a stop while lid names none. */
  lemma UndefinedIff(w: World, s: State, c: Command)
    requires Inv(w, s) && Legal(w, s, c)
    ensures Step(w, s, c).reply.Undefined? <==>
            || (c.Delete? && s.status.Running? && c.id == |s.addrs|)
            || (Stale(s) && ReachesStop(w, s, c))
  {
  }

  // ----- Transparency -----

  /** Where the child is on the run of the unpatched program. run: how many children were started
      before; k: how many instructions this one is past init; exited: it has left there. */
  datatype Track = Track(run: nat, init: Machine, k: nat, exited: bool)

  ghost predicate OnTrack(w: World, s: State, t: Track) {
    && (s.live ==> Run(w.cpu, w.image, t.init, t.k) == Some(s.m))
    && (t.exited ==>
          && Run(w.cpu, w.image, t.init, t.k).Some?
          && ExecOne(w.cpu, w.image, Run(w.cpu, w.image, t.init, t.k).value).Exited?)
  }

  /** u is at t or further along the same run, or on a later one. */
  predicate AtOrAfter(t: Track, u: Track) {
    u.run > t.run || (u.run == t.run && u.init == t.init && u.k >= t.k)
  }

  /** From live s, to r after n more instructions. */
  function Moved(t: Track, n: nat, r: Res): Track {
    if Ends(r.reply) then t
    else Track(t.run, t.init, t.k + n, !r.state.live && r.state.status.Loaded?)
  }

  function Advance(w: World, s: State, c: Command, t: Track): Track
    requires Legal(w, s, c)
  {
    match c
    case Start(init, launch) =>
      if s.status.Loaded? && DoStart(w, s, init, launch).state.live then Track(t.run + 1, init, 0, false) else t
    case Cont(n, why) => if s.status.Running? && s.live then Moved(t, n, DoCont(w, s, n, why)) else t
    case Si(why) =>
      if s.status.Running? && s.live then
        var r := DoSi(w, s, why);
        Moved(t, if why.Itself? && r.state.live then 1 else 0, r)
      else t
    case RunProgram(init, launch, n, why) =>
      if s.status.Running? && s.live then Moved(t, n, DoCont(w, s, n, why))
      else if s.status.Loaded? && DoStart(w, s, init, launch).reply.Done? && DoStart(w, s, init, launch).state.live then
        Moved(Track(t.run + 1, init, 0, false), n, DoCont(w, DoStart(w, s, init, launch).state, n, why))
      else t
    case _ => t
  }

  ghost function AdvanceAll(w: World, s: State, cmds: seq<Command>, t: Track): Track
    requires LegalRun(w, s, cmds)
    decreases |cmds|
  {
    if cmds == [] then t
    else
      var r := Step(w, s, cmds[0]);
      var u := Advance(w, s, cmds[0], t);
      if Ends(r.reply) then u else AdvanceAll(w, r.state, cmds[1..], u)
  }

  /** The conditions of transparency for a resumption: each state passed is orderly; and a stop by
      another signal does not find a breakpoint one byte below rip. */
  ghost predicate HonestResume(w: World, s: State, n: nat, why: Cause) {
    s.live ==>
      && Orderly(w.cpu, s.mem, w.image, s.m, if why.Itself? then n + 1 else n)
      && (why.BySignal? && Run(w.cpu, w.image, s.m, n).Some? ==> Run(w.cpu, w.image, s.m, n).value.rip - 1 !in s.addrs)
  }

  ghost predicate Honest(w: World, s: State, c: Command) {
    match c
    case Cont(n, why) => s.status.Running? ==> HonestResume(w, s, n, why)
    case Si(why) =>
      s.status.Running? && s.live && why.Itself? ==> OrderlyAt(w.cpu, s.mem, w.image, s.m) && !ArmedAt(s.mem, s.m)
    case RunProgram(init, launch, n, why) =>
      && (s.status.Running? ==> HonestResume(w, s, n, why))
      && (s.status.Loaded? ==> HonestResume(w, DoStart(w, s, init, launch).state, n, why))
    case _ => true
  }

  ghost predicate HonestRun(w: World, s: State, cmds: seq<Command>)
    requires LegalRun(w, s, cmds)
    decreases |cmds|
  {
    cmds == [] ||
    (Honest(w, s, cmds[0]) &&
     (Ends(Step(w, s, cmds[0]).reply) || HonestRun(w, Step(w, s, cmds[0]).state, cmds[1..])))
  }

  /** A resumed child stops n instructions further along the native run, rewound onto the
      breakpoint it hit if it hit one; or it exits where the native run does. */
  lemma ContOnTrack(w: World, s: State, n: nat, why: Cause)
    requires Inv(w, s) && s.live && PrefixCode(w.cpu) && CanResume(w, s, n, why) && HonestResume(w, s, n, why)
    requires !Ends(DoCont(w, s, n, why).reply)
    ensures var t := DoCont(w, s, n, why).state;
            && Run(w.cpu, w.image, s.m, n).Some?
            && (t.live ==> Run(w.cpu, w.image, s.m, n) == Some(t.m))
            && (t.live && why.Itself? ==> t.lid >= 0)
            && (t.status.Loaded? ==> ExecOne(w.cpu, w.image, Run(w.cpu, w.image, s.m, n).value).Exited?)
  {
    hide Orderly, PrefixCode, ExecOne, Run, Safe;
    OrderlyFewer(w.cpu, s.mem, w.image, s.m, n);
    PatchedRun(w.cpu, s.mem, w.image, s.m, s.addrs, n);
    var p := Run(w.cpu, s.mem, s.m, n).value;
    if why.Itself? {
      OrderlyThere(w.cpu, s.mem, w.image, s.m, n);
      PatchedStep(w.cpu, s.mem, w.image, p, s.addrs);
      if s.lid < |s.addrs| && ArmedAt(s.mem, p) {
        RestoreRewinds(w, Reset(w, s.(m := p.(rip := p.rip + 1))), p);
      }
    }
  }

  /** So an unsignalled cont is honest if the run from init is on boundaries up to where it goes. */
  lemma BoundariesAreHonest(w: World, s: State, n: nat, t: Track)
    requires Inv(w, s) && s.live && OnTrack(w, s, t)
    requires OnBoundaries(w.cpu, w.image, t.init, s.addrs, t.k + n + 1)
    ensures HonestResume(w, s, n, Itself)
  {
    hide Run, ExecOne, BoundaryAt, OrderlyAt, Safe, Clean;
    assert OnBoundaries(w.cpu, w.image, s.m, s.addrs, n + 1) by {
      forall j: nat | j < n + 1 && Run(w.cpu, w.image, s.m, j).Some?
        ensures BoundaryAt(w.cpu, w.image, s.addrs, Run(w.cpu, w.image, s.m, j).value)
      {
        RunAdd(w.cpu, w.image, t.init, t.k, j);
      }
    }
    OrderlyIff(w.cpu, w.image, s.m, s.addrs, n + 1);
  }

  lemma OrderlyFewer(cpu: Cpu, mem: Mem, image: Mem, m: Machine, n: nat)
    ensures Orderly(cpu, mem, image, m, n + 1) ==> Orderly(cpu, mem, image, m, n)
  {
  }

  lemma OrderlyThere(cpu: Cpu, mem: Mem, image: Mem, m: Machine, n: nat)
    requires Orderly(cpu, mem, image, m, n + 1) && Run(cpu, image, m, n).Some?
    ensures OrderlyAt(cpu, mem, image, Run(cpu, image, m, n).value)
  {
  }

  lemma RestoreRewinds(w: World, s: State, p: Machine)
    requires s.m == p.(rip := p.rip + 1) && p.rip in s.addrs
    ensures Restore(w, s, true).m == p && Restore(w, s, true).lid >= 0
  {
  }

  /** si is one native instruction, if no signal is in its way; rip is then where that one leaves it. */
  lemma SiOnTrack(w: World, s: State, why: Cause)
    requires Inv(w, s) && s.live && PrefixCode(w.cpu) && CanStep(w, s, why)
    requires why.Itself? ==> OrderlyAt(w.cpu, s.mem, w.image, s.m) && !ArmedAt(s.mem, s.m)
    requires !Ends(DoSi(w, s, why).reply)
    ensures var t := DoSi(w, s, why).state;
            && (t.live ==> Run(w.cpu, w.image, s.m, if why.Itself? then 1 else 0) == Some(t.m))
            && (t.status.Loaded? ==> ExecOne(w.cpu, w.image, s.m).Exited?)
  {
    hide OrderlyAt, PrefixCode, ExecOne, Safe;
    assert Run(w.cpu, w.image, s.m, 0) == Some(s.m);
    RunOne(w.cpu, w.image, s.m);
    if why.Itself? {
      PatchedStep(w.cpu, s.mem, w.image, s.m, s.addrs);
    }
  }

  lemma RunOne(cpu: Cpu, mem: Mem, m: Machine)
    ensures Run(cpu, mem, m, 1) ==
            if ExecOne(cpu, mem, m).Next? then Some(ExecOne(cpu, mem, m).next) else None
  {
  }

  lemma ContAdvances(w: World, s: State, n: nat, why: Cause, t: Track)
    requires Inv(w, s) && s.live && PrefixCode(w.cpu) && CanResume(w, s, n, why) && HonestResume(w, s, n, why)
    requires OnTrack(w, s, t)
    ensures !Ends(DoCont(w, s, n, why).reply) ==>
              OnTrack(w, DoCont(w, s, n, why).state, Moved(t, n, DoCont(w, s, n, why)))
  {
    hide Inv, PrefixCode, Run, ExecOne, Orderly, DoCont, CanResume, HonestResume;
    if !Ends(DoCont(w, s, n, why).reply) {
      ContOnTrack(w, s, n, why);
      RunAdd(w.cpu, w.image, t.init, t.k, n);
    }
  }

  lemma SiAdvances(w: World, s: State, why: Cause, t: Track)
    requires Inv(w, s) && s.live && PrefixCode(w.cpu) && Legal(w, s, Si(why)) && Honest(w, s, Si(why)) && OnTrack(w, s, t)
    ensures !Ends(DoSi(w, s, why).reply) ==>
              OnTrack(w, DoSi(w, s, why).state, Advance(w, s, Si(why), t))
  {
    hide PrefixCode, Run, ExecOne, OrderlyAt, DoSi, Safe, Clean;
    if !Ends(DoSi(w, s, why).reply) {
      SiOnTrack(w, s, why);
      RunAdd(w.cpu, w.image, t.init, t.k, 1);
      RunAdd(w.cpu, w.image, t.init, t.k, 0);
    }
  }

  /** One command keeps the child on track, and never moves it back. */
  lemma StepOnTrack(w: World, s: State, c: Command, t: Track)
    requires Inv(w, s) && Legal(w, s, c) && Honest(w, s, c) && PrefixCode(w.cpu) && OnTrack(w, s, t)
    ensures !Ends(Step(w, s, c).reply) ==> OnTrack(w, Step(w, s, c).state, Advance(w, s, c, t))
    ensures AtOrAfter(t, Advance(w, s, c, t))
  {
    hide Inv, PrefixCode, Run, ExecOne, DoStart, DoCont, DoSi, Safe, CanStep, CanResume, HonestResume, OrderlyAt;
    LiveRuns(w, s);
    match c
    case Load(_) =>
    case Start(init, launch) =>
      if s.status.Loaded? { StartOnTrack(w, s, init, launch, t); }
    case Break(_) =>
    case Delete(_) =>
    case Cont(n, why) =>
      if s.live { ContAdvances(w, s, n, why, t); } else if s.status.Running? { NoChild(w, s, n, why); }
    case Si(why) =>
      if s.live { SiAdvances(w, s, why, t); } else if s.status.Running? { NoChildToStep(w, s, why); }
    case RunProgram(init, launch, n, why) =>
      if s.live {
        ContAdvances(w, s, n, why, t);
      } else if s.status.Running? {
        NoChild(w, s, n, why);
      } else if s.status.Loaded? {
        StartKeeps(w, s, init, launch);
        StartOnTrack(w, s, init, launch, t);
        var r := DoStart(w, s, init, launch);
        if r.reply.Done? {
          if r.state.live {
            ContAdvances(w, r.state, n, why, Track(t.run + 1, init, 0, false));
          } else {
            NoChild(w, r.state, n, why);
          }
        }
      }
  }

  lemma LiveRuns(w: World, s: State)
    requires Inv(w, s)
    ensures s.live ==> s.status.Running?
  {
  }

  lemma NoChild(w: World, s: State, n: nat, why: Cause)
    requires !s.live && CanResume(w, s, n, why)
    ensures DoCont(w, s, n, why) == Res(s, Quit)
  {
  }

  lemma NoChildToStep(w: World, s: State, why: Cause)
    requires !s.live && CanStep(w, s, why)
    ensures DoSi(w, s, why) == Res(s, Quit)
  {
  }

  lemma StartOnTrack(w: World, s: State, init: Machine, launch: Launch, t: Track)
    requires !s.live && OnTrack(w, s, t)
    ensures var r := DoStart(w, s, init, launch);
            && (r.state.live ==> r.reply.Done? && OnTrack(w, r.state, Track(t.run + 1, init, 0, false)))
            && (!r.state.live ==> OnTrack(w, r.state, t))
  {
    hide ExecOne;
    StartRuns(w, s, init, launch);
  }

  /** After any session the child, if there is one, is at a state of the run of the unpatched program
      that its last start began, as far along as the instructions its resumptions completed, and never
      further back than before; and a child that has exited has done so where that run does. */
  lemma {:induction false} Transparency(w: World, s: State, cmds: seq<Command>, t: Track)
    requires Inv(w, s) && LegalRun(w, s, cmds) && HonestRun(w, s, cmds) && PrefixCode(w.cpu) && OnTrack(w, s, t)
    ensures !Ends(RunAll(w, s, cmds).reply) ==> OnTrack(w, RunAll(w, s, cmds).state, AdvanceAll(w, s, cmds, t))
    ensures AtOrAfter(t, AdvanceAll(w, s, cmds, t))
    decreases |cmds|
  {
    hide Inv, Step, Legal, Honest, OnTrack, Advance, PrefixCode;
    if cmds != [] {
      StepOnTrack(w, s, cmds[0], t);
      StepKeeps(w, s, cmds[0]);
      if !Ends(Step(w, s, cmds[0]).reply) {
        Transparency(w, Step(w, s, cmds[0]).state, cmds[1..], Advance(w, s, cmds[0], t));
      }
    }
  }
}
