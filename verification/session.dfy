/** What each debugger command does to the debugger and to its child, told with addresses and bytes
    only: no saved words, no bit operations, no loops. Class Sdb is proved to do exactly this. */
module Session {
  import opened Words
  import opened Text
  import opened Alternate
  import opened Patches
  import opened Child

  const TOP := 0x1_0000_0000_0000_0000

  type Addr = a: int | 0 <= a < TOP

  /** The processor, and the text that every start of the program maps. */
  datatype World = World(cpu: Cpu, image: Mem)

  datatype Status = NotLoaded | Loaded | Running

  /** BadWait: ERR_BADWAIT. Quit: the debugger has exited (errquit). Undefined: it has read an entry
      outside its table, after which nothing can be said. */
  datatype Reply = Done | WrongStatus | BadBreakpoint | NoFile | BadWait | Quit | Undefined

  datatype Section = Section(addr: Addr, size: Addr)

  datatype Elf = Elf(entry: Addr, sections: seq<Section>)

  /** lid: index of the breakpoint lifted at the last stop, or -1. live: the child exists.
      mem, m: text and machine state of the child, meaningful while it is live. */
  datatype State = State(status: Status, entry: Addr, size: Addr, addrs: seq<int>, lid: int,
                         live: bool, mem: Mem, m: Machine)

  /** Why a wait for the running child ends: the child trapped or exited, a signal of another kind
      stopped it, or one killed it. */
  datatype Cause = Itself | BySignal | Killed

  /** What becomes of a new child before its first stop. */
  datatype Launch = Execs | ExitsAtOnce | KilledAtOnce

  /** init: the state in which the kernel starts the child. n: how many instructions the child
      completes before the wait ends. */
  datatype Command =
    | Load(file: Option<Elf>)
    | Start(init: Machine, launch: Launch)
    | Break(addr: Addr)
    | Delete(id: int)
    | Cont(n: nat, why: Cause)
    | Si(why: Cause)
    | RunProgram(init: Machine, launch: Launch, n: nat, why: Cause)

  datatype Res = Res(state: State, reply: Reply)

  /** The section that starts at the entry point, the first one if there are several. */
  function FindText(entry: Addr, sections: seq<Section>): (r: Option<Section>)
    ensures r.Some? ==> r.value.addr == entry && r.value in sections
    ensures r.None? ==> forall t :: t in sections ==> t.addr != entry
  {
    if sections == [] then None
    else if sections[0].addr == entry then Some(sections[0])
    else FindText(entry, sections[1..])
  }

  /** `entrypoint + textsize - 1` in unsigned 64-bit arithmetic. */
  function LastByte(entry: Addr, size: Addr): Addr {
    (entry + size - 1) % TOP
  }

  predicate InText(s: State, a: int) {
    s.entry <= a <= LastByte(s.entry, s.size)
  }

  /** The addresses that break accepts: those of the text section; none, if the section is empty and
      does not start at 0, or reaches past the top of the address space; and every address in the case
      of entry point 0 and size 0, which is what load leaves when it finds no text section. */
  lemma TextRange(s: State, a: Addr)
    ensures s.entry + s.size <= TOP && s.size > 0 ==> (InText(s, a) <==> s.entry <= a < s.entry + s.size)
    ensures s.entry + s.size > TOP ==> !InText(s, a)
    ensures s.size == 0 ==> (InText(s, a) <==> s.entry == 0)
  {
  }

  /** First index of x, or -1. */
  function IndexOf(addrs: seq<int>, x: int): (r: int)
    ensures -1 <= r < |addrs|
    ensures r >= 0 ==> addrs[r] == x && x !in addrs[..r]
    ensures r < 0 ==> x !in addrs
  {
    if addrs == [] then -1
    else if addrs[0] == x then 0
    else
      var r := IndexOf(addrs[1..], x);
      if r < 0 then -1 else r + 1
  }

  /** Put int3 back on the breakpoints of the word lifted last. */
  function Reset(w: World, s: State): State
    requires s.lid < |s.addrs|
  {
    if s.lid < 0 then s
    else s.(mem := Overlay(s.mem, Armed(w.image, Elems(s.addrs)), s.addrs[s.lid]), lid := -1)
  }

  /** If the child stands on a breakpoint (after a run: one byte behind it), move rip onto it and
      give its whole word the original bytes. (At rip 0 the unsigned rip - 1 of the code is the top
      address, where no whole word is mapped and so no breakpoint sits.) */
  function Restore(w: World, s: State, cont: bool): State {
    var rid := IndexOf(s.addrs, s.m.rip - if cont then 1 else 0);
    if rid < 0 then s
    else s.(m := s.m.(rip := s.addrs[rid]), mem := Overlay(s.mem, w.image, s.addrs[rid]), lid := rid)
  }

  /** After a stop of the child in machine state m. resetbreak reads the entry that lid names. */
  function AtStop(w: World, s: State, m: Machine, cont: bool): Res {
    if s.lid >= |s.addrs| then Res(s, Undefined)
    else Res(Restore(w, Reset(w, s.(m := m)), cont), Done)
  }

  function AtExit(s: State): State {
    s.(status := Loaded, live := false)
  }

  predicate CanResume(w: World, s: State, n: nat, why: Cause) {
    s.live ==> Run(w.cpu, s.mem, s.m, n).Some? && (why.Itself? ==> Stops(w.cpu, s.mem, s.m, n))
  }

  /** Without a child there is nothing to wait for. */
  function DoCont(w: World, s: State, n: nat, why: Cause): Res
    requires CanResume(w, s, n, why)
  {
    if !s.live then Res(s, Quit)
    else
      var p := Run(w.cpu, s.mem, s.m, n).value;
      match why
      case Killed => Res(s.(live := false), BadWait)
      case BySignal => AtStop(w, s, p, true)
      case Itself =>
        var o := ExecOne(w.cpu, s.mem, p);
        if o.Exited? then Res(AtExit(s), Done) else AtStop(w, s, o.at, true)
  }

  predicate CanStep(w: World, s: State, why: Cause) {
    s.live && why.Itself? ==> !ExecOne(w.cpu, s.mem, s.m).Fault?
  }

  /** A signal of another kind stops the child before the instruction. */
  function DoSi(w: World, s: State, why: Cause): Res
    requires CanStep(w, s, why)
  {
    if !s.live then Res(s, Quit)
    else
      match why
      case Killed => Res(s.(live := false), BadWait)
      case BySignal => AtStop(w, s, s.m, false)
      case Itself =>
        var o := ExecOne(w.cpu, s.mem, s.m);
        if o.Exited? then Res(AtExit(s), Done) else AtStop(w, s, if o.Next? then o.next else o.at, false)
  }

  /** If the child does not live to be stopped, the first poke of setallbreak fails; with an empty
      table there is none, and the status says RUNNING without a child. */
  function DoStart(w: World, s: State, init: Machine, launch: Launch): Res {
    if launch.Execs? then
      var r := AtStop(w, s.(live := true, mem := w.image), init, false);
      if r.reply.Undefined? then Res(s, Undefined)
      else Res(r.state.(mem := Armed(w.image, Elems(s.addrs)), status := Running), Done)
    else if s.addrs != [] then Res(s, Quit)
    else Res(s.(status := Running), if launch.ExitsAtOnce? then Done else BadWait)
  }

  function DoBreak(w: World, s: State, a: Addr): Res {
    if !InText(s, a) || a in s.addrs then Res(s, BadBreakpoint)
    else if !s.live || !Mapped(s.mem, a) then Res(s, Quit)
    else Res(s.(mem := s.mem[a := CC], addrs := s.addrs + [a]), Done)
  }

  /** The test of the code lets the index one past the table through. */
  function DoDelete(w: World, s: State, id: int): Res {
    if id == |s.addrs| then Res(s, Undefined)
    else if !(0 <= id < |s.addrs|) then Res(s, BadBreakpoint)
    else if !s.live then Res(s, Quit)
    else
      var a := s.addrs[id];
      Res(s.(mem := Overlay(s.mem, Armed(w.image, Elems(s.addrs) - {a}), a),
             addrs := s.addrs[..id] + s.addrs[id + 1..]), Done)
  }

  function DoLoad(s: State, file: Option<Elf>): Res {
    if file.None? then Res(s, NoFile)
    else
      match FindText(file.value.entry, file.value.sections)
      case None => Res(s.(status := Loaded), Done)
      case Some(t) => Res(s.(status := Loaded, entry := t.addr, size := t.size), Done)
  }

  /** run: start if there is no child yet, and go on unless that failed. */
  predicate CanRun(w: World, s: State, init: Machine, launch: Launch, n: nat, why: Cause) {
    && (s.status.Running? ==> CanResume(w, s, n, why))
    && (s.status.Loaded? && DoStart(w, s, init, launch).reply.Done? ==>
          CanResume(w, DoStart(w, s, init, launch).state, n, why))
  }

  function DoRun(w: World, s: State, init: Machine, launch: Launch, n: nat, why: Cause): Res
    requires CanRun(w, s, init, launch, n, why)
  {
    match s.status
    case NotLoaded => Res(s, WrongStatus)
    case Running => DoCont(w, s, n, why)
    case Loaded =>
      var r := DoStart(w, s, init, launch);
      if r.reply.Done? then DoCont(w, r.state, n, why) else r
  }

  /** What is asked of a command: a new breakpoint must be one the word computations handle, now and
      after any deletes; and n is the number of instructions the child does complete. */
  ghost predicate Legal(w: World, s: State, c: Command) {
    match c
    case Load(_) => true
    case Start(_, _) => true
    case Break(a) =>
      s.status.Running? && DoBreak(w, s, a).reply.Done? ==>
        Safe(w.image, s.addrs + [a]) && forall i: nat :: i < 8 ==> SavesRight(s.mem, w.image, s.addrs, a, i)
    case Delete(_) => true
    case Cont(n, why) => s.status.Running? ==> CanResume(w, s, n, why)
    case Si(why) => s.status.Running? ==> CanStep(w, s, why)
    case RunProgram(init, launch, n, why) => CanRun(w, s, init, launch, n, why)
  }

  ghost function Step(w: World, s: State, c: Command): Res
    requires Legal(w, s, c)
  {
    match c
    case Load(file) => if s.status.NotLoaded? then DoLoad(s, file) else Res(s, WrongStatus)
    case Start(init, launch) => if s.status.Loaded? then DoStart(w, s, init, launch) else Res(s, WrongStatus)
    case Break(a) => if s.status.Running? then DoBreak(w, s, a) else Res(s, WrongStatus)
    case Delete(id) => if s.status.Running? then DoDelete(w, s, id) else Res(s, WrongStatus)
    case Cont(n, why) => if s.status.Running? then DoCont(w, s, n, why) else Res(s, WrongStatus)
    case Si(why) => if s.status.Running? then DoSi(w, s, why) else Res(s, WrongStatus)
    case RunProgram(init, launch, n, why) => DoRun(w, s, init, launch, n, why)
  }

  // ----- What every command keeps -----

  /** The breakpoint table: safe, inside the text section, every word mapped. */
  ghost predicate TableOk(w: World, s: State) {
    && Safe(w.image, s.addrs)
    && forall k :: 0 <= k < |s.addrs| ==> InText(s, s.addrs[k]) && Mapped(w.image, s.addrs[k])
  }

  ghost predicate Inv(w: World, s: State) {
    && TableOk(w, s)
    && -1 <= s.lid
    && (s.live ==> s.status.Running?)
    && (s.status.NotLoaded? ==> s.addrs == [] && s.lid == -1)
    && (s.live ==> Clean(s.mem, w.image, s.addrs))
  }

  /** lid names a breakpoint, and every breakpoint outside the word lifted there is armed. */
  ghost predicate Tight(s: State) {
    && s.lid < |s.addrs|
    && (s.live ==> forall k :: 0 <= k < |s.addrs| ==> Unlifted(s, s.addrs[k]) ==> IsCC(s.mem, s.addrs[k]))
  }

  predicate Unlifted(s: State, a: int) {
    0 <= s.lid < |s.addrs| ==> !InWindow(s.addrs[s.lid], a)
  }

  predicate IsCC(mem: Mem, a: int) {
    0 <= a < |mem| && mem[a] == CC
  }

  /** The memory that a stop leaves: everything armed but the word of the breakpoint stood upon. */
  ghost predicate ExactStop(w: World, s: State) {
    && s.lid < |s.addrs|
    && s.mem == Armed(w.image, set a | a in s.addrs && Unlifted(s, a))
    && (s.lid >= 0 ==> s.m.rip == s.addrs[s.lid])
  }

  lemma RemoveSafe(image: Mem, addrs: seq<int>, id: nat)
    requires Safe(image, addrs) && id < |addrs|
    ensures Safe(image, addrs[..id] + addrs[id + 1..])
    ensures Elems(addrs[..id] + addrs[id + 1..]) == Elems(addrs) - {addrs[id]}
  {
    hide PairSafe;
    var rest := addrs[..id] + addrs[id + 1..];
    assert forall k :: 0 <= k < |rest| ==> rest[k] == addrs[if k < id then k else k + 1];
    SafeSub(image, addrs, rest);
  }

  /** In a text of at most 2 GiB, the breakpoints that break may be given: those for which a
      breakpoint 7 bytes above has an original byte within int3 and, if it is armed, one that has all
      bits of int3 too; and that have an original byte within int3 if there is one 7 bytes below. */
  lemma BreakLegalIff(w: World, s: State, a: Addr)
    requires Inv(w, s) && s.status.Running? && DoBreak(w, s, a).reply.Done?
    requires s.entry + s.size <= TOP && 0 < s.size <= 0x8000_0000
    ensures Legal(w, s, Break(a)) <==>
            && (a + 7 in s.addrs ==> Within(w.image[a + 7], CC) && Within(s.mem[a + 7], w.image[a + 7]))
            && (a - 7 in s.addrs ==> Within(w.image[a], CC))
  {
    hide Within, NothingNew, Dist;
    forall b | b == a || b in s.addrs
      ensures s.entry <= b < s.entry + s.size && Mapped(w.image, b)
    {
      TextRange(s, b);
    }
    NearSafeIff(w.image, s.addrs, a);
    NearSavesIff(s.mem, w.image, s.addrs, a);
  }

  /** Among addresses in reach of each other a distance is what it seems. */
  ghost predicate Near(addrs: seq<int>, a: int) {
    forall b :: b in addrs ==> -0x8000_0000 < b - a < 0x8000_0000
  }

  lemma NearPair(image: Mem, a: int, b: int)
    requires -0x8000_0000 < b - a < 0x8000_0000
    ensures PairSafe(image, a, b) <==> (b == a + 7 ==> Within(Read(image, b), CC))
  {
    hide Within, NothingNew, Read;
    DistNear(b, a);
  }

  lemma NearSafeIff(image: Mem, addrs: seq<int>, a: int)
    requires Safe(image, addrs) && a !in addrs && Near(addrs, a)
    ensures Safe(image, addrs + [a]) <==>
            && (a + 7 in addrs ==> Within(Read(image, a + 7), CC))
            && (a - 7 in addrs ==> Within(Read(image, a), CC))
  {
    hide PairSafe, Within, Read;
    var all := addrs + [a];
    NearPair(image, a, a);
    forall b | b in addrs
      ensures PairSafe(image, a, b) <==> (b == a + 7 ==> Within(Read(image, b), CC))
      ensures PairSafe(image, b, a) <==> (b == a - 7 ==> Within(Read(image, a), CC))
    {
      NearPair(image, a, b);
      NearPair(image, b, a);
    }
    if Safe(image, all) {
      assert all[|addrs|] == a;
      forall b | b in addrs
        ensures PairSafe(image, a, b) && PairSafe(image, b, a)
      {
        SafePair(image, all, a, b);
        SafePair(image, all, b, a);
      }
    }
  }

  lemma NearSavesIff(mem: Mem, image: Mem, addrs: seq<int>, a: int)
    requires Clean(mem, image, addrs) && Mapped(mem, a) && Near(addrs, a)
    ensures (forall i: nat :: i < 8 ==> SavesRight(mem, image, addrs, a, i)) <==>
            (a + 7 in addrs ==> Within(mem[a + 7], image[a + 7]))
  {
    hide Within, Dist;
    forall k | 0 <= k < |addrs|
      ensures Dist(addrs[k], a) == addrs[k] - a
    {
      assert addrs[k] in addrs;
      DistNear(addrs[k], a);
    }
    WithinSelf(image[a + 7]);
    assert SavesRight(mem, image, addrs, a, 7) <==> (a + 7 in addrs ==> Within(mem[a + 7], image[a + 7]));
  }

  /** resetbreak brings a tight state to fully armed memory. */
  lemma ResetArmsAll(w: World, s: State)
    requires TableOk(w, s) && s.lid < |s.addrs| && Clean(s.mem, w.image, s.addrs)
    ensures Clean(Reset(w, s).mem, w.image, s.addrs)
    ensures s.live && Tight(s) ==> Reset(w, s).mem == Armed(w.image, Elems(s.addrs))
  {
  }

  /** restoreifbreak after resetbreak: from fully armed memory it leaves the exact stop memory. */
  lemma RestoreExact(w: World, s: State, cont: bool)
    requires TableOk(w, s) && s.lid == -1 && Clean(s.mem, w.image, s.addrs)
    ensures var t := Restore(w, s, cont);
            && Clean(t.mem, w.image, s.addrs) && -1 <= t.lid < |t.addrs|
            && (s.mem == Armed(w.image, Elems(s.addrs)) ==> t.mem == Armed(w.image, set a | a in t.addrs && Unlifted(t, a)))
            && (t.lid >= 0 ==> t.m.rip == t.addrs[t.lid])
  {
  }

  /** A stop changes nothing but memory, lid and the machine state. */
  lemma StopFrame(w: World, s: State, m: Machine, cont: bool)
    ensures AtStop(w, s, m, cont).state.(lid := s.lid, mem := s.mem, m := s.m) == s
    ensures AtStop(w, s, m, cont).reply == if s.lid >= |s.addrs| then Undefined else Done
  {
  }

  lemma StopKeeps(w: World, s: State, m: Machine, cont: bool)
    requires TableOk(w, s) && -1 <= s.lid && Clean(s.mem, w.image, s.addrs)
    ensures var t := AtStop(w, s, m, cont).state;
            && TableOk(w, t) && Clean(t.mem, w.image, t.addrs) && -1 <= t.lid
            && (s.live && Tight(s) ==> ExactStop(w, t))
  {
    hide Safe, Clean, Armed, Overlay;
    StopFrame(w, s, m, cont);
    if s.lid < |s.addrs| {
      var r := s.(m := m);
      ResetArmsAll(w, r);
      RestoreExact(w, Reset(w, r), cont);
    }
  }

  lemma ExactIsTight(w: World, s: State)
    requires TableOk(w, s) && ExactStop(w, s)
    ensures Tight(s)
  {
  }

  lemma BreakKeeps(w: World, s: State, a: Addr)
    requires Inv(w, s) && s.status.Running? && Legal(w, s, Break(a))
    ensures Inv(w, DoBreak(w, s, a).state)
    ensures Tight(s) ==> Tight(DoBreak(w, s, a).state)
  {
    hide Safe;
    var t := DoBreak(w, s, a).state;
    if DoBreak(w, s, a).reply.Done? {
      forall k | 0 <= k < |t.addrs|
        ensures InText(t, t.addrs[k]) && Mapped(w.image, t.addrs[k])
      {
        assert k < |s.addrs| ==> t.addrs[k] == s.addrs[k];
      }
      if Tight(s) {
        forall k | 0 <= k < |t.addrs| && Unlifted(t, t.addrs[k])
          ensures IsCC(t.mem, t.addrs[k])
        {
          assert k < |s.addrs| ==> t.addrs[k] == s.addrs[k] && Unlifted(s, s.addrs[k]);
        }
      }
    }
  }

  lemma DeleteKeeps(w: World, s: State, id: int)
    requires Inv(w, s) && s.status.Running?
    ensures Inv(w, DoDelete(w, s, id).state)
    ensures Tight(s) && id > s.lid ==> Tight(DoDelete(w, s, id).state)
  {
    hide Safe;
    if 0 <= id < |s.addrs| && s.live {
      RemoveSafe(w.image, s.addrs, id);
      DeleteClean(w, s, id);
      if Tight(s) && id > s.lid {
        DeleteTight(w, s, id);
      }
    }
  }

  /** delete refuses, deletes, or reads outside its table, by the index alone. */
  lemma DeleteReplies(w: World, s: State, id: int)
    requires s.live
    ensures DoDelete(w, s, id).reply.BadBreakpoint? <==> id < 0 || id > |s.addrs|
    ensures DoDelete(w, s, id).reply.Done? <==> 0 <= id < |s.addrs|
    ensures DoDelete(w, s, id).reply.Undefined? <==> id == |s.addrs|
  {
  }

  lemma DeleteTight(w: World, s: State, id: nat)
    requires TableOk(w, s) && s.live && id < |s.addrs| && Clean(s.mem, w.image, s.addrs)
    requires -1 <= s.lid < id && Tight(s)
    ensures Tight(DoDelete(w, s, id).state)
  {
    hide PairSafe;
  }

  lemma DeleteClean(w: World, s: State, id: nat)
    requires TableOk(w, s) && s.live && id < |s.addrs| && Clean(s.mem, w.image, s.addrs)
    ensures var t := DoDelete(w, s, id).state; Clean(t.mem, w.image, t.addrs)
  {
    hide PairSafe;
  }

  lemma ArmedIsClean(image: Mem, addrs: seq<int>)
    ensures Clean(Armed(image, Elems(addrs)), image, addrs)
    ensures forall k :: 0 <= k < |addrs| && Mapped(image, addrs[k]) ==> IsCC(Armed(image, Elems(addrs)), addrs[k])
  {
  }

  lemma StartKeeps(w: World, s: State, init: Machine, launch: Launch)
    requires Inv(w, s) && s.status.Loaded?
    ensures var t := DoStart(w, s, init, launch).state; Inv(w, t) && (Tight(s) ==> Tight(t))
    ensures Tight(s) ==> !DoStart(w, s, init, launch).reply.Undefined?
  {
    hide Safe, Clean, Armed, AtStop;
    var forked := s.(live := true, mem := w.image);
    ImageIsClean(w.image, s.addrs);
    StopFrame(w, forked, init, false);
    StopKeeps(w, forked, init, false);
    StopLid(w, forked, init, false);
    ArmedIsClean(w.image, s.addrs);
  }

  lemma StopLid(w: World, s: State, m: Machine, cont: bool)
    ensures s.lid < |s.addrs| ==> AtStop(w, s, m, cont).state.lid < |s.addrs|
  {
  }

  lemma ImageIsClean(image: Mem, addrs: seq<int>)
    ensures Clean(image, image, addrs)
  {
  }

  lemma ContKeeps(w: World, s: State, n: nat, why: Cause)
    requires Inv(w, s) && s.status.Running? && CanResume(w, s, n, why)
    ensures var r := DoCont(w, s, n, why);
            && Inv(w, r.state)
            && (Tight(s) ==> Tight(r.state) && !r.reply.Undefined? && (r.reply.Done? && r.state.live ==> ExactStop(w, r.state)))
  {
    hide Run, ExecOne, Safe, Clean, AtStop, ExactStop;
    if s.live {
      var p := Run(w.cpu, s.mem, s.m, n).value;
      var o := ExecOne(w.cpu, s.mem, p);
      if why.BySignal? {
        StopIsKept(w, s, p, true);
      } else if why.Itself? && !o.Exited? {
        StopIsKept(w, s, o.at, true);
      }
    }
  }

  lemma StopIsKept(w: World, s: State, m: Machine, cont: bool)
    requires Inv(w, s) && s.live
    ensures var r := AtStop(w, s, m, cont);
            && Inv(w, r.state) && (Tight(s) ==> Tight(r.state) && !r.reply.Undefined? && ExactStop(w, r.state))
  {
    hide Safe, Clean, AtStop;
    StopFrame(w, s, m, cont);
    StopKeeps(w, s, m, cont);
    if Tight(s) {
      ExactIsTight(w, AtStop(w, s, m, cont).state);
    }
  }

  lemma SiKeeps(w: World, s: State, why: Cause)
    requires Inv(w, s) && s.status.Running? && CanStep(w, s, why)
    ensures var r := DoSi(w, s, why);
            && Inv(w, r.state)
            && (Tight(s) ==> Tight(r.state) && !r.reply.Undefined? && (r.reply.Done? && r.state.live ==> ExactStop(w, r.state)))
  {
    hide ExecOne, Safe, Clean, AtStop, ExactStop;
    if s.live {
      var o := ExecOne(w.cpu, s.mem, s.m);
      if why.BySignal? {
        StopIsKept(w, s, s.m, false);
      } else if why.Itself? && !o.Exited? {
        StopIsKept(w, s, if o.Next? then o.next else o.at, false);
      }
    }
  }

  /** Does this delete stay inside the table and keep lid pointing at the breakpoint that is lifted? */
  predicate KeepsLid(s: State, c: Command) {
    c.Delete? && s.status.Running? ==> c.id != |s.addrs| && (0 <= c.id < |s.addrs| ==> c.id > s.lid)
  }

  /** Every command keeps the invariant, whatever the order; and every command but a delete of an
      index up to lid, or one past the table, keeps all breakpoints armed outside the lifted word and
      reads nothing outside the table. */
  lemma StepKeeps(w: World, s: State, c: Command)
    requires Inv(w, s) && Legal(w, s, c)
    ensures Inv(w, Step(w, s, c).state)
    ensures Tight(s) && KeepsLid(s, c) ==> Tight(Step(w, s, c).state) && !Step(w, s, c).reply.Undefined?
  {
    hide Inv, Tight, Safe, DoStart, DoCont, DoSi, CanResume, CanStep;
    match c
    case Load(file) => LoadKeeps(w, s, file);
    case Start(init, launch) => if s.status.Loaded? { StartKeeps(w, s, init, launch); }
    case Break(a) => if s.status.Running? { BreakKeeps(w, s, a); }
    case Delete(id) => if s.status.Running? { DeleteKeeps(w, s, id); }
    case Cont(n, why) => if s.status.Running? { ContKeeps(w, s, n, why); }
    case Si(why) => if s.status.Running? { SiKeeps(w, s, why); }
    case RunProgram(init, launch, n, why) => RunProgramKeeps(w, s, init, launch, n, why);
  }

  lemma RunProgramKeeps(w: World, s: State, init: Machine, launch: Launch, n: nat, why: Cause)
    requires Inv(w, s) && CanRun(w, s, init, launch, n, why)
    ensures var r := DoRun(w, s, init, launch, n, why);
            && Inv(w, r.state)
            && (Tight(s) ==> Tight(r.state) && !r.reply.Undefined? && (r.reply.Done? && r.state.live ==> ExactStop(w, r.state)))
  {
    hide Inv, Tight, DoStart, DoCont, CanResume, ExactStop;
    if s.status.Running? {
      ContKeeps(w, s, n, why);
    } else if s.status.Loaded? {
      StartKeeps(w, s, init, launch);
      StartRuns(w, s, init, launch);
      if DoStart(w, s, init, launch).reply.Done? {
        ContKeeps(w, DoStart(w, s, init, launch).state, n, why);
      }
    }
  }

  lemma StartRuns(w: World, s: State, init: Machine, launch: Launch)
    ensures var r := DoStart(w, s, init, launch);
            && r.state.addrs == s.addrs
            && (r.reply.Done? ==> r.state.status.Running?)
            && (r.reply.Done? && launch.Execs? ==>
                  r.state.live && r.state.m == init && r.state.mem == Armed(w.image, Elems(s.addrs)))
            && (!launch.Execs? || !r.reply.Done? ==> r.state.live == s.live)
  {
  }

  lemma LoadKeeps(w: World, s: State, file: Option<Elf>)
    requires Inv(w, s)
    ensures s.status.NotLoaded? ==> Inv(w, DoLoad(s, file).state)
    ensures s.status.NotLoaded? && Tight(s) ==> Tight(DoLoad(s, file).state)
    ensures !DoLoad(s, file).reply.Undefined?
  {
  }
}
