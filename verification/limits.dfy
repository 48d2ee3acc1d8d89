/** Concrete inputs on which the debugger does not do what one might expect of it. The exact
    conditions are proved for all inputs in Patches, Plant, Child, Runs and StopPoints. */
module Limits {
  import opened Words
  import opened Text
  import opened Alternate
  import opened Patches
  import opened Child
  import opened Session
  import Debugger
  import Plant
  import Runs

  const NOP: bv8 := 0x90

  function Nops(n: nat): (image: Mem)
    ensures |image| == n && forall x :: 0 <= x < n ==> image[x] == NOP
  {
    seq(n, x => NOP)
  }

  /** One-byte instructions in a ring of the given size. */
  function Ring(size: int): Cpu {
    Cpu((b: seq<bv8>) => 1, (b: seq<bv8>, m: Machine) => Goto(m.(rip := if m.rip + 1 < size then m.rip + 1 else 0)))
  }

  function At(rip: int): Machine {
    Machine(rip, [], map[])
  }

  function Session0(image: Mem, addrs: seq<int>, lid: int, mem: Mem, rip: int): State {
    State(Running, 0, |image| % TOP, addrs, lid, true, mem, At(rip))
  }

  // ----- The word computations -----

  /** Two breakpoints 7 bytes apart on nops: re-arming the lower one does not arm the higher one. */
  lemma SevenApartMisarms()
    ensures var image := Nops(16);
            var bps := [Breakpoint(0, Peek(image, 0)), Breakpoint(7, Peek(image, 7))];
            Poke(image, 0, AlternateWord(Peek(image, 0), bps, 0, true, true)) !=
            Overlay(image, Armed(image, {0, 7}), 0)
  {
    hide ByteAt, Peek, Poke, AlternateWord, Overlay, Dist;
    var image := Nops(16);
    var bps := [Breakpoint(0, Peek(image, 0)), Breakpoint(7, Peek(image, 7))];
    assert Addrs(bps) == [0, 7];
    assert Elems([0, 7]) == {0, 7};
    RearmIff(image, image, bps, 0);
    assert !ArmsRight(image, [0, 7], 0, 7);
  }

  /** dump takes a breakpoint 2^32 bytes away for one in the word it reads, and shows int3 at address 3,
      where there is a nop and no breakpoint. */
  method DumpShowsFarBreakpoint(d: Debugger.Sdb) returns (rows: seq<Debugger.Row>)
    requires d.Valid() && d.status.Running? && d.live && Mapped(d.mem, 0)
    requires 0x1_0000_0003 in Addrs(d.bps) && 3 !in Addrs(d.bps) && d.mem[3] == NOP
    ensures |rows| == 1 && |rows[0].bytes| == 16 && rows[0].bytes[3] == CC
  {
    hide d.Valid, ArmsRight, Armed;
    var r;
    r, rows := d.Dump(0, 16);
    var half := rows[0].bytes[..8];
    assert Debugger.ShownExactly(true, d.w.image, d.mem, Addrs(d.bps), 0, 0 + 3, half[3]);
    FarHit(Addrs(d.bps));
  }

  lemma FarHit(addrs: seq<int>)
    requires 0x1_0000_0003 in addrs
    ensures HitsAt(addrs, 0, 3)
  {
    var k :| 0 <= k < |addrs| && addrs[k] == 0x1_0000_0003;
    assert Dist(addrs[k], 0) == 3;
  }

  /** Planting in descending order loses the breakpoint three bytes up. */
  lemma DescendingLoses()
    ensures |Plant.PlantAll(Nops(16), Nops(16), [3, 0])| == 16
    ensures Plant.PlantAll(Nops(16), Nops(16), [3, 0])[3] == NOP
  {
  }

  // ----- A session -----

  lemma RingStep(image: Mem, size: int, p: Machine)
    requires 0 <= p.rip < size <= |image| && image[p.rip] != CC
    ensures ExecOne(Ring(size), image, p) == Next(p.(rip := if p.rip + 1 < size then p.rip + 1 else 0))
  {
  }

  lemma {:induction false} RingReaches(mem: Mem, size: int, n: nat)
    requires n < size <= |mem| && forall x :: 0 <= x < n ==> mem[x] != CC
    ensures Run(Ring(size), mem, At(0), n) == Some(At(n))
  {
    hide ExecOne, Ring;
    if n > 0 {
      RingReaches(mem, size, n - 1);
      RingStep(mem, size, At(n - 1));
    }
  }

  function World8(): World {
    World(Ring(8), Nops(16))
  }

  function Fresh(): State {
    State(NotLoaded, 0, 0, [], -1, false, [], At(0))
  }

  function Started(): State {
    State(Running, 0, 16, [], -1, true, Armed(Nops(16), {}), At(0))
  }

  function Broken(): State {
    Started().(addrs := [5], mem := Started().mem[5 := CC])
  }

  function Commands(): seq<Command> {
    [Load(Some(Elf(0, [Section(0, 16)]))), Start(At(0), Execs), Break(5), Cont(5, Itself)]
  }

  /** The conditions of the session theorems can be met together: load, start, break at 5 and cont, from
      the state in which the debugger starts, on a ring of one-byte instructions. The child is then on
      the breakpoint, which is lifted. */
  lemma SessionIsPossible()
    ensures PrefixCode(World8().cpu) && Runs.Initial(Fresh()) && Runs.LegalRun(World8(), Fresh(), Commands())
    ensures Runs.HonestRun(World8(), Fresh(), Commands()) && Runs.KeepsLidAll(World8(), Fresh(), Commands())
    ensures var t := Runs.RunAll(World8(), Fresh(), Commands()).state; t.live && t.m == At(5) && t.lid == 0
  {
    hide Legal, Step, Runs.Honest;
    var w, cmds := World8(), Commands();
    var loaded := Fresh().(status := Loaded, size := 16);
    LoadStep();
    StartStep();
    BreakStep();
    ContStep();
    assert cmds[1..][0] == cmds[1] && cmds[1..][1..][0] == cmds[2] && cmds[1..][1..][1..][0] == cmds[3];
    assert cmds[1..][1..][1..][1..] == [];
    assert Runs.LegalRun(w, Broken(), cmds[1..][1..][1..]);
    assert Runs.LegalRun(w, Started(), cmds[1..][1..]);
    assert Runs.LegalRun(w, loaded, cmds[1..]);
    assert Runs.HonestRun(w, Broken(), cmds[1..][1..][1..]);
    assert Runs.HonestRun(w, Started(), cmds[1..][1..]);
    assert Runs.HonestRun(w, loaded, cmds[1..]);
    assert Runs.KeepsLidAll(w, Broken(), cmds[1..][1..][1..]);
    assert Runs.KeepsLidAll(w, Started(), cmds[1..][1..]);
    assert Runs.KeepsLidAll(w, loaded, cmds[1..]);
  }

  lemma LoadStep()
    ensures var c := Commands()[0];
            Legal(World8(), Fresh(), c) && Runs.Honest(World8(), Fresh(), c)
            && Step(World8(), Fresh(), c) == Res(Fresh().(status := Loaded, size := 16), Done)
  {
  }

  lemma StartStep()
    ensures var c, s := Commands()[1], Fresh().(status := Loaded, size := 16);
            Legal(World8(), s, c) && Runs.Honest(World8(), s, c) && Step(World8(), s, c) == Res(Started(), Done)
  {
    assert Elems([]) == {};
  }

  lemma BreakStep()
    ensures var c := Commands()[2];
            Legal(World8(), Started(), c) && Runs.Honest(World8(), Started(), c)
            && Step(World8(), Started(), c) == Res(Broken(), Done)
  {
    WithinSelf(NOP);
  }

  lemma ContStep()
    ensures var c := Commands()[3];
            Legal(World8(), Broken(), c) && Runs.Honest(World8(), Broken(), c)
            && var r := Step(World8(), Broken(), c);
               r.reply == Done && r.state.live && r.state.m == At(5) && r.state.lid == 0
  {
    hide Run;
    RingReaches(Broken().mem, 8, 5);
    assert IndexOf([5], 5) == 0;
    ContIsHonest();
  }

  lemma ContIsHonest()
    ensures Orderly(Ring(8), Broken().mem, Nops(16), At(0), 6)
  {
    forall j: nat | j < 6
      ensures Run(Ring(8), Nops(16), At(0), j) == Some(At(j)) && OrderlyAt(Ring(8), Broken().mem, Nops(16), At(j))
    {
      RingReaches(Nops(16), 8, j);
      RingStep(Nops(16), 8, At(j));
    }
  }

  // ----- Stops and deletes -----

  /** One breakpoint in a loop, hit once: cont runs round the loop for ever, over the breakpoint. */
  lemma LoopNeverStopsAgain(n: nat)
    ensures var s := Session0(Nops(16), [0], 0, Nops(16), 0);
            ExactStop(World(Ring(2), Nops(16)), s) && !CanResume(World(Ring(2), Nops(16)), s, n, Itself)
    ensures Run(Ring(2), Nops(16), At(0), 2) == Some(At(0))
  {
  }

  /** Breakpoints at 0, 16 and 32, stopped on the one at 16 with index 1; after deleting index 0 the
      next stop re-arms the word at 32 instead, and the breakpoint at 16 is still lifted. */
  lemma DeleteBelowLosesOne()
    ensures var w := World(Ring(48), Nops(48));
            var s := Session0(w.image, [0, 16, 32], 1, Armed(w.image, {0, 32}), 16);
            var t := DoDelete(w, s, 0).state;
            ExactStop(w, s) && t.addrs == [16, 32] && t.lid == 1 &&
            Reset(w, t).lid == -1 && Reset(w, t).mem[16] == NOP
  {
  }

  /** Deleting the only breakpoint while standing on it leaves lid pointing behind the table; at the
      next stop the debugger reads there. */
  lemma DeleteCurrentThenStop(m: Machine, cont: bool)
    ensures var w := World(Ring(48), Nops(48));
            var s := Session0(w.image, [16], 0, w.image, 16);
            var t := DoDelete(w, s, 0).state;
            t.addrs == [] && t.lid == 0 && AtStop(w, t, m, cont).reply == Undefined
  {
  }

  /** A breakpoint on the first instruction, then start, then si: rip is one byte further and no
      instruction has been executed. */
  lemma StartThenSiSkews(first: Machine, later: Machine)
    requires first.rip == 16 && later.rip == 20
    ensures var w := World(Cpu((b: seq<bv8>) => 4, (b: seq<bv8>, m: Machine) => Goto(later)), Nops(48));
            var s := Session0(w.image, [16], -1, w.image, 0).(status := Loaded, live := false);
            var t := DoStart(w, s, first, Execs).state;
            CanStep(w, t, Itself) && DoSi(w, t, Itself).state.m == first.(rip := 17)
            && ExecOne(w.cpu, w.image, first) == Next(later)
  {
  }

  /** Stopped on the breakpoint at 0, one instruction further a signal arrives: rip is moved back onto
      the breakpoint, and the instruction there will be executed a second time. */
  lemma SignalMovesBack()
    ensures var w := World(Ring(8), Nops(16));
            var s := Session0(w.image, [0], 0, w.image, 0);
            && Run(w.cpu, s.mem, s.m, 1) == Some(At(1))
            && CanResume(w, s, 1, BySignal) && DoCont(w, s, 1, BySignal).state.m == At(0)
  {
    assert Run(Ring(8), Nops(16), At(0), 0) == Some(At(0));
  }

  /** A start whose child never executes the program says RUNNING, with success if the child exited, and
      leaves no child; so does a cont during which the child is killed. */
  lemma LostChildSaysRunning(w: World, s: State, init: Machine, launch: Launch)
    requires s.status.Loaded? && !s.live && s.addrs == [] && !launch.Execs?
    ensures var r := DoStart(w, s, init, launch);
            r.reply == (if launch.ExitsAtOnce? then Done else BadWait) && Runs.Lost(r.state)
    ensures CanResume(World8(), Started(), 0, Killed) && Runs.Lost(DoCont(World8(), Started(), 0, Killed).state)
  {
  }

  /** A breakpoint on the second byte of an instruction changes what the instruction does. */
  lemma InsideInstructionCorrupts()
    ensures var cpu := Cpu((b: seq<bv8>) => 2, (b: seq<bv8>, m: Machine) => Goto(At(if b == [NOP, NOP] then 2 else 7)));
            var image := Nops(16);
            ExecOne(cpu, image, At(0)) == Next(At(2)) && ExecOne(cpu, image[1 := CC], At(0)) == Next(At(7))
  {
    var image := Nops(16);
    assert Fetch(image, 0)[..2] == [NOP, NOP];
    assert Fetch(image[1 := CC], 0)[1] == CC;
  }
}
