/** The debugger: its configuration, the ptrace requests it makes, and its command handlers. Every
    handler does exactly what Session says, by whole-word peeks and pokes and saved words. */
module Debugger {
  import opened Words
  import opened Text
  import opened Alternate
  import opened Patches
  import opened Plant
  import opened Child
  import opened Session
  import Runs

  /** One printed line of dump: the address of its first byte, sixteen bytes, and their characters. */
  datatype Row = Row(addr: int, bytes: seq<bv8>, ascii: seq<bv8>)

  function WordBytes(w: bv64): seq<bv8> {
    seq(8, i requires 0 <= i < 8 => ByteAt(w, i))
  }

  /** What isprint lets through, or a dot. */
  function Printable(b: bv8): (r: bv8)
    ensures 0x20 <= r <= 0x7e && (r == b || (r == 0x2e && !(0x20 <= b <= 0x7e)))
  {
    if 0x20 <= b <= 0x7e then b else 0x2e
  }

  function Chars(bytes: seq<bv8>): seq<bv8> {
    seq(|bytes|, i requires 0 <= i < |bytes| => Printable(bytes[i]))
  }

  /** Byte i of what dump and disasm show for the word at l: int3 lands on it if some entry is taken to
      sit there; a word that cannot be read counts as all ones. */
  function ShownByte(readable: bool, mem: Mem, addrs: seq<int>, l: int, i: nat): (r: bv8)
    ensures !(readable && Mapped(mem, l)) ==> r == if HitsAt(addrs, l, i) && i < 7 then 0xcc else 0xff
  {
    var before := if readable && Mapped(mem, l) then Read(mem, l + i) else 0xff;
    if HitsAt(addrs, l, i) then Landed(before, CC, i) else before
  }

  /** What is shown at x. In a word that can be read it is the byte of the fully armed text exactly when
      that byte is armed right. */
  ghost predicate ShownExactly(readable: bool, image: Mem, mem: Mem, addrs: seq<int>, l: int, x: int, shown: bv8) {
    InWindow(l, x) ==>
      && shown == ShownByte(readable, mem, addrs, l, x - l)
      && (readable && Mapped(mem, l) && |mem| == |image| ==>
            (shown == Armed(image, Elems(addrs))[x] <==> ArmsRight(mem, addrs, l, x - l)))
  }

  /** What waitpid reports. */
  datatype Event = Gone | Stopped | Dead

  class Sdb {
    const w: World
    var status: Status
    var entrypoint: Addr
    var textsize: Addr
    var bps: seq<Breakpoint>
    var lid: int          // last breakpoint restored, -1 if none
    var live: bool        // is there a child?
    var mem: Mem          // text of the child
    var m: Machine        // registers and data of the child

    ghost function View(): State
      reads this
    {
      State(status, entrypoint, textsize, Addrs(bps), lid, live, mem, m)
    }

    ghost predicate Valid()
      reads this
    {
      Inv(w, View()) && Pristine(bps, w.image)
    }

    /** What the handlers of a stop rely on. */
    ghost predicate Patchable()
      reads this
    {
      && live && TableOk(w, View()) && Pristine(bps, w.image)
      && Clean(mem, w.image, Addrs(bps)) && -1 <= lid < |bps|
    }

    constructor (world: World, machine: Machine)
      ensures w == world && Valid() && View() == State(NotLoaded, 0, 0, [], -1, false, [], machine)
    {
      w := world;
      status, entrypoint, textsize := NotLoaded, 0, 0;
      bps, lid, live, mem, m := [], -1, false, [], machine;
    }

    lemma LiveFacts()
      requires Valid()
      ensures live ==> status.Running? && |mem| == |w.image|
    {
    }

    // ----- ptrace -----

    /** PTRACE_PEEKTEXT; its error value -1 is not told apart from a word. */
    method PeekText(a: int) returns (r: bv64)
      ensures r == if live && Mapped(mem, a) then Peek(mem, a) else 0xffff_ffff_ffff_ffff
    {
      r := if live && Mapped(mem, a) then Peek(mem, a) else 0xffff_ffff_ffff_ffff;
    }

    /** PTRACE_POKETEXT; it fails without a child, or where there is no whole word. */
    method PokeText(a: int, word: bv64) returns (ok: bool)
      modifies `mem
      ensures ok == (live && Mapped(old(mem), a))
      ensures mem == if ok then Poke(old(mem), a, word) else old(mem)
    {
      ok := live && Mapped(mem, a);
      if ok {
        mem := Poke(mem, a, word);
      }
    }

    // ----- Handling a stop -----

    method ResetBreak()
      requires Patchable()
      modifies `mem, `lid
      ensures View() == Reset(w, old(View()))
      ensures Patchable() && lid == -1
    {
      hide Peek, Poke, AlternateWord, TableOk, Clean, Overlay, Armed, Pristine;
      if lid < 0 {
        return;
      }
      RearmFacts(View(), bps);
      var resetCode := bps[lid].code;
      var lladdr := bps[lid].addr;
      resetCode := AlternateLoop(resetCode, bps, lladdr, true, true);
      var ok := PokeText(lladdr, resetCode);
      assert ok;
      lid := -1;
    }

    lemma RearmFacts(s: State, table: seq<Breakpoint>)
      requires TableOk(w, s) && 0 <= s.lid < |table| && Clean(s.mem, w.image, s.addrs)
      requires Pristine(table, w.image) && s.addrs == Addrs(table)
      ensures var b := table[s.lid];
              && Mapped(s.mem, b.addr) && s.addrs[s.lid] == b.addr
              && Poke(s.mem, b.addr, AlternateWord(b.code, table, b.addr, true, true)) == Reset(w, s).mem
      ensures Clean(Reset(w, s).mem, w.image, s.addrs) && TableOk(w, Reset(w, s))
    {
      hide Peek, Poke, AlternateWord, Safe, ArmsRight;
      var b := table[s.lid];
      forall i: nat | i < 8
        ensures ArmsRight(w.image, s.addrs, b.addr, i)
      {
        SafeArms(w.image, s.addrs, b.addr, i);
      }
      RearmIff(s.mem, w.image, table, b.addr);
      ResetArmsAll(w, s);
    }

    /** The loop of restoreifbreak: look up the breakpoint and move rip onto it. */
    method RewindOntoBreak(cont: bool) returns (rid: int)
      modifies `m
      ensures rid == IndexOf(Addrs(bps), old(m).rip - if cont then 1 else 0)
      ensures m == if rid < 0 then old(m) else old(m).(rip := bps[rid].addr)
    {
      var addr := m.rip;
      var ccbyte := if cont then 1 else 0;
      rid := -1;
      var id := 0;
      while id < |bps| && rid < 0
        invariant 0 <= id <= |bps|
        invariant rid < 0 ==> rid == -1 && m == old(m) && addr - ccbyte !in Addrs(bps)[..id]
        invariant rid >= 0 ==>
                    && rid < |bps| && bps[rid].addr == addr - ccbyte && addr - ccbyte !in Addrs(bps)[..rid]
                    && m == old(m).(rip := bps[rid].addr)
      {
        if bps[id].addr == addr - ccbyte {
          m := m.(rip := bps[id].addr);
          rid := id;
        }
        id := id + 1;
      }
      FirstIndex(Addrs(bps), addr - ccbyte, rid);
    }

    method RestoreIfBreak(cont: bool)
      requires Patchable() && lid == -1
      modifies `mem, `lid, `m
      ensures View() == Restore(w, old(View()), cont)
      ensures Patchable()
    {
      hide Peek, Poke, AlternateWord, TableOk, Clean, Overlay, Armed, Pristine;
      var rid := RewindOntoBreak(cont);
      if rid < 0 {
        return;
      }
      LiftFacts(old(View()), cont, rid, bps);
      RestoreKeepsTable(old(View()), cont);
      var restoreCode := bps[rid].code;
      var lladdr := bps[rid].addr;
      restoreCode := AlternateLoop(restoreCode, bps, lladdr, false, false);
      var ok := PokeText(lladdr, restoreCode);
      assert ok;
      lid := rid;
    }

    lemma RestoreKeepsTable(s: State, cont: bool)
      requires TableOk(w, s)
      ensures TableOk(w, Restore(w, s, cont))
    {
    }

    lemma LiftFacts(s: State, cont: bool, rid: nat, table: seq<Breakpoint>)
      requires TableOk(w, s) && s.lid == -1 && Clean(s.mem, w.image, s.addrs)
      requires Pristine(table, w.image) && s.addrs == Addrs(table)
      requires rid < |table| && rid == IndexOf(s.addrs, s.m.rip - if cont then 1 else 0)
      ensures var b := table[rid];
              && Mapped(s.mem, b.addr) && s.addrs[rid] == b.addr
              && Poke(s.mem, b.addr, AlternateWord(b.code, table, b.addr, false, false)) == Restore(w, s, cont).mem
      ensures Clean(Restore(w, s, cont).mem, w.image, s.addrs)
    {
      hide Peek, Poke, AlternateWord, Safe, LiftsRight;
      var b := table[rid];
      forall i: nat | i < 8
        ensures LiftsRight(w.image, s.addrs, b.addr, i)
      {
        SafeLifts(w.image, s.addrs, b.addr, i);
      }
      LiftIff(s.mem, w.image, table, b.addr);
      RestoreExact(w, s, cont);
    }

    /** Fails, and writes nothing, exactly when there is a breakpoint to plant and no child. */
    method SetAllBreak() returns (ok: bool)
      requires live ==> Patchable()
      modifies `mem
      ensures ok == (live || bps == [])
      ensures mem == if live then Armed(w.image, Elems(Addrs(bps))) else old(mem)
    {
      hide Peek, Poke, Planted, Clean, Armed, TableOk, Pristine, SortByAddr;
      var sorted := SortByAddr(bps);
      SortedSize(bps);
      ghost var order := Addrs(sorted);
      if live {
        PlantFacts(View(), bps);
      }
      for id := 0 to |sorted|
        invariant live || id == 0
        invariant mem == PlantAll(old(mem), w.image, order[..id])
      {
        if live {
          NextPlant(old(mem), w.image, sorted, id);
        }
        ok := PokeText(sorted[id].addr, Planted(sorted[id].code));
        if !ok {
          return;
        }
      }
      assert order[..|sorted|] == order;
      ok := true;
    }

    lemma SortedSize(table: seq<Breakpoint>)
      ensures |SortByAddr(table)| == |table|
    {
      assert |multiset(SortByAddr(table))| == |multiset(table)|;
    }

    lemma PlantFacts(s: State, table: seq<Breakpoint>)
      requires TableOk(w, s) && Clean(s.mem, w.image, s.addrs) && Pristine(table, w.image) && s.addrs == Addrs(table)
      ensures PlantAll(s.mem, w.image, Addrs(SortByAddr(table))) == Armed(w.image, Elems(s.addrs))
      ensures |s.mem| == |w.image| && Pristine(SortByAddr(table), w.image)
    {
      hide Peek, PlantAll;
      SortedPlantsAll(s.mem, w.image, table);
      var sorted := SortByAddr(table);
      forall k | 0 <= k < |sorted|
        ensures Mapped(w.image, sorted[k].addr) && sorted[k].code == Peek(w.image, sorted[k].addr)
      {
        assert sorted[k] in multiset(table);
      }
    }

    /** After waitpid: the child has exited, or has been killed, or has stopped with machine state m.
        At a stop resetbreak must find the entry that lid names. */
    method WaitStatus(event: Event, cont: bool) returns (r: Reply)
      requires event.Stopped? ==> Patchable()
      modifies this
      ensures bps == old(bps)
      ensures event.Stopped? ==> r == Done && Patchable()
      ensures event.Stopped? ==> Res(View(), Done) == AtStop(w, old(View()), old(m), cont)
      ensures event.Gone? ==> r == Done && View() == AtExit(old(View()))
      ensures event.Dead? ==> r == BadWait && View() == old(View()).(live := false)
    {
      hide Restore, Reset;
      match event {
        case Gone =>
          status := Loaded;
          live := false;
          return Done;
        case Stopped =>
          ResetBreak();
          RestoreIfBreak(cont);
          return Done;
        case Dead =>
          live := false;
          return BadWait;
      }
    }

    // ----- Commands -----

    method SetBreak(lladdr: Addr) returns (r: Reply)
      requires Valid()
      modifies this
      ensures Res(View(), r) ==
              if old(status).Running? then DoBreak(w, old(View()), lladdr) else Res(old(View()), WrongStatus)
      ensures old(Legal(w, View(), Break(lladdr))) ==> Valid()
    {
      hide Peek, Poke, AlternateWord, Planted, Inv, Pristine, Legal;
      LiveFacts();
      if status != Running {
        return WrongStatus;
      }
      if lladdr < entrypoint || lladdr > LastByte(entrypoint, textsize) {
        return BadBreakpoint;
      }
      var code := PeekText(lladdr);
      var exist := false;
      for id := 0 to |bps|
        invariant exist <==> lladdr in Addrs(bps)[..id]
      {
        if bps[id].addr == lladdr {
          exist := true;
        }
      }
      assert Addrs(bps)[..|bps|] == Addrs(bps);
      if exist {
        return BadBreakpoint;
      }
      var ok := PokeText(lladdr, Planted(code));
      if !ok {
        return Quit;
      }
      PlantOver(old(mem), lladdr);
      code := AlternateLoop(code, bps, lladdr, false, true);
      SavedAndKept(lladdr, code, old(View()), old(bps));
      bps := bps + [Breakpoint(lladdr, code)];
      assert Addrs(bps) == old(Addrs(bps)) + [lladdr];
      return Done;
    }

    lemma SavedAndKept(a: Addr, code: bv64, s: State, table: seq<Breakpoint>)
      requires Inv(w, s) && Pristine(table, w.image) && s.addrs == Addrs(table) && s.status.Running?
      requires DoBreak(w, s, a).reply.Done? && code == AlternateWord(Peek(s.mem, a), table, a, false, true)
      ensures Legal(w, s, Break(a)) ==>
                Pristine(table + [Breakpoint(a, code)], w.image) && Inv(w, DoBreak(w, s, a).state)
    {
      hide ByteAt, Peek, AlternateWord, Safe, SavesRight;
      if Legal(w, s, Break(a)) {
        SavedWordIff(s.mem, w.image, table, a);
        BreakKeeps(w, s, a);
      }
    }

    /** The index one past the table passes the test of the code, which then reads there. */
    method DeleteBreak(did: int) returns (r: Reply)
      requires Valid()
      modifies this
      ensures Valid()
      ensures Res(View(), r) == Step(w, old(View()), Delete(did))
    {
      hide Peek, Poke, AlternateWord, Safe, Overlay, Armed, Clean;
      if status != Running {
        return WrongStatus;
      }
      // an int compared with a size_t: a negative index is a huge one
      if did < 0 || did > |bps| {
        return BadBreakpoint;
      }
      if did == |bps| {
        return Undefined;
      }
      var deleteCode := bps[did].code;
      var lladdr := bps[did].addr;
      UnplantFacts(View(), did, bps);
      DeleteKeeps(w, View(), did);
      deleteCode := AlternateLoop(deleteCode, bps, lladdr, true, false);
      var ok := PokeText(lladdr, deleteCode);
      if !ok {
        return Quit;
      }
      bps := bps[..did] + bps[did + 1..];
      assert Addrs(bps) == old(Addrs(bps))[..did] + old(Addrs(bps))[did + 1..];
      return Done;
    }

    lemma UnplantFacts(s: State, id: nat, table: seq<Breakpoint>)
      requires Inv(w, s) && id < |table| && Pristine(table, w.image) && s.addrs == Addrs(table)
      ensures var b := table[id];
              && s.addrs[id] == b.addr
              && (s.live ==>
                    && Mapped(s.mem, b.addr)
                    && Poke(s.mem, b.addr, AlternateWord(b.code, table, b.addr, true, false)) ==
                       Overlay(s.mem, Armed(w.image, Elems(s.addrs) - {b.addr}), b.addr))
    {
      hide Peek, Poke, AlternateWord, Safe, ArmsRight, Overlay, Armed;
      var b := table[id];
      if s.live {
        forall i: nat | i < 8
          ensures ArmsRight(w.image, s.addrs, b.addr, i)
        {
          SafeArms(w.image, s.addrs, b.addr, i);
        }
        UnplantIff(s.mem, w.image, table, b.addr);
      }
    }

    /** n: the instructions the child completes before the wait ends; waitpid returns only then. */
    method Cont(n: nat, why: Cause) returns (r: Reply)
      requires Valid() && (status.Running? ==> CanResume(w, View(), n, why))
      modifies this
      ensures Valid()
      ensures Res(View(), r) ==
              if old(status).Running? then DoCont(w, old(View()), n, why) else Res(old(View()), WrongStatus)
    {
      hide ExecOne, Run, Reset, Restore, Safe, Clean, Pristine;
      if status != Running {
        return WrongStatus;
      }
      status := Running;
      if !live {
        return Quit;
      }
      ContKeeps(w, View(), n, why);
      var p := Run(w.cpu, mem, m, n).value;
      var outcome := ExecOne(w.cpu, mem, p);
      if why == Killed {
        r := WaitStatus(Dead, true);
      } else if why == Itself && outcome.Exited? {
        r := WaitStatus(Gone, true);
      } else if lid >= |bps| {
        return Undefined;
      } else {
        m := if why == BySignal then p else outcome.at;
        r := WaitStatus(Stopped, true);
      }
    }

    method Si(why: Cause) returns (r: Reply)
      requires Valid() && (status.Running? ==> CanStep(w, View(), why))
      modifies this
      ensures Valid()
      ensures Res(View(), r) ==
              if old(status).Running? then DoSi(w, old(View()), why) else Res(old(View()), WrongStatus)
    {
      hide ExecOne, Reset, Restore, Safe, Clean, Pristine;
      if status != Running {
        return WrongStatus;
      }
      if !live {
        return Quit;
      }
      SiKeeps(w, View(), why);
      var outcome := ExecOne(w.cpu, mem, m);
      if why == Killed {
        r := WaitStatus(Dead, false);
      } else if why == Itself && outcome.Exited? {
        r := WaitStatus(Gone, false);
      } else if lid >= |bps| {
        return Undefined;
      } else {
        if why == Itself {
          m := if outcome.Next? then outcome.next else outcome.at;
        }
        r := WaitStatus(Stopped, false);
      }
    }

    /** init: the state in which the new child first stops, with new text, if it does. */
    method Start(init: Machine, launch: Launch) returns (r: Reply)
      requires Valid()
      modifies this
      ensures Valid()
      ensures Res(View(), r) == Step(w, old(View()), Session.Command.Start(init, launch))
    {
      hide Reset, Restore, Safe, Clean, Armed, Pristine;
      if status != Loaded {
        return WrongStatus;
      }
      StartKeeps(w, View(), init, launch);
      ImageIsClean(w.image, Addrs(bps));
      if launch == Execs {
        if lid >= |bps| {
          return Undefined;
        }
        live, mem, m := true, w.image, init;
        r := WaitStatus(Stopped, false);
      } else if launch == ExitsAtOnce {
        r := WaitStatus(Gone, false);
      } else {
        r := WaitStatus(Dead, false);
      }
      var ok := SetAllBreak();
      if !ok {
        return Quit;
      }
      status := Running;
    }

    method Load(file: Option<Elf>) returns (r: Reply)
      requires Valid()
      modifies this
      ensures Valid()
      ensures Res(View(), r) == Step(w, old(View()), Session.Command.Load(file))
    {
      hide Inv, Pristine, FindText;
      LoadKeeps(w, View(), file);
      if status != NotLoaded {
        return WrongStatus;
      }
      if file.None? {
        return NoFile;
      }
      var i := ElfInfo(file.value);
      if i < |file.value.sections| {
        entrypoint := file.value.sections[i].addr;
        textsize := file.value.sections[i].size;
      }
      status := Loaded;
      return Done;
    }

    /** The loop of elfinfo: the index of the text section, or the number of sections. */
    method ElfInfo(elf: Elf) returns (i: nat)
      ensures i <= |elf.sections|
      ensures FindText(elf.entry, elf.sections) == if i < |elf.sections| then Some(elf.sections[i]) else None
    {
      i := 0;
      while i < |elf.sections| && elf.sections[i].addr != elf.entry
        invariant i <= |elf.sections|
        invariant FindText(elf.entry, elf.sections) == FindText(elf.entry, elf.sections[i..])
      {
        i := i + 1;
      }
    }

    method RunProgram(init: Machine, launch: Launch, n: nat, why: Cause) returns (r: Reply)
      requires Valid() && CanRun(w, View(), init, launch, n, why)
      modifies this
      ensures Valid()
      ensures Res(View(), r) == DoRun(w, old(View()), init, launch, n, why)
    {
      hide DoStart, DoCont, Inv, CanResume, Pristine;
      if status == NotLoaded {
        return WrongStatus;
      } else if status == Running {
        r := Cont(n, why);
      } else {
        StartRuns(w, View(), init, launch);
        r := Start(init, launch);
        if r != Done {
          return;
        }
        r := Cont(n, why);
      }
    }

    // ----- The loop over commands -----

    method Middleware(c: Command) returns (r: Reply)
      requires Valid() && Legal(w, View(), c)
      modifies this
      ensures Valid()
      ensures Res(View(), r) == Step(w, old(View()), c)
    {
      hide DoStart, DoCont, DoSi, Inv, CanResume, CanStep, CanRun, Pristine, Safe, SavesRight;
      match c {
        case Load(file) => r := Load(file);
        case Start(init, launch) => r := Start(init, launch);
        case Break(a) => r := SetBreak(a);
        case Delete(id) => r := DeleteBreak(id);
        case Cont(n, why) => r := Cont(n, why);
        case Si(why) => r := Si(why);
        case RunProgram(init, launch, n, why) => r := RunProgram(init, launch, n, why);
      }
    }

    /** A session on the debugger itself. It ends with the input, or when the debugger has exited or has
        read outside its table. Valid says that the saved words are the original ones after it. */
    method Core(cmds: seq<Command>) returns (r: Reply)
      requires Valid() && Runs.LegalRun(w, View(), cmds)
      modifies this
      ensures Valid()
      ensures Res(View(), r) == Runs.RunAll(w, old(View()), cmds)
      ensures Runs.Initial(old(View())) && old(Runs.KeepsLidAll(w, View(), cmds)) ==> !r.Undefined? && Tight(View())
    {
      hide Inv, Legal, Step, Tight, Pristine, Runs.Initial;
      if Runs.Initial(View()) {
        Runs.InitialInv(w, View());
      }
      Runs.RunKeeps(w, View(), cmds);
      r := Done;
      var i := 0;
      while i < |cmds| && !Runs.Ends(r)
        invariant 0 <= i <= |cmds| && Valid()
        invariant !Runs.Ends(r) ==> Runs.LegalRun(w, View(), cmds[i..])
        invariant Runs.RunAll(w, old(View()), cmds) ==
                  if Runs.Ends(r) || i == |cmds| then Res(View(), r) else Runs.RunAll(w, View(), cmds[i..])
      {
        assert cmds[i..][1..] == cmds[i + 1..];
        r := Middleware(cmds[i]);
        i := i + 1;
      }
    }

    // ----- Views -----

    /** The word both views show for l. */
    method ShownWord(l: int) returns (r: bv64)
      requires Valid()
      ensures forall i: nat :: i < 8 ==> ShownExactly(live, w.image, mem, Addrs(bps), l, l + i, ByteAt(r, i))
    {
      hide ByteAt, Peek, AlternateWord, Safe, Pristine, ArmsRight, ShownExactly;
      var word := PeekText(l);
      r := AlternateLoop(word, bps, l, true, true);
      forall i: nat | i < 8
        ensures ShownExactly(live, w.image, mem, Addrs(bps), l, l + i, ByteAt(r, i))
      {
        ShownFacts(View(), bps, word, l, i);
      }
    }

    lemma ShownFacts(s: State, table: seq<Breakpoint>, word: bv64, l: int, i: nat)
      requires Inv(w, s) && s.addrs == Addrs(table) && i < 8
      requires word == if s.live && Mapped(s.mem, l) then Peek(s.mem, l) else 0xffff_ffff_ffff_ffff
      ensures ShownExactly(s.live, w.image, s.mem, s.addrs, l, l + i, ByteAt(AlternateWord(word, table, l, true, true), i))
    {
      hide ByteAt, Peek, AlternateWord, Safe, ArmsRight, Landed, HitsAt;
      AlternateArms(word, table, l, true, i);
      OnesBytes(i);
      if s.live && Mapped(s.mem, l) {
        PeekBytes(s.mem, l, i);
        ArmedByteIff(s.mem, w.image, table, l, i);
      }
    }

    /** The bytes handed to the disassembler. */
    method Disasm(lladdr: int, bytes: nat) returns (r: Reply, code: seq<bv8>)
      requires Valid()
      ensures r == if status.Running? then Done else WrongStatus
      ensures status.Running? ==>
                && |code| == bytes / 8 * 8
                && forall k :: 0 <= k < |code| ==>
                     ShownExactly(live, w.image, mem, Addrs(bps), lladdr + k / 8 * 8, lladdr + k, code[k])
    {
      hide ByteAt, ShownExactly, Inv, Pristine;
      code := [];
      if status != Running {
        return WrongStatus, code;
      }
      for i := 0 to bytes / 8
        invariant |code| == i * 8
        invariant forall k :: 0 <= k < |code| ==>
                    ShownExactly(live, w.image, mem, Addrs(bps), lladdr + k / 8 * 8, lladdr + k, code[k])
      {
        var ret := ShownWord(lladdr + i * 8);
        ghost var before := code;
        code := code + WordBytes(ret);
        forall k | 0 <= k < |code|
          ensures ShownExactly(live, w.image, mem, Addrs(bps), lladdr + k / 8 * 8, lladdr + k, code[k])
        {
          if k >= i * 8 {
            var j := k - i * 8;
            assert code[k] == ByteAt(ret, j) && k / 8 * 8 == i * 8;
            assert ShownExactly(live, w.image, mem, Addrs(bps), lladdr + i * 8, lladdr + i * 8 + j, ByteAt(ret, j));
          } else {
            assert code[k] == before[k];
          }
        }
      }
      return Done, code;
    }

    /** Two words a row; a row is printed when its second word has been read. */
    method Dump(start: int, count: nat) returns (r: Reply, rows: seq<Row>)
      requires Valid() && count % 8 == 0
      ensures r == if status.Running? then Done else WrongStatus
      ensures status.Running? ==>
                && |rows| == count / 16
                && (|rows| * 16 == count <==> count % 16 == 0)
                && RowsExactly(rows, start)
    {
      hide *;
      LiveFacts();
      rows := [];
      if status != Running {
        return WrongStatus, rows;
      }
      NoRows(start);
      var head := true;
      var lladdr, bytes := start, count;
      var layout, ascii := Row(0, [], []), [];
      ghost var left: nat := count / 8;  // words to read
      while bytes != 0
        invariant bytes == 8 * left && lladdr == start + 16 * |rows| + (if head then 0 else 8)
        invariant count == 8 * left + 16 * |rows| + (if head then 0 else 8)
        invariant RowsExactly(rows, start)
        invariant !head ==> layout.addr == lladdr - 8 && HalfExactly(layout.bytes, ascii, lladdr - 8)
        decreases left
      {
        var ret := ShownWord(lladdr);
        HalfShown(ret, lladdr);
        var eight, chars := WordBytes(ret), Chars(WordBytes(ret));
        if head {
          layout, ascii := Row(lladdr, eight, []), chars;
        } else {
          JoinHalves(layout.bytes, ascii, eight, chars, lladdr - 8);
          var row := Row(layout.addr, layout.bytes + eight, ascii + chars);
          AppendRow(rows, row, start);
          rows := rows + [row];
        }
        lladdr, bytes, left := lladdr + 8, bytes - 8, left - 1;
        head := !head;
      }
      RowCount(count, |rows|);
      return Done, rows;
    }

    /** Eight bytes as shown for the word at l, with their characters. */
    ghost predicate HalfExactly(bytes: seq<bv8>, ascii: seq<bv8>, l: int)
      reads this
    {
      && |bytes| == 8 && |ascii| == 8
      && forall i: nat :: i < 8 ==>
           ShownExactly(live, w.image, mem, Addrs(bps), l, l + i, bytes[i]) && ascii[i] == Printable(bytes[i])
    }

    ghost predicate RowExactly(row: Row, l: int)
      reads this
    {
      && row.addr == l && |row.bytes| == 16 && |row.ascii| == 16
      && HalfExactly(row.bytes[..8], row.ascii[..8], l) && HalfExactly(row.bytes[8..], row.ascii[8..], l + 8)
    }

    /** The rows are those of the sixteen-byte blocks from start on. */
    ghost predicate RowsExactly(rows: seq<Row>, start: int)
      reads this
    {
      forall k :: 0 <= k < |rows| ==> RowExactly(rows[k], start + 16 * k)
    }

    lemma RowCount(count: nat, rows: nat)
      requires count == 16 * rows || count == 16 * rows + 8
      ensures rows == count / 16 && (rows * 16 == count <==> count % 16 == 0)
    {
    }

    lemma NoRows(start: int)
      ensures RowsExactly([], start)
    {
    }

    lemma AppendRow(rows: seq<Row>, row: Row, start: int)
      requires RowsExactly(rows, start) && RowExactly(row, start + 16 * |rows|)
      ensures RowsExactly(rows + [row], start)
    {
      hide RowExactly;
    }

    lemma HalfShown(word: bv64, l: int)
      requires forall i: nat :: i < 8 ==> ShownExactly(live, w.image, mem, Addrs(bps), l, l + i, ByteAt(word, i))
      ensures HalfExactly(WordBytes(word), Chars(WordBytes(word)), l)
    {
    }

    lemma JoinHalves(b1: seq<bv8>, a1: seq<bv8>, b2: seq<bv8>, a2: seq<bv8>, l: int)
      requires HalfExactly(b1, a1, l) && HalfExactly(b2, a2, l + 8)
      ensures RowExactly(Row(l, b1 + b2, a1 + a2), l)
    {
    }
  }

  lemma OnesBytes(i: nat)
    requires i < 8
    ensures ByteAt(0xffff_ffff_ffff_ffff, i) == 0xff
  {
  }

  lemma FirstIndex(addrs: seq<int>, x: int, r: int)
    requires -1 <= r < |addrs|
    requires r >= 0 ==> addrs[r] == x && x !in addrs[..r]
    requires r < 0 ==> x !in addrs
    ensures r == IndexOf(addrs, x)
  {
  }

  lemma NextPlant(mem: Mem, image: Mem, sorted: seq<Breakpoint>, id: nat)
    requires id < |sorted| && Pristine(sorted, image) && |mem| == |image|
    ensures var order := Addrs(sorted);
            var p := PlantAll(mem, image, order[..id]);
            && Mapped(p, sorted[id].addr)
            && Poke(p, sorted[id].addr, Planted(sorted[id].code)) == PlantAll(mem, image, order[..id + 1])
  {
    hide Peek, Poke, Planted;
    var order := Addrs(sorted);
    PlantLength(mem, image, order[..id]);
    assert order[..id + 1][..id] == order[..id];
    PlantWord(PlantAll(mem, image, order[..id]), image, order[id]);
  }

  lemma PlantOver(mem: Mem, a: int)
    requires Mapped(mem, a)
    ensures Poke(mem, a, Planted(Peek(mem, a))) == mem[a := CC]
  {
    PlantWord(mem, mem, a);
    assert Overlay(mem, Armed(mem, {a}), a) == mem[a := CC];
  }
}
