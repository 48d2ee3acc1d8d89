/** The traced program. The processor is abstract: any instruction decoder and any effect of an
    instruction on the registers and data of the program. Only int3 is fixed. */
module Child {
  import opened Words
  import opened Text

  datatype Machine = Machine(rip: int, regs: seq<bv64>, data: map<int, bv8>)

  datatype Effect = Goto(next: Machine) | Leave | Crash

  /** length: how many of the bytes in front of it form the first instruction.
      exec: the effect of that instruction, which sees its own bytes but never the text. */
  datatype Cpu = Cpu(length: seq<bv8> -> nat, exec: (seq<bv8>, Machine) -> Effect)

  /** How one instruction ends. Trap is int3, reported with rip already behind it. */
  datatype Outcome = Next(next: Machine) | Trap(at: Machine) | Exited | Fault

  const MAX_INSTRUCTION := 15

  function Fetch(mem: Mem, rip: int): seq<bv8>
    requires 0 <= rip < |mem|
  {
    if rip + MAX_INSTRUCTION <= |mem| then mem[rip..rip + MAX_INSTRUCTION] else mem[rip..]
  }

  predicate SameHead(v: seq<bv8>, w: seq<bv8>, n: nat) {
    1 <= n <= |v| && n <= |w| && v[..n] == w[..n]
  }

  /** The length of an instruction depends on no byte behind it. */
  ghost predicate PrefixCode(cpu: Cpu) {
    forall v, w {:trigger SameHead(v, w, cpu.length(v))} ::
      SameHead(v, w, cpu.length(v)) ==> cpu.length(w) == cpu.length(v)
  }

  function InsnLength(cpu: Cpu, mem: Mem, rip: int): nat
    requires 0 <= rip < |mem|
  {
    cpu.length(Fetch(mem, rip))
  }

  /** One instruction, decoded from the bytes that are in memory. */
  function ExecOne(cpu: Cpu, mem: Mem, m: Machine): Outcome {
    if !(0 <= m.rip < |mem|) then Fault
    else if mem[m.rip] == CC then Trap(m.(rip := m.rip + 1))
    else
      var n := InsnLength(cpu, mem, m.rip);
      if !(1 <= n <= |Fetch(mem, m.rip)|) then Fault
      else
        match cpu.exec(Fetch(mem, m.rip)[..n], m)
        case Goto(next) => Next(next)
        case Leave => Exited
        case Crash => Fault
  }

  datatype Option<T> = None | Some(value: T)

  /** The state after n instructions, if all of them complete. */
  function Run(cpu: Cpu, mem: Mem, m: Machine, n: nat): Option<Machine> {
    if n == 0 then Some(m)
    else
      match Run(cpu, mem, m, n - 1)
      case None => None
      case Some(p) =>
        var o := ExecOne(cpu, mem, p);
        if o.Next? then Some(o.next) else None
  }

  /** Running from m, the child completes n instructions and then stops of itself: at an int3, or for
      good. */
  predicate Stops(cpu: Cpu, mem: Mem, m: Machine, n: nat) {
    && Run(cpu, mem, m, n).Some?
    && var o := ExecOne(cpu, mem, Run(cpu, mem, m, n).value); o.Trap? || o.Exited?
  }

  predicate ArmedAt(mem: Mem, p: Machine) {
    0 <= p.rip < |mem| && mem[p.rip] == CC
  }

  /** No byte of the n at rip differs from the image. */
  predicate Untouched(mem: Mem, image: Mem, rip: int, n: nat) {
    forall x :: rip <= x < rip + n && 0 <= x < |mem| && x < |image| ==> mem[x] == image[x]
  }

  /** What the debugger may expect at a state of the unpatched program, with the text as it is patched
      now: the program has no int3 of its own there; and if the byte at rip is not armed, so that the
      instruction is going to run, it decodes and does not crash, and no byte in it is armed either. */
  ghost predicate OrderlyAt(cpu: Cpu, mem: Mem, image: Mem, p: Machine) {
    && 0 <= p.rip < |image|
    && image[p.rip] != CC
    && (ArmedAt(mem, p) ||
        (&& !ExecOne(cpu, image, p).Fault?
         && Untouched(mem, image, p.rip, InsnLength(cpu, image, p.rip))))
  }

  /** So for the first n states of the native run from m. */
  ghost predicate Orderly(cpu: Cpu, mem: Mem, image: Mem, m: Machine, n: nat) {
    forall j: nat :: j < n && Run(cpu, image, m, j).Some? ==> OrderlyAt(cpu, mem, image, Run(cpu, image, m, j).value)
  }

  /** The same without looking at the text as it is patched: an instruction of the unpatched program
      decodes, does not crash, is no int3, and has no address of the table behind its first byte (unless
      the byte there is int3 anyway). */
  ghost predicate BoundaryAt(cpu: Cpu, image: Mem, addrs: seq<int>, p: Machine) {
    && 0 <= p.rip < |image|
    && image[p.rip] != CC
    && !ExecOne(cpu, image, p).Fault?
    && forall a :: a in addrs && p.rip < a < p.rip + InsnLength(cpu, image, p.rip) ==> Read(image, a) == CC
  }

  ghost predicate OnBoundaries(cpu: Cpu, image: Mem, m: Machine, addrs: seq<int>, n: nat) {
    forall j: nat :: j < n && Run(cpu, image, m, j).Some? ==> BoundaryAt(cpu, image, addrs, Run(cpu, image, m, j).value)
  }

  lemma OrderlyAtIff(cpu: Cpu, image: Mem, addrs: seq<int>, p: Machine)
    ensures (forall mem :: Clean(mem, image, addrs) ==> OrderlyAt(cpu, mem, image, p)) <==>
            BoundaryAt(cpu, image, addrs, p)
  {
    if forall mem :: Clean(mem, image, addrs) ==> OrderlyAt(cpu, mem, image, p) {
      assert Clean(image, image, addrs);
      assert OrderlyAt(cpu, image, image, p);
      DecodesWell(cpu, image, p);
      forall a | a in addrs && p.rip < a < p.rip + InsnLength(cpu, image, p.rip)
        ensures Read(image, a) == CC
      {
        assert Clean(image[a := CC], image, addrs);
        assert OrderlyAt(cpu, image[a := CC], image, p);
      }
    }
  }

  /** A run is orderly whichever breakpoints of the table are armed, exactly when each of its native
      instructions is on boundaries. */
  lemma OrderlyIff(cpu: Cpu, image: Mem, m: Machine, addrs: seq<int>, n: nat)
    ensures (forall mem :: Clean(mem, image, addrs) ==> Orderly(cpu, mem, image, m, n)) <==>
            OnBoundaries(cpu, image, m, addrs, n)
  {
    hide OrderlyAt, BoundaryAt, Clean;
    forall j: nat | j < n && Run(cpu, image, m, j).Some?
      ensures (forall mem :: Clean(mem, image, addrs) ==> OrderlyAt(cpu, mem, image, Run(cpu, image, m, j).value)) <==>
              BoundaryAt(cpu, image, addrs, Run(cpu, image, m, j).value)
    {
      OrderlyAtIff(cpu, image, addrs, Run(cpu, image, m, j).value);
    }
  }

  lemma {:induction false} RunAdd(cpu: Cpu, mem: Mem, m: Machine, i: nat, j: nat)
    requires Run(cpu, mem, m, i).Some?
    ensures Run(cpu, mem, m, i + j) == Run(cpu, mem, Run(cpu, mem, m, i).value, j)
  {
    hide ExecOne;
    if j > 0 {
      RunAdd(cpu, mem, m, i, j - 1);
    }
  }

  /** On patched text one step either hits an armed breakpoint or is exactly the step of the
      unpatched program: no patched byte is ever decoded as part of a native instruction. */
  lemma PatchedStep(cpu: Cpu, mem: Mem, image: Mem, p: Machine, addrs: seq<int>)
    requires PrefixCode(cpu) && Clean(mem, image, addrs) && OrderlyAt(cpu, mem, image, p)
    ensures if ArmedAt(mem, p)
            then p.rip in addrs && ExecOne(cpu, mem, p) == Trap(p.(rip := p.rip + 1))
            else ExecOne(cpu, mem, p) == ExecOne(cpu, image, p) && !ExecOne(cpu, mem, p).Trap?
  {
    hide PrefixCode, InsnLength;
    if !ArmedAt(mem, p) {
      SameStep(cpu, mem, image, p);
    }
  }

  lemma SameStep(cpu: Cpu, mem: Mem, image: Mem, p: Machine)
    requires PrefixCode(cpu) && |mem| == |image| && 0 <= p.rip < |image| && image[p.rip] != CC
    requires !ExecOne(cpu, image, p).Fault? && Untouched(mem, image, p.rip, InsnLength(cpu, image, p.rip))
    ensures ExecOne(cpu, mem, p) == ExecOne(cpu, image, p) && !ExecOne(cpu, mem, p).Trap?
  {
    hide PrefixCode, Fetch, Untouched;
    DecodesWell(cpu, image, p);
    SameInstruction(cpu, mem, image, p.rip);
  }

  lemma DecodesWell(cpu: Cpu, image: Mem, p: Machine)
    requires 0 <= p.rip < |image| && image[p.rip] != CC && !ExecOne(cpu, image, p).Fault?
    ensures 1 <= InsnLength(cpu, image, p.rip) <= |Fetch(image, p.rip)|
  {
  }

  lemma SameInstruction(cpu: Cpu, mem: Mem, image: Mem, rip: int)
    requires PrefixCode(cpu) && |mem| == |image| && 0 <= rip < |image|
    requires 1 <= InsnLength(cpu, image, rip) <= |Fetch(image, rip)|
    requires Untouched(mem, image, rip, InsnLength(cpu, image, rip))
    ensures var n := InsnLength(cpu, image, rip);
            && InsnLength(cpu, mem, rip) == n && |Fetch(mem, rip)| == |Fetch(image, rip)|
            && Fetch(mem, rip)[..n] == Fetch(image, rip)[..n] && mem[rip] == image[rip]
  {
    var v, w := Fetch(image, rip), Fetch(mem, rip);
    SameBytes(mem, image, rip, cpu.length(v));
    assert SameHead(v, w, cpu.length(v));
  }

  lemma SameBytes(mem: Mem, image: Mem, rip: int, n: nat)
    requires |mem| == |image| && 0 <= rip < |image| && n <= |Fetch(image, rip)|
    ensures |Fetch(mem, rip)| == |Fetch(image, rip)|
    ensures Untouched(mem, image, rip, n) <==> Fetch(mem, rip)[..n] == Fetch(image, rip)[..n]
  {
    var v, w := Fetch(image, rip), Fetch(mem, rip);
    if v[..n] == w[..n] {
      forall x | rip <= x < rip + n
        ensures mem[x] == image[x]
      {
        assert v[..n][x - rip] == w[..n][x - rip];
      }
    }
  }

  /** The processor with another effect of its instructions. */
  predicate SameFor(exec: (seq<bv8>, Machine) -> Effect, cpu: Cpu, mem: Mem, image: Mem, p: Machine) {
    ExecOne(cpu.(exec := exec), mem, p) == ExecOne(cpu.(exec := exec), image, p)
  }

  /** Whatever instructions do, the step on patched text is the native one, exactly when no byte of the
      native instruction is patched. */
  lemma PatchedStepIff(cpu: Cpu, mem: Mem, image: Mem, p: Machine)
    requires PrefixCode(cpu) && |mem| == |image| && 0 <= p.rip < |image| && image[p.rip] != CC
    requires 1 <= InsnLength(cpu, image, p.rip) <= |Fetch(image, p.rip)|
    ensures (forall exec: (seq<bv8>, Machine) -> Effect :: SameFor(exec, cpu, mem, image, p)) <==>
            Untouched(mem, image, p.rip, InsnLength(cpu, image, p.rip))
  {
    var n := InsnLength(cpu, image, p.rip);
    if Untouched(mem, image, p.rip, n) {
      SameInstruction(cpu, mem, image, p.rip);
    }
    if forall exec: (seq<bv8>, Machine) -> Effect :: SameFor(exec, cpu, mem, image, p) {
      var native := Fetch(image, p.rip)[..n];
      var exec := (b: seq<bv8>, m: Machine) => if b == native then Goto(m) else Leave;
      assert SameFor(exec, cpu, mem, image, p);
      SameBytes(mem, image, p.rip, n);
    }
  }

  /** The child on patched text follows the native run for as long as it does not trap. */
  lemma {:induction false} PatchedRun(cpu: Cpu, mem: Mem, image: Mem, m: Machine, addrs: seq<int>, n: nat)
    requires PrefixCode(cpu) && Clean(mem, image, addrs) && Orderly(cpu, mem, image, m, n)
    requires Run(cpu, mem, m, n).Some?
    ensures Run(cpu, image, m, n) == Run(cpu, mem, m, n)
    ensures NoneArmedBefore(cpu, mem, image, m, n)
  {
    hide ExecOne, OrderlyAt, Clean, PrefixCode, ArmedAt;
    if n > 0 {
      PatchedRun(cpu, mem, image, m, addrs, n - 1);
      PatchedStep(cpu, mem, image, Run(cpu, image, m, n - 1).value, addrs);
    }
  }

  /** Native state n exists and its rip byte is armed; no earlier native state is at an armed byte. */
  ghost predicate FirstArmed(cpu: Cpu, mem: Mem, image: Mem, m: Machine, n: nat) {
    && Run(cpu, image, m, n).Some?
    && ArmedAt(mem, Run(cpu, image, m, n).value)
    && NoneArmedBefore(cpu, mem, image, m, n)
  }

  ghost predicate NoneArmedBefore(cpu: Cpu, mem: Mem, image: Mem, m: Machine, n: nat) {
    forall j: nat :: j < n && Run(cpu, image, m, j).Some? ==> !ArmedAt(mem, Run(cpu, image, m, j).value)
  }

  /** A native run that meets no armed byte in its first n states is also the run on patched text. */
  lemma {:induction false} NativeRun(cpu: Cpu, mem: Mem, image: Mem, m: Machine, addrs: seq<int>, n: nat)
    requires PrefixCode(cpu) && Clean(mem, image, addrs) && Orderly(cpu, mem, image, m, n)
    requires Run(cpu, image, m, n).Some? && NoneArmedBefore(cpu, mem, image, m, n)
    ensures Run(cpu, mem, m, n) == Run(cpu, image, m, n)
  {
    hide ExecOne, OrderlyAt, Clean, PrefixCode, ArmedAt;
    if n > 0 {
      NativeRun(cpu, mem, image, m, addrs, n - 1);
      PatchedStep(cpu, mem, image, Run(cpu, image, m, n - 1).value, addrs);
    }
  }

  /** The child stops after n instructions exactly when the native run first meets an armed byte
      there, or leaves there without having met one. */
  lemma StopsIff(cpu: Cpu, mem: Mem, image: Mem, m: Machine, addrs: seq<int>, n: nat)
    requires PrefixCode(cpu) && Clean(mem, image, addrs) && Orderly(cpu, mem, image, m, n + 1)
    ensures Stops(cpu, mem, m, n) && ExecOne(cpu, mem, Run(cpu, mem, m, n).value).Trap? <==>
            FirstArmed(cpu, mem, image, m, n)
    ensures Stops(cpu, mem, m, n) && ExecOne(cpu, mem, Run(cpu, mem, m, n).value).Exited? <==>
            && Run(cpu, image, m, n).Some? && ExecOne(cpu, image, Run(cpu, image, m, n).value).Exited?
            && NoneArmedBefore(cpu, mem, image, m, n + 1)
  {
    hide ExecOne, OrderlyAt, Clean, PrefixCode, ArmedAt;
    if Run(cpu, mem, m, n).Some? {
      PatchedRun(cpu, mem, image, m, addrs, n);
      PatchedStep(cpu, mem, image, Run(cpu, image, m, n).value, addrs);
    }
    if Run(cpu, image, m, n).Some? && NoneArmedBefore(cpu, mem, image, m, n) {
      NativeRun(cpu, mem, image, m, addrs, n);
      PatchedStep(cpu, mem, image, Run(cpu, image, m, n).value, addrs);
    }
  }
}
