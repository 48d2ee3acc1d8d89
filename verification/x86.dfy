/** The part of an x86-64 machine and of the Linux kernel that libmini64.asm runs on. Memory is seen
    as 8-byte words at aligned addresses, which is how that file uses it. */
module X86 {
  const TOP := 0x1_0000_0000_0000_0000

  type Word = w: int | 0 <= w < TOP

  /** The word as a signed 64-bit number. */
  function Signed(w: Word): int {
    if w < TOP / 2 then w else w - TOP
  }

  /** Two's complement negation. */
  function Neg(w: Word): Word {
    (TOP - w) % TOP
  }

  function Low32(w: int): int {
    w % 0x1_0000_0000
  }

  const SYS_OPEN: Word := 2
  const SYS_RT_SIGPROCMASK: Word := 14
  const SYS_NANOSLEEP: Word := 35
  const EINTR: Word := 4
  const EINVAL: Word := 22
  const SIG_SETMASK: Word := 2

  datatype Regs = Regs(rax: Word, rbx: Word, rcx: Word, rdx: Word, rsi: Word, rdi: Word, rbp: Word, rsp: Word,
                       r10: Word, r11: Word, r12: Word, r13: Word, r14: Word, r15: Word, rip: Word)

  type Mem = int -> Word  // the word at each address

  function Put(mem: Mem, a: int, v: Word): Mem {
    x => if x == a then v else mem(x)
  }

  /** A system call as the kernel sees it: its number and the first four arguments. */
  datatype Request = Request(number: Word, arg1: Word, arg2: Word, arg3: Word, arg4: Word)

  /** mask: the signals blocked, signal s in bit s - 1. asked: the system calls so far. naps: the times
      in the requests to sleep among them. */
  datatype State = State(r: Regs, mem: Mem, mask: Word, asked: seq<Request>, naps: seq<(Word, Word)>)

  /** What the kernel answers: the result of the call, the time left of an interrupted sleep, and
      what it leaves in the registers that every system call destroys. */
  datatype Answer = Answer(result: Word, restSec: Word, restNsec: Word, rcx: Word, r11: Word)

  // ----- Signal masks -----

  const SIGKILL := 9
  const SIGSTOP := 19

  /** Is bit i of n set? */
  predicate BitOf(n: nat, i: nat) {
    if i == 0 then n % 2 == 1 else BitOf(n / 2, i - 1)
  }

  function ClearBit(n: nat, i: nat): (r: nat)
    ensures r <= n
  {
    if i == 0 then n - n % 2 else n % 2 + 2 * ClearBit(n / 2, i - 1)
  }

  predicate Blocked(mask: Word, sig: int)
    requires sig >= 1
  {
    BitOf(mask, sig - 1)
  }

  /** What the kernel makes of a mask it is given: no process can block SIGKILL or SIGSTOP. */
  function Blockable(w: Word): Word {
    ClearBit(ClearBit(w, SIGKILL - 1), SIGSTOP - 1)
  }

  /** A mask the kernel can hold. */
  predicate KernelMask(w: Word) {
    !Blocked(w, SIGKILL) && !Blocked(w, SIGSTOP)
  }

  lemma {:induction false} ClearBitBits(n: nat, i: nat, j: nat)
    ensures BitOf(ClearBit(n, i), j) <==> BitOf(n, j) && j != i
    decreases i
  {
    if i > 0 && j > 0 {
      ClearBitBits(n / 2, i - 1, j - 1);
    }
  }

  lemma {:induction false} ClearBitFixesIff(n: nat, i: nat)
    ensures ClearBit(n, i) == n <==> !BitOf(n, i)
    decreases i
  {
    if i > 0 {
      ClearBitFixesIff(n / 2, i - 1);
    }
  }

  /** Of all signals exactly those two come out unblocked whatever was asked. */
  lemma BlockableSignals(w: Word, sig: int)
    requires sig >= 1
    ensures Blocked(Blockable(w), sig) <==> Blocked(w, sig) && sig != 9 && sig != 19
  {
    ClearBitBits(w, SIGKILL - 1, sig - 1);
    ClearBitBits(ClearBit(w, SIGKILL - 1), SIGSTOP - 1, sig - 1);
  }

  /** The kernel takes a mask as it is exactly when bits 8 and 18 are clear. */
  lemma BlockableFixesIff(w: Word)
    ensures Blockable(w) == w <==> KernelMask(w)
    ensures KernelMask(w) <==> w / 0x100 % 2 == 0 && w / 0x40000 % 2 == 0
  {
    hide BitOf, ClearBit;
    ClearBitFixesIff(w, SIGKILL - 1);
    ClearBitFixesIff(ClearBit(w, SIGKILL - 1), SIGSTOP - 1);
    ClearBitBits(w, SIGKILL - 1, SIGSTOP - 1);
    MaskBits(w);
  }

  lemma SkipBits(n: nat, i: nat)
    ensures BitOf(n, i + 4) == BitOf(n / 16, i)
  {
    assert BitOf(n, i + 4) == BitOf(n / 2, i + 3);
    assert BitOf(n / 2, i + 3) == BitOf(n / 2 / 2, i + 2);
    assert BitOf(n / 2 / 2, i + 2) == BitOf(n / 2 / 2 / 2, i + 1);
  }

  lemma SkipTwice(n: nat, i: nat)
    ensures BitOf(n, i + 8) == BitOf(n / 0x100, i)
  {
    hide BitOf;
    SkipBits(n, i + 4);
    SkipBits(n / 16, i);
    assert n / 16 / 16 == n / 0x100;
  }

  lemma LowestBits(n: nat)
    ensures BitOf(n, 0) <==> n % 2 == 1
    ensures BitOf(n, 2) <==> n / 4 % 2 == 1
  {
    assert BitOf(n, 2) == BitOf(n / 2, 1);
  }

  lemma MaskBits(n: nat)
    ensures BitOf(n, 8) <==> n / 0x100 % 2 == 1
    ensures BitOf(n, 18) <==> n / 0x40000 % 2 == 1
  {
    hide BitOf;
    SkipTwice(n, 0);
    SkipTwice(n, 10);
    SkipTwice(n / 0x100, 2);
    LowestBits(n / 0x100);
    LowestBits(n / 0x100 / 0x100);
    assert n / 0x100 / 0x100 / 4 == n / 0x40000;
  }

  /** 2 to the power i. */
  function Power(i: nat): nat {
    if i == 0 then 1 else 2 * Power(i - 1)
  }

  lemma {:induction false} ClearBitValue(n: nat, i: nat)
    ensures ClearBit(n, i) == n - if BitOf(n, i) then Power(i) else 0
    decreases i
  {
    if i > 0 {
      ClearBitValue(n / 2, i - 1);
    }
  }

  /** The same as a number. */
  lemma BlockableValue(w: Word)
    ensures Blockable(w) == w - w / 0x100 % 2 * 0x100 - w / 0x40000 % 2 * 0x40000
  {
    hide BitOf, ClearBit;
    assert Power(9) == 0x200 && Power(18) == 0x40000;
    ClearBitValue(w, SIGKILL - 1);
    ClearBitValue(ClearBit(w, SIGKILL - 1), SIGSTOP - 1);
    ClearBitBits(w, SIGKILL - 1, SIGSTOP - 1);
    MaskBits(w);
  }

  lemma BlockableIsKernelMask(w: Word)
    ensures KernelMask(Blockable(w))
  {
    BlockableSignals(w, SIGKILL);
    BlockableSignals(w, SIGSTOP);
  }

  /** Negation is minus on signed numbers except at the lowest. */
  lemma NegIsMinusIff(w: Word)
    ensures Signed(Neg(w)) == -Signed(w) <==> w != 0x8000_0000_0000_0000
    ensures -0x8000_0000_0000_0000 <= Signed(w) < 0x8000_0000_0000_0000 && (Signed(w) - w) % TOP == 0
  {
  }

  /** rt_sigprocmask with SIG_SETMASK or no new set: state after the call, rax included. */
  function SigProcMask(s: State): State
    requires s.r.rdi == SIG_SETMASK
  {
    var newSet, oldSet := s.r.rsi, s.r.rdx;
    if s.r.r10 != 8 then s.(r := s.r.(rax := Neg(EINVAL)))
    else
      s.(r := s.r.(rax := 0),
         mask := if newSet == 0 then s.mask else Blockable(s.mem(newSet)),
         mem := if oldSet == 0 then s.mem else Put(s.mem, oldSet, s.mask))
  }

  /** nanosleep: the request is read; the rest is written when a signal interrupts the sleep. */
  function NanoSleep(s: State, k: Answer): State {
    var t := s.(r := s.r.(rax := k.result), naps := s.naps + [(s.mem(s.r.rdi), s.mem(s.r.rdi + 8))]);
    if k.result == Neg(EINTR)
    then t.(mem := Put(Put(s.mem, s.r.rsi, k.restSec), s.r.rsi + 8, k.restNsec))
    else t
  }

  predicate CanAsk(s: State) {
    match s.r.rax
    case 14 => s.r.rdi == SIG_SETMASK
    case 35 => true
    case _ => s.r.rax == SYS_OPEN
  }

  function Ask(s: State, k: Answer): State
    requires CanAsk(s)
  {
    var t := match s.r.rax
      case 14 => SigProcMask(s)
      case 35 => NanoSleep(s, k)
      case _ => s.(r := s.r.(rax := k.result));
    t.(r := t.r.(rcx := k.rcx, r11 := k.r11),
       asked := s.asked + [Request(s.r.rax, s.r.rdi, s.r.rsi, s.r.rdx, s.r.r10)])
  }

  /** The n words below the address a, down from a - 8. */
  predicate BelowBy(a: int, n: nat, x: int) {
    a - 8 * n <= x < a
  }

  /** An aligned stack with room for n words below rsp. */
  predicate StackBelow(rsp: Word, n: nat) {
    rsp % 8 == 0 && rsp - 8 * n >= 0 && rsp + 8 < TOP
  }

  // ----- Instructions: each turns one machine state into the next -----

  function Store(s: State, a: int, v: Word): State {
    s.(mem := Put(s.mem, a, v))
  }

  function Push(s: State, v: Word): State
    requires s.r.rsp >= 8
  {
    s.(r := s.r.(rsp := s.r.rsp - 8), mem := Put(s.mem, s.r.rsp - 8, v))
  }

  /** The word on top of the stack, which pop moves to its operand. */
  function Top(s: State): Word {
    s.mem(s.r.rsp)
  }

  function Drop(s: State): State
    requires s.r.rsp + 8 < TOP
  {
    s.(r := s.r.(rsp := s.r.rsp + 8))
  }

  function Ret(s: State): State
    requires s.r.rsp + 8 < TOP
  {
    s.(r := s.r.(rip := s.mem(s.r.rsp), rsp := s.r.rsp + 8))
  }

  /** The state in which the stub of system call n, called with return address ra, reaches its
      syscall instruction. */
  function AtSyscall(s: State, n: Word, ra: Word): State
    requires s.r.rsp >= 16
  {
    s.(mem := Put(Put(s.mem, s.r.rsp - 8, ra), s.r.rsp - 16, s.r.r10),
       r := s.r.(rsp := s.r.rsp - 16, r10 := s.r.rcx, rax := n))
  }

  /** `call sys_...`: the stub that gensys generates. It leaves the stack pointer and r10 as they
      were, whatever the kernel did, as long as the kernel kept off the two words of the stub. */
  method CallStub(s: State, n: Word, ra: Word, k: Answer) returns (c: State)
    requires StackBelow(s.r.rsp, 2) && CanAsk(AtSyscall(s, n, ra))
    requires var t := Ask(AtSyscall(s, n, ra), k);
             t.mem(s.r.rsp - 8) == ra && t.mem(s.r.rsp - 16) == s.r.r10
    ensures var t := Ask(AtSyscall(s, n, ra), k);
            c == t.(r := t.r.(rsp := s.r.rsp, r10 := s.r.r10, rip := ra))
  {
    c := Push(s, ra);
    c := Push(c, c.r.r10);
    c := c.(r := c.r.(r10 := c.r.rcx));
    c := c.(r := c.r.(rax := n));
    c := Ask(c, k);
    var saved := Top(c);
    c := Drop(c);
    c := c.(r := c.r.(r10 := saved));
    c := Ret(c);
  }
}
