/** sleep and open of libmini64.asm against the C code they stand for. */
module Calls {
  import opened X86

  /** The reference sleep: the kernel is asked for (seconds, 0); ret and rest are its answer. */
  function SleepC(ret: Word, rest: Word): int {
    if Signed(ret) >= 0 then Low32(ret)
    else if Signed(ret) == -4 then Low32(rest)
    else 0
  }

  /** A result that is not negative is returned; after an interrupt (-4) the seconds that were left; after
      any other error 0. */
  lemma SleepCases(ret: Word, rest: Word)
    ensures ret < 0x8000_0000_0000_0000 ==> SleepC(ret, rest) == ret % 0x1_0000_0000
    ensures ret == 0xffff_ffff_ffff_fffc ==> SleepC(ret, rest) == rest % 0x1_0000_0000
    ensures ret >= 0x8000_0000_0000_0000 && ret != 0xffff_ffff_ffff_fffc ==> SleepC(ret, rest) == 0
  {
  }

  /** One request more, for the argument as an unsigned int. */
  predicate AsByC(before: seq<(Word, Word)>, after: seq<(Word, Word)>, rdi: Word) {
    after == before + [(Low32(rdi), 0)]
  }

  lemma SameRequestIff(before: seq<(Word, Word)>, after: seq<(Word, Word)>, rdi: Word)
    requires after == before + [(rdi, 0)]
    ensures AsByC(before, after, rdi) <==> rdi < 0x1_0000_0000
  {
    assert after[|before|] == (rdi, 0) && (before + [(Low32(rdi), 0)])[|before|] == (Low32(rdi), 0);
  }

  /** sleep: one request to the kernel, the result of the reference, the stack pointer back, and no
      word written at or above the entry stack pointer, whatever the kernel answers. The reference takes
      an unsigned int: its request is the same exactly when the caller has zero-extended the argument. */
  method Sleep(s: State, ra: Word, k: Answer) returns (c: State)
    requires StackBelow(s.r.rsp, 6)
    ensures c.asked == s.asked + [Request(35, s.r.rsp - 32, s.r.rsp - 16, s.r.rdx, s.r.rcx)]
    ensures (c.mem(s.r.rsp - 32), c.mem(s.r.rsp - 24)) == (s.r.rdi, 0)
    ensures c.naps == s.naps + [(s.r.rdi, 0)]
    ensures AsByC(s.naps, c.naps, s.r.rdi) <==> s.r.rdi < 0x1_0000_0000
    ensures Low32(c.r.rax) == SleepC(k.result, k.restSec)
    ensures c.r.rsp == s.r.rsp + 8 && c.r.rip == s.mem(s.r.rsp) && c.mask == s.mask
    ensures (c.r.rbx, c.r.rbp, c.r.r10, c.r.r12, c.r.r13, c.r.r14, c.r.r15) ==
            (s.r.rbx, s.r.rbp, s.r.r10, s.r.r12, s.r.r13, s.r.r14, s.r.r15)
    ensures forall x :: !BelowBy(s.r.rsp, 6, x) ==> c.mem(x) == s.mem(x)
  {
    hide AsByC;
    c := s.(r := s.r.(rsp := s.r.rsp - 32));
    c := Store(c, c.r.rsp, c.r.rdi);
    c := Store(c, c.r.rsp + 8, 0);
    c := c.(r := c.r.(rdi := c.r.rsp));
    c := c.(r := c.r.(rsi := c.r.rsp + 16));
    c := CallStub(c, SYS_NANOSLEEP, ra, k);
    if !(Signed(c.r.rax) >= 0) {
      c := c.(r := c.r.(rax := Neg(c.r.rax)));
      if c.r.rax == EINTR {
        c := c.(r := c.r.(rsi := c.r.rsp + 16));
        c := c.(r := c.r.(rax := c.mem(c.r.rsi)));
      } else {
        c := c.(r := c.r.(rax := 0));
      }
    }
    c := c.(r := c.r.(rsp := c.r.rsp + 32));
    c := Ret(c);
    SameRequestIff(s.naps, c.naps, s.r.rdi);
  }

  /** WRAPPER_RETval, the tail of every C wrapper: the value returned and the new errno. */
  function Wrapped(ret: Word): (Word, Word) {
    if Signed(ret) < 0 then (Neg(1), Neg(ret)) else (ret, 0)
  }

  /** A result that is not negative is returned, and errno is 0; of an error the result is -1, and errno
      its negation. */
  lemma WrappedCases(ret: Word)
    ensures ret < 0x8000_0000_0000_0000 ==> Wrapped(ret) == (ret, 0)
    ensures ret >= 0x8000_0000_0000_0000 ==>
              Wrapped(ret).0 == 0xffff_ffff_ffff_ffff && ret + Wrapped(ret).1 == TOP && Wrapped(ret).1 > 0
  {
  }

  /** open: the kernel is asked with the caller's arguments, and its answer handed on like by the C
      wrappers of the other system calls. errno: the address of that variable. */
  method Open(s: State, errno: Word, ra: Word, k: Answer) returns (c: State)
    requires StackBelow(s.r.rsp, 2) && errno % 8 == 0
    requires errno + 8 <= s.r.rsp - 16 || s.r.rsp + 8 <= errno
    ensures c.asked == s.asked + [Request(2, s.r.rdi, s.r.rsi, s.r.rdx, s.r.rcx)]
    ensures (c.r.rax, c.mem(errno)) == Wrapped(k.result)
    ensures c.r.rsp == s.r.rsp + 8 && c.r.rip == s.mem(s.r.rsp) && c.mask == s.mask && c.naps == s.naps
    ensures (c.r.rbx, c.r.rbp, c.r.r10, c.r.r12, c.r.r13, c.r.r14, c.r.r15) ==
            (s.r.rbx, s.r.rbp, s.r.r10, s.r.r12, s.r.r13, s.r.r14, s.r.r15)
    ensures forall x :: x != errno && !BelowBy(s.r.rsp, 2, x) ==> c.mem(x) == s.mem(x)
  {
    c := CallStub(s, SYS_OPEN, ra, k);
    if Signed(c.r.rax) >= 0 {
      c := c.(r := c.r.(rdi := errno));
      c := Store(c, c.r.rdi, 0);
    } else {
      c := c.(r := c.r.(rax := Neg(c.r.rax)));
      c := c.(r := c.r.(rdi := errno));
      c := Store(c, c.r.rdi, c.r.rax);
      c := c.(r := c.r.(rax := Neg(1)));
    }
    c := Ret(c);
  }
}
