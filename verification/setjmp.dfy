/** setjmp and longjmp, instruction by instruction, and the non-local return they make together. */
module SetJmp {
  import opened X86

  // jmp_buf: rbx, rsp, rbp, r12, r13, r14, r15, the return address, the signal mask

  predicate EnvAligned(env: Word) {
    env % 8 == 0 && env + 72 <= TOP
  }

  predicate InEnv(env: int, x: int) {
    env <= x < env + 72
  }

  /** No word of env is among the word at top and the n words below it. */
  predicate Apart(env: int, top: int, n: nat) {
    env + 72 <= top - 8 * n || top + 8 <= env
  }

  function Env(mem: Mem, env: Word): seq<Word> {
    [mem(env), mem(env + 8), mem(env + 16), mem(env + 24), mem(env + 32),
     mem(env + 40), mem(env + 48), mem(env + 56), mem(env + 64)]
  }

  predicate SetjmpPre(s: State) {
    EnvAligned(s.r.rdi) && StackBelow(s.r.rsp, 4) && Apart(s.r.rdi, s.r.rsp, 4)
  }

  /** setjmp returns 0 to its caller with every callee-saved register, r10, rdi and the signal mask
      as they were; it has written env and four words of dead stack, and nothing else. The one system
      call is sigprocmask(SIG_SETMASK, NULL, &old) with masks of 8 bytes. */
  ghost predicate SetjmpPost(s: State, t: State)
    requires SetjmpPre(s)
  {
    && t.r.rax == 0 && t.r.rip == s.mem(s.r.rsp) && t.r.rsp == s.r.rsp + 8
    && (t.r.rbx, t.r.rbp, t.r.r12, t.r.r13) == (s.r.rbx, s.r.rbp, s.r.r12, s.r.r13)
    && (t.r.r14, t.r.r15, t.r.r10, t.r.rdi) == (s.r.r14, s.r.r15, s.r.r10, s.r.rdi)
    && t.mask == s.mask && t.naps == s.naps
    && t.asked == s.asked + [Request(14, 2, 0, s.r.rsp - 16, 8)]
    && Env(t.mem, s.r.rdi) == [s.r.rbx, s.r.rsp, s.r.rbp, s.r.r12, s.r.r13, s.r.r14, s.r.r15, s.mem(s.r.rsp), s.mask]
    && forall x :: !InEnv(s.r.rdi, x) && !BelowBy(s.r.rsp, 4, x) ==> t.mem(x) == s.mem(x)
  }

  predicate LongjmpPre(s: State) {
    && EnvAligned(s.r.rdi)
    && var top := Env(s.mem, s.r.rdi)[1];
       StackBelow(top, 3) && Apart(s.r.rdi, top, 3)
  }

  /** longjmp takes its registers, return address and mask from env and puts val in rax; it writes
      the return slot and three words below it, and nothing else. The one system call is
      sigprocmask(SIG_SETMASK, &env[8], NULL). */
  ghost predicate LongjmpPost(s: State, t: State)
    requires LongjmpPre(s)
  {
    var e := Env(s.mem, s.r.rdi);
    && t.r.rax == s.r.rsi && t.r.rip == e[7] && t.r.rsp == e[1] + 8
    && (t.r.rbx, t.r.rbp, t.r.r12, t.r.r13, t.r.r14, t.r.r15) == (e[0], e[2], e[3], e[4], e[5], e[6])
    && t.r.r10 == s.r.r10 && t.mask == Blockable(e[8]) && t.naps == s.naps
    && t.asked == s.asked + [Request(14, 2, s.r.rdi + 64, 0, 8)]
    && forall x :: x != e[1] && !BelowBy(e[1], 3, x) ==> t.mem(x) == s.mem(x)
  }

  /** The first half of setjmp: seven registers and the return address go to env. */
  method SaveRegisters(s: State) returns (c: State)
    requires SetjmpPre(s)
    ensures c == s.(mem := c.mem, r := s.r.(rax := s.mem(s.r.rsp)))
    ensures Env(c.mem, s.r.rdi)[..8] ==
            [s.r.rbx, s.r.rsp, s.r.rbp, s.r.r12, s.r.r13, s.r.r14, s.r.r15, s.mem(s.r.rsp)]
    ensures forall x :: !InEnv(s.r.rdi, x) ==> c.mem(x) == s.mem(x)
  {
    c := Store(s, s.r.rdi, s.r.rbx);
    c := Store(c, c.r.rdi + 8, c.r.rsp);
    c := Store(c, c.r.rdi + 16, c.r.rbp);
    c := Store(c, c.r.rdi + 24, c.r.r12);
    c := Store(c, c.r.rdi + 32, c.r.r13);
    c := Store(c, c.r.rdi + 40, c.r.r14);
    c := Store(c, c.r.rdi + 48, c.r.r15);
    c := c.(r := c.r.(rax := c.mem(c.r.rsp)));
    c := Store(c, c.r.rdi + 56, c.r.rax);
  }

  /** The second half: rt_sigprocmask, called with no new mask, writes the current one to a slot on
      the stack, and from there it goes to env. */
  method SaveMask(s: State, ra: Word, k: Answer) returns (c: State)
    requires SetjmpPre(s)
    ensures (c.r.rbx, c.r.rbp, c.r.r12, c.r.r13) == (s.r.rbx, s.r.rbp, s.r.r12, s.r.r13)
    ensures (c.r.r14, c.r.r15, c.r.r10, c.r.rdi) == (s.r.r14, s.r.r15, s.r.r10, s.r.rdi)
    ensures c.r.rsp == s.r.rsp && c.mask == s.mask && c.naps == s.naps
    ensures c.asked == s.asked + [Request(14, 2, 0, s.r.rsp - 16, 8)]
    ensures c.mem(s.r.rdi + 64) == s.mask
    ensures forall x :: x != s.r.rdi + 64 && !BelowBy(s.r.rsp, 4, x) ==> c.mem(x) == s.mem(x)
  {
    hide Blockable, Neg;
    c := Push(s, s.r.rdi);
    c := c.(r := c.r.(rdi := SIG_SETMASK));
    c := c.(r := c.r.(rsi := 0));
    c := c.(r := c.r.(rsp := c.r.rsp - 8));
    c := c.(r := c.r.(rdx := c.r.rsp));
    c := c.(r := c.r.(rcx := 8));
    c := CallStub(c, SYS_RT_SIGPROCMASK, ra, k);
    c := c.(r := c.r.(rax := c.mem(c.r.rsp)));
    c := c.(r := c.r.(rsp := c.r.rsp + 8));
    c := c.(r := c.r.(rdi := Top(c)));
    c := Drop(c);
    c := Store(c, c.r.rdi + 64, c.r.rax);
  }

  method Setjmp(s: State, ra: Word, k: Answer) returns (c: State)
    requires SetjmpPre(s)
    ensures SetjmpPost(s, c)
  {
    c := SaveRegisters(s);
    c := SaveMask(c, ra, k);
    c := c.(r := c.r.(rax := 0));
    c := Ret(c);
  }

  /** The first half of longjmp: registers from env, and env's return address put in the old slot. */
  method LoadRegisters(s: State) returns (c: State)
    requires LongjmpPre(s)
    ensures var e := Env(s.mem, s.r.rdi);
            c == s.(mem := Put(s.mem, e[1], e[7]),
                    r := s.r.(rax := e[7], rbx := e[0], rsp := e[1], rbp := e[2], r12 := e[3], r13 := e[4],
                              r14 := e[5], r15 := e[6]))
  {
    c := s.(r := s.r.(rbx := s.mem(s.r.rdi)));
    c := c.(r := c.r.(rsp := c.mem(c.r.rdi + 8)));
    c := c.(r := c.r.(rbp := c.mem(c.r.rdi + 16)));
    c := c.(r := c.r.(r12 := c.mem(c.r.rdi + 24)));
    c := c.(r := c.r.(r13 := c.mem(c.r.rdi + 32)));
    c := c.(r := c.r.(r14 := c.mem(c.r.rdi + 40)));
    c := c.(r := c.r.(r15 := c.mem(c.r.rdi + 48)));
    c := c.(r := c.r.(rax := Top(c)));
    c := Drop(c);
    c := c.(r := c.r.(rax := c.mem(c.r.rdi + 56)));
    c := Push(c, c.r.rax);
  }

  /** The second half: the mask in env becomes the signal mask; rsi survives on the stack. */
  method RestoreMask(s: State, ra: Word, k: Answer) returns (c: State)
    requires EnvAligned(s.r.rdi) && StackBelow(s.r.rsp, 3) && Apart(s.r.rdi, s.r.rsp, 3)
    ensures (c.r.rbx, c.r.rbp, c.r.r12, c.r.r13) == (s.r.rbx, s.r.rbp, s.r.r12, s.r.r13)
    ensures (c.r.r14, c.r.r15, c.r.r10, c.r.rsi) == (s.r.r14, s.r.r15, s.r.r10, s.r.rsi)
    ensures c.r.rsp == s.r.rsp && c.mask == Blockable(s.mem(s.r.rdi + 64)) && c.naps == s.naps
    ensures c.asked == s.asked + [Request(14, 2, s.r.rdi + 64, 0, 8)]
    ensures forall x :: !BelowBy(s.r.rsp, 3, x) ==> c.mem(x) == s.mem(x)
  {
    hide Blockable, Neg;
    c := Push(s, s.r.rsi);
    c := c.(r := c.r.(rsi := c.r.rdi + 64));
    c := c.(r := c.r.(rdi := SIG_SETMASK));
    c := c.(r := c.r.(rdx := 0));
    c := c.(r := c.r.(rcx := 8));
    c := CallStub(c, SYS_RT_SIGPROCMASK, ra, k);
    c := c.(r := c.r.(rsi := Top(c)));
    c := Drop(c);
  }

  method Longjmp(s: State, ra: Word, k: Answer) returns (c: State)
    requires LongjmpPre(s)
    ensures LongjmpPost(s, c)
  {
    hide Blockable;
    c := LoadRegisters(s);
    c := RestoreMask(c, ra, k);
    c := c.(r := c.r.(rax := c.r.rsi));
    c := Ret(c);
  }

  // ----- The non-local return -----

  /** Whatever ran since: env still holds what it held. */
  predicate EnvIntact(t: State, u: State, env: Word) {
    Env(u.mem, env) == Env(t.mem, env)
  }

  /** v is at the point to which setjmp, called in s, returned, with the result val. */
  predicate ResumedAt(s: State, v: State, val: Word) {
    && v.r.rax == val && v.r.rip == s.mem(s.r.rsp) && v.r.rsp == s.r.rsp + 8
    && (v.r.rbx, v.r.rbp, v.r.r12, v.r.r13, v.r.r14, v.r.r15) == (s.r.rbx, s.r.rbp, s.r.r12, s.r.r13, s.r.r14, s.r.r15)
    && v.mask == s.mask
  }

  /** longjmp on an intact env resumes where setjmp returned: same return address, stack pointer,
      callee-saved registers and signal mask, with val as result. Nothing is asked of the old return
      slot, of the registers or of the mask at the time of the longjmp. Env stays intact. */
  lemma LongjmpResumes(s: State, t: State, u: State, v: State)
    requires SetjmpPre(s) && SetjmpPost(s, t) && KernelMask(s.mask)
    requires u.r.rdi == s.r.rdi && EnvIntact(t, u, s.r.rdi)
    requires LongjmpPre(u) && LongjmpPost(u, v)
    ensures ResumedAt(s, t, 0) && ResumedAt(s, v, u.r.rsi)
    ensures EnvIntact(t, v, s.r.rdi)
  {
    hide KernelMask, Blockable;
    BlockableFixesIff(s.mask);
  }

  /** Whatever mask is in force at the time of the longjmp: exactly the signals that were blocked at the
      setjmp are blocked after it, but for SIGKILL and SIGSTOP. */
  lemma LongjmpSignals(s: State, t: State, u: State, v: State, sig: int)
    requires SetjmpPre(s) && SetjmpPost(s, t) && sig >= 1
    requires u.r.rdi == s.r.rdi && EnvIntact(t, u, s.r.rdi)
    requires LongjmpPre(u) && LongjmpPost(u, v)
    ensures Blocked(v.mask, sig) <==> Blocked(s.mask, sig) && sig != 9 && sig != 19
  {
    hide Blocked, Blockable;
    BlockableSignals(s.mask, sig);
  }

  /** The precondition of longjmp follows from that of setjmp: the stack words it needs are those
      that setjmp used. */
  lemma LongjmpMayRun(s: State, t: State, u: State)
    requires SetjmpPre(s) && SetjmpPost(s, t)
    requires u.r.rdi == s.r.rdi && EnvIntact(t, u, s.r.rdi)
    ensures LongjmpPre(u)
  {
  }

  /** A longjmp from before to after. */
  datatype Jump = Jump(before: State, after: State)

  /** Any number of jumps to one env, each from a state that has kept env as the last one left it. */
  ghost predicate Jumps(env: Word, t: State, jumps: seq<Jump>)
    decreases |jumps|
  {
    jumps == [] ||
    (&& jumps[0].before.r.rdi == env && EnvIntact(t, jumps[0].before, env)
     && LongjmpPre(jumps[0].before) && LongjmpPost(jumps[0].before, jumps[0].after)
     && Jumps(env, jumps[0].after, jumps[1..]))
  }

  /** Every one of them resumes where setjmp returned. */
  lemma {:induction false} EveryJumpResumes(s: State, t: State, now: State, jumps: seq<Jump>)
    requires SetjmpPre(s) && SetjmpPost(s, t) && KernelMask(s.mask)
    requires EnvIntact(t, now, s.r.rdi) && Jumps(s.r.rdi, now, jumps)
    ensures forall i :: 0 <= i < |jumps| ==> ResumedAt(s, jumps[i].after, jumps[i].before.r.rsi)
    decreases |jumps|
  {
    hide SetjmpPre, SetjmpPost, LongjmpPre, LongjmpPost, ResumedAt, KernelMask, EnvIntact;
    if jumps != [] {
      IntactFromBefore(t, now, jumps[0].before, s.r.rdi);
      LongjmpResumes(s, t, jumps[0].before, jumps[0].after);
      EveryJumpResumes(s, t, jumps[0].after, jumps[1..]);
      forall i | 0 < i < |jumps|
        ensures ResumedAt(s, jumps[i].after, jumps[i].before.r.rsi)
      {
        assert jumps[i] == jumps[1..][i - 1];
      }
    }
  }

  lemma IntactFromBefore(t: State, v: State, u: State, env: Word)
    requires EnvIntact(t, v, env) && EnvIntact(v, u, env)
    ensures EnvIntact(t, u, env)
  {
  }

  /** The int that setjmp must return after longjmp(env, val): section 7.13.2.1 of ISO C11. */
  function StandardResult(val: int): int {
    if val == 0 then 1 else val
  }

  /** The assembly returns what the standard asks for exactly when val is not 0. */
  lemma StandardResultIff(u: State, v: State)
    requires LongjmpPre(u) && LongjmpPost(u, v)
    ensures Low32(v.r.rax) == StandardResult(Low32(u.r.rsi)) <==> Low32(u.r.rsi) != 0
  {
  }
}
