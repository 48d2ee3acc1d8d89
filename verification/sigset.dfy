/** The signal sets of libmini.c: bits in an array of 64-bit words, and the mathematical sets of
    signal numbers they stand for. The number of words, _NSIG_WORDS, is arbitrary. */
module SigSet {

  const BPW := 64  // _NSIG_BPW

  const ALL_ONES: bv64 := 0xffff_ffff_ffff_ffff

  // ----- Bits of one word -----

  /** Bit i of a word, as `1 & (w >> i)` reads it. */
  predicate Bit(w: bv64, i: bv6) {
    (w >> i) & 1 == 1
  }

  /** `w | 1UL << i`, and below `w & ~(1UL << i)`. */
  function Raised(w: bv64, i: bv6): bv64 {
    w | (1 << i)
  }

  function Lowered(w: bv64, i: bv6): bv64 {
    w & !(1 << i)
  }

  lemma BitRaised(w: bv64, i: bv6, j: bv6)
    ensures Bit(Raised(w, j), i) <==> Bit(w, i) || i == j
  {
    hide Bit, Raised;
    if i == j {
      BitSet(w, j);
    } else {
      BitStill(w, i, j);
    }
  }

  lemma BitSet(w: bv64, j: bv6)
    ensures Bit(Raised(w, j), j)
  {
  }

  lemma BitStill(w: bv64, i: bv6, j: bv6)
    requires i != j
    ensures Bit(Raised(w, j), i) <==> Bit(w, i)
  {
  }

  lemma BitLowered(w: bv64, i: bv6, j: bv6)
    ensures Bit(Lowered(w, j), i) <==> Bit(w, i) && i != j
  {
    hide Bit, Lowered;
    if i == j {
      BitCleared(w, j);
    } else {
      BitKept(w, i, j);
    }
  }

  lemma BitCleared(w: bv64, j: bv6)
    ensures !Bit(Lowered(w, j), j)
  {
  }

  lemma BitKept(w: bv64, i: bv6, j: bv6)
    requires i != j
    ensures Bit(Lowered(w, j), i) <==> Bit(w, i)
  {
  }

  lemma BitOfAll(i: bv6)
    ensures Bit(ALL_ONES, i) && !Bit(0, i)
  {
  }

  lemma OneBit(w: bv64, i: bv6)
    ensures 1 & (w >> i) == if Bit(w, i) then 1 else 0
  {
  }

  // ----- Words and sets -----

  function At(sig: nat): bv6 {
    (sig % BPW) as bv6
  }

  lemma IndexBack(i: nat)
    requires i < BPW
    ensures (i as bv6) as int == i
  {
  }

  lemma AtDiffers(x: nat, y: nat)
    requires x / BPW == y / BPW && x != y
    ensures At(x) != At(y)
  {
    IndexBack(x % BPW);
    IndexBack(y % BPW);
  }

  predicate InRange(s: int, n: nat) {
    1 <= s <= BPW * n
  }

  /** Signal number s is in the set that the words stand for. */
  predicate Has(words: seq<bv64>, s: int)
    requires InRange(s, |words|)
  {
    Bit(words[(s - 1) / BPW], At(s - 1))
  }

  ghost function Members(words: seq<bv64>): set<int> {
    set s | 1 <= s <= BPW * |words| && InRange(s, |words|) && Has(words, s)
  }

  /** Every signal number of n words. */
  ghost function Universe(n: nat): set<int> {
    set s | 1 <= s <= BPW * n && InRange(s, n)
  }

  datatype Op = Empty | Fill | Add(sig: int) | Del(sig: int)

  predicate Fits(op: Op, n: nat) {
    op.Add? || op.Del? ==> InRange(op.sig, n)
  }

  function Filled(n: nat, w: bv64): seq<bv64> {
    seq(n, i => w)
  }

  /** What the operations do to the words. */
  function Apply(words: seq<bv64>, op: Op): seq<bv64>
    requires Fits(op, |words|)
    ensures |Apply(words, op)| == |words|
  {
    match op
    case Empty => Filled(|words|, 0)
    case Fill => Filled(|words|, ALL_ONES)
    case Add(s) => words[(s - 1) / BPW := Raised(words[(s - 1) / BPW], At(s - 1))]
    case Del(s) => words[(s - 1) / BPW := Lowered(words[(s - 1) / BPW], At(s - 1))]
  }

  /** What they mean. */
  ghost function Meaning(members: set<int>, op: Op, n: nat): set<int> {
    match op
    case Empty => {}
    case Fill => Universe(n)
    case Add(s) => members + {s}
    case Del(s) => members - {s}
  }

  /** Each operation on the words is the set operation on the members. */
  lemma ApplyRefines(words: seq<bv64>, op: Op)
    requires Fits(op, |words|)
    ensures Members(Apply(words, op)) == Meaning(Members(words), op, |words|)
  {
    hide Bit, At, Raised, Lowered;
    forall t | InRange(t, |words|)
      ensures Has(Apply(words, op), t) <==> t in Meaning(Members(words), op, |words|)
    {
      assert t in Members(words) <==> Has(words, t);
      match op
      case Empty => BitOfAll(At(t - 1));
      case Fill => BitOfAll(At(t - 1));
      case Add(s) =>
        if (t - 1) / BPW == (s - 1) / BPW {
          BitRaised(words[(t - 1) / BPW], At(t - 1), At(s - 1));
          if t != s { AtDiffers(t - 1, s - 1); }
        }
      case Del(s) =>
        if (t - 1) / BPW == (s - 1) / BPW {
          BitLowered(words[(t - 1) / BPW], At(t - 1), At(s - 1));
          if t != s { AtDiffers(t - 1, s - 1); }
        }
    }
  }

  /** Signal s is bit (s - 1) % 64 of word (s - 1) / 64, as the kernel reads a set. */
  lemma AddToEmpty(n: nat, s: int)
    requires InRange(s, n)
    ensures |Apply(Filled(n, 0), Add(s))| == n
    ensures Apply(Filled(n, 0), Add(s))[(s - 1) / 64] == 1 << ((s - 1) % 64) as bv6
    ensures forall k :: 0 <= k < n && k != (s - 1) / 64 ==> Apply(Filled(n, 0), Add(s))[k] == 0
  {
    RaisedZero(At(s - 1));
  }

  lemma RaisedZero(j: bv6)
    ensures Raised(0, j) == 1 << j
  {
  }

  function ApplyAll(words: seq<bv64>, ops: seq<Op>): seq<bv64>
    requires forall k :: 0 <= k < |ops| ==> Fits(ops[k], |words|)
    ensures |ApplyAll(words, ops)| == |words|
    decreases |ops|
  {
    if ops == [] then words else ApplyAll(Apply(words, ops[0]), ops[1..])
  }

  ghost function MeaningAll(members: set<int>, ops: seq<Op>, n: nat): set<int>
    decreases |ops|
  {
    if ops == [] then members else MeaningAll(Meaning(members, ops[0], n), ops[1..], n)
  }

  /** So does any sequence of operations. */
  lemma {:induction false} SequenceRefines(words: seq<bv64>, ops: seq<Op>)
    requires forall k :: 0 <= k < |ops| ==> Fits(ops[k], |words|)
    ensures Members(ApplyAll(words, ops)) == MeaningAll(Members(words), ops, |words|)
    decreases |ops|
  {
    hide Members, Meaning, Apply;
    if ops != [] {
      ApplyRefines(words, ops[0]);
      SequenceRefines(Apply(words, ops[0]), ops[1..]);
    }
  }

  // ----- The operations in place -----

  method SigEmptySet(sig: array<bv64>)
    modifies sig
    ensures sig[..] == Apply(old(sig[..]), Empty)
  {
    if sig.Length == 2 {
      sig[1] := 0;
      sig[0] := 0;
    } else if sig.Length == 1 {
      sig[0] := 0;
    } else {
      for i := 0 to sig.Length
        invariant forall k :: 0 <= k < i ==> sig[k] == 0
      {
        sig[i] := 0;
      }
    }
  }

  method SigFillSet(sig: array<bv64>)
    modifies sig
    ensures sig[..] == Apply(old(sig[..]), Fill)
  {
    if sig.Length == 2 {
      sig[1] := ALL_ONES;
      sig[0] := ALL_ONES;
    } else if sig.Length == 1 {
      sig[0] := ALL_ONES;
    } else {
      for i := 0 to sig.Length
        invariant forall k :: 0 <= k < i ==> sig[k] == ALL_ONES
      {
        sig[i] := ALL_ONES;
      }
    }
  }

  method SigAddSet(sig: array<bv64>, s: int)
    requires InRange(s, sig.Length)
    modifies sig
    ensures sig[..] == Apply(old(sig[..]), Add(s))
  {
    hide Raised, Lowered;
    var k := s - 1;
    if sig.Length == 1 {
      sig[0] := Raised(sig[0], k as bv6);
    } else {
      sig[k / BPW] := Raised(sig[k / BPW], (k % BPW) as bv6);
    }
  }

  method SigDelSet(sig: array<bv64>, s: int)
    requires InRange(s, sig.Length)
    modifies sig
    ensures sig[..] == Apply(old(sig[..]), Del(s))
  {
    hide Raised, Lowered;
    var k := s - 1;
    if sig.Length == 1 {
      sig[0] := Lowered(sig[0], k as bv6);
    } else {
      sig[k / BPW] := Lowered(sig[k / BPW], (k % BPW) as bv6);
    }
  }

  /** 1 exactly for the members. */
  method SigIsMember(sig: array<bv64>, s: int) returns (r: bv64)
    requires InRange(s, sig.Length)
    ensures r == if s in Members(sig[..]) then 1 else 0
  {
    hide Bit, Members;
    var k := s - 1;
    if sig.Length == 1 {
      r := 1 & (sig[0] >> k as bv6);
    } else {
      r := 1 & (sig[k / BPW] >> (k % BPW) as bv6);
    }
    OneBit(sig[k / BPW], At(k));
    MemberIffHas(sig[..], s);
  }

  lemma MemberIffHas(words: seq<bv64>, s: int)
    requires InRange(s, |words|)
    ensures s in Members(words) <==> Bit(words[(s - 1) / BPW], At(s - 1))
  {
  }
}
