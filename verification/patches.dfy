/** What the words that the debugger pokes and saves amount to byte by byte, when they are right, and
    what the order of the table has to do with it. */
module Patches {
  import opened Words
  import opened Text
  import opened Alternate

  // ----- When each byte is right: tests on addresses and original bytes -----

  /** Arming byte i of the word at l, on top of the bytes of mem. A byte with a breakpoint is right
      unless it is the top byte and has bits outside int3; a byte without one is right unless a far
      entry is taken for one there and int3 brings it something new. */
  ghost predicate ArmsRight(mem: Mem, addrs: seq<int>, l: int, i: nat) {
    if l + i in addrs then i < 7 || Within(Read(mem, l + i), CC)
    else HitsAt(addrs, l, i) ==> NothingNew(Read(mem, l + i), CC, i)
  }

  /** No entry that is taken to sit at the top byte of the word at l has bits outside t. */
  ghost predicate TopWithin(image: Mem, addrs: seq<int>, l: int, t: bv8) {
    forall k :: 0 <= k < |addrs| && Dist(addrs[k], l) == 7 ==> Within(Read(image, addrs[k]), t)
  }

  /** The entry whose byte ends up in byte i of the word at l, if any, has the right one. */
  predicate LastIsRight(image: Mem, addrs: seq<int>, l: int, i: nat) {
    var r := LastHit(addrs, l, i);
    r >= 0 ==> Read(image, addrs[r]) == Read(image, l + i)
  }

  /** Lifting byte i of the word at a breakpoint a. */
  ghost predicate LiftsRight(image: Mem, addrs: seq<int>, a: int, i: nat) {
    if i == 0 then true
    else if i < 7 then LastIsRight(image, addrs, a, i)
    else TopWithin(image, addrs, a, Read(image, a + 7))
  }

  /** Saving byte i of the word at a, read from patched memory. */
  ghost predicate SavesRight(mem: Mem, image: Mem, addrs: seq<int>, a: int, i: nat) {
    if i < 7 then LastIsRight(image, addrs, a, i)
    else Within(Read(mem, a + 7), Read(image, a + 7)) && TopWithin(image, addrs, a, Read(image, a + 7))
  }

  lemma DistHere(l: int, i: nat)
    requires i < 8
    ensures Dist(l + i, l) == i
  {
  }

  lemma InAddrsHits(addrs: seq<int>, l: int, i: nat)
    requires i < 8 && l + i in addrs
    ensures HitsAt(addrs, l, i)
    ensures LastHit(addrs, l, i) >= 0
  {
    var k :| 0 <= k < |addrs| && addrs[k] == l + i;
    DistHere(l, i);
    assert Dist(addrs[k], l) == i;
  }

  lemma SavedBytes(bps: seq<Breakpoint>, image: Mem, k: nat)
    requires Pristine(bps, image) && k < |bps|
    ensures NewByte(bps[k], false) == Read(image, bps[k].addr) && Mapped(image, bps[k].addr)
  {
    hide ByteAt, Peek;
    PeekBytes(image, bps[k].addr, 0);
  }

  // ----- The four words -----

  /** dump and disasm, and resetbreak when mem is the image itself: byte i of the word at l is the one
      of the fully armed text exactly when it is armed right. */
  lemma ArmedByteIff(mem: Mem, image: Mem, bps: seq<Breakpoint>, l: int, i: nat)
    requires Clean(mem, image, Addrs(bps)) && Mapped(mem, l) && i < 8
    ensures ByteAt(AlternateWord(Peek(mem, l), bps, l, true, true), i) == Armed(image, Elems(Addrs(bps)))[l + i] <==>
            ArmsRight(mem, Addrs(bps), l, i)
  {
    hide ByteAt, Peek, AlternateWord, Dist, Landed, NothingNew, Within, HitsAt;
    AlternateArms(Peek(mem, l), bps, l, true, i);
    PeekBytes(mem, l, i);
    LandedIff(mem[l + i], CC, i);
    LandedKeepsIff(mem[l + i], CC, i);
    if l + i in Addrs(bps) {
      InAddrsHits(Addrs(bps), l, i);
    }
  }

  /** deletebreak: the byte at the breakpoint is always the original one. */
  lemma UnplantedByteIff(image: Mem, bps: seq<Breakpoint>, a: int, i: nat)
    requires Mapped(image, a) && i < 8
    ensures ByteAt(AlternateWord(Peek(image, a), bps, a, true, false), i) ==
            Armed(image, Elems(Addrs(bps)) - {a})[a + i] <==>
            i == 0 || ArmsRight(image, Addrs(bps), a, i)
  {
    hide ByteAt, Peek, AlternateWord, Dist, Landed, NothingNew, Within, HitsAt;
    AlternateArms(Peek(image, a), bps, a, false, i);
    PeekBytes(image, a, i);
    LandedIff(image[a + i], CC, i);
    LandedKeepsIff(image[a + i], CC, i);
    if a + i in Addrs(bps) {
      InAddrsHits(Addrs(bps), a, i);
    }
  }

  /** restoreifbreak. */
  lemma LiftedByteIff(image: Mem, bps: seq<Breakpoint>, a: int, i: nat)
    requires Pristine(bps, image) && Mapped(image, a) && i < 8
    ensures ByteAt(AlternateWord(Peek(image, a), bps, a, false, false), i) == image[a + i] <==>
            LiftsRight(image, Addrs(bps), a, i)
  {
    hide ByteAt, Peek, AlternateWord, Dist, Within, NewByte;
    PeekBytes(image, a, i);
    if i < 7 {
      AlternateLast(Peek(image, a), bps, a, false, false, i);
      LastSaved(bps, image, a, i);
    } else {
      TopByteIff(Peek(image, a), image, bps, a, false, image[a + 7]);
      WithinSelf(image[a + 7]);
    }
  }

  /** setbreak: the word is peeked from patched memory. */
  lemma SavedByteIff(mem: Mem, image: Mem, bps: seq<Breakpoint>, a: int, i: nat)
    requires Clean(mem, image, Addrs(bps)) && Pristine(bps, image) && Mapped(mem, a) && i < 8
    ensures ByteAt(AlternateWord(Peek(mem, a), bps, a, false, true), i) == image[a + i] <==>
            SavesRight(mem, image, Addrs(bps), a, i)
  {
    hide ByteAt, Peek, AlternateWord, Dist, Within, NewByte;
    PeekBytes(mem, a, i);
    if a + i in Addrs(bps) {
      InAddrsHits(Addrs(bps), a, i);
    }
    if i < 7 {
      AlternateLast(Peek(mem, a), bps, a, false, true, i);
      LastSaved(bps, image, a, i);
    } else {
      TopByteIff(Peek(mem, a), image, bps, a, true, image[a + 7]);
    }
  }

  lemma LastSaved(bps: seq<Breakpoint>, image: Mem, a: int, i: nat)
    requires Pristine(bps, image)
    ensures var r := LastHit(Addrs(bps), a, i);
            r >= 0 ==> NewByte(bps[r], false) == Read(image, Addrs(bps)[r])
  {
    hide NewByte, Read;
    var r := LastHit(Addrs(bps), a, i);
    if r >= 0 {
      SavedBytes(bps, image, r);
    }
  }

  /** The top byte comes out as t exactly when the byte before and all entries taken to sit there are
      within t, provided t is the byte before or the byte of the breakpoint that does sit there. */
  lemma TopByteIff(code: bv64, image: Mem, bps: seq<Breakpoint>, l: int, self: bool, t: bv8)
    requires Pristine(bps, image) && t == Read(image, l + 7)
    requires ByteAt(code, 7) == t || l + 7 in Addrs(bps)
    ensures ByteAt(AlternateWord(code, bps, l, false, self), 7) == t <==>
            Within(ByteAt(code, 7), t) && TopWithin(image, Addrs(bps), l, t)
  {
    hide ByteAt, AlternateWord, Dist, Within, NewByte, Read;
    var r := ByteAt(AlternateWord(code, bps, l, false, self), 7);
    AlternateTop(code, bps, l, false, self, t);
    AlternateTop(code, bps, l, false, self, r);
    WithinSelf(r);
    WithinBoth(r, t);
    forall k | 0 <= k < |bps|
      ensures NewByte(bps[k], false) == Read(image, Addrs(bps)[k]) && Dist(bps[k].addr, l) == Dist(Addrs(bps)[k], l)
    {
      SavedBytes(bps, image, k);
    }
    if l + 7 in Addrs(bps) {
      var k :| 0 <= k < |bps| && Addrs(bps)[k] == l + 7;
      DistHere(l, 7);
      assert Dist(bps[k].addr, l) == 7;
    }
  }

  // ----- The four pokes -----

  /** resetbreak: the poke makes the word fully armed exactly when each of its bytes is armed right. */
  lemma RearmIff(mem: Mem, image: Mem, bps: seq<Breakpoint>, a: int)
    requires |mem| == |image| && Mapped(image, a)
    ensures Poke(mem, a, AlternateWord(Peek(image, a), bps, a, true, true)) ==
            Overlay(mem, Armed(image, Elems(Addrs(bps))), a) <==>
            forall i: nat :: i < 8 ==> ArmsRight(image, Addrs(bps), a, i)
  {
    hide ByteAt, Peek, AlternateWord, ArmsRight;
    var w, goal := AlternateWord(Peek(image, a), bps, a, true, true), Armed(image, Elems(Addrs(bps)));
    forall i: nat | i < 8
      ensures ByteAt(w, i) == goal[a + i] <==> ArmsRight(image, Addrs(bps), a, i)
    {
      ArmedByteIff(image, image, bps, a, i);
    }
    PokeIsOverlayIff(mem, goal, a, w);
  }

  /** deletebreak: the poke arms the neighbours and gives the deleted address its own byte back,
      exactly when each neighbour's byte is armed right. */
  lemma UnplantIff(mem: Mem, image: Mem, bps: seq<Breakpoint>, a: int)
    requires |mem| == |image| && Mapped(image, a)
    ensures Poke(mem, a, AlternateWord(Peek(image, a), bps, a, true, false)) ==
            Overlay(mem, Armed(image, Elems(Addrs(bps)) - {a}), a) <==>
            forall i: nat :: 1 <= i < 8 ==> ArmsRight(image, Addrs(bps), a, i)
  {
    hide ByteAt, Peek, AlternateWord, ArmsRight;
    var w, goal := AlternateWord(Peek(image, a), bps, a, true, false), Armed(image, Elems(Addrs(bps)) - {a});
    forall i: nat | i < 8
      ensures ByteAt(w, i) == goal[a + i] <==> i == 0 || ArmsRight(image, Addrs(bps), a, i)
    {
      UnplantedByteIff(image, bps, a, i);
    }
    PokeIsOverlayIff(mem, goal, a, w);
  }

  /** restoreifbreak: the poke gives the whole word its original bytes exactly when each byte is lifted
      right: always, then, unless a far entry is taken for a near one. */
  lemma LiftIff(mem: Mem, image: Mem, bps: seq<Breakpoint>, a: int)
    requires |mem| == |image| && Mapped(image, a) && Pristine(bps, image)
    ensures Poke(mem, a, AlternateWord(Peek(image, a), bps, a, false, false)) == Overlay(mem, image, a) <==>
            forall i: nat :: i < 8 ==> LiftsRight(image, Addrs(bps), a, i)
  {
    hide ByteAt, Peek, AlternateWord, LiftsRight, Pristine;
    var w := AlternateWord(Peek(image, a), bps, a, false, false);
    forall i: nat | i < 8
      ensures ByteAt(w, i) == image[a + i] <==> LiftsRight(image, Addrs(bps), a, i)
    {
      LiftedByteIff(image, bps, a, i);
    }
    PokeIsOverlayIff(mem, image, a, w);
  }

  /** setbreak: the word saved from patched memory is the original word exactly when each byte is
      saved right. */
  lemma SavedWordIff(mem: Mem, image: Mem, bps: seq<Breakpoint>, a: int)
    requires Clean(mem, image, Addrs(bps)) && Pristine(bps, image) && Mapped(mem, a)
    ensures AlternateWord(Peek(mem, a), bps, a, false, true) == Peek(image, a) <==>
            forall i: nat :: i < 8 ==> SavesRight(mem, image, Addrs(bps), a, i)
  {
    hide ByteAt, Peek, AlternateWord, SavesRight, Pristine;
    var w := AlternateWord(Peek(mem, a), bps, a, false, true);
    forall i: nat | i < 8
      ensures ByteAt(w, i) == image[a + i] <==> SavesRight(mem, image, Addrs(bps), a, i)
    {
      SavedByteIff(mem, image, bps, a, i);
    }
    IsPeekIff(image, a, w);
  }

  /** setbreak and setallbreak: the poke plants int3 on one byte and writes seven bytes of src. */
  lemma PlantWord(mem: Mem, src: Mem, a: int)
    requires Mapped(src, a) && |mem| == |src|
    ensures Poke(mem, a, Planted(Peek(src, a))) == Overlay(mem, Armed(src, {a}), a)
  {
    hide ByteAt, Planted, Compose;
    forall i: nat | i < 8
      ensures ByteAt(Planted(Peek(src, a)), i) == Armed(src, {a})[a + i]
    {
      PlantedBytes(Peek(src, a), i);
      PeekBytes(src, a, i);
    }
    PokeIsOverlayIff(mem, Armed(src, {a}), a, Planted(Peek(src, a)));
  }

  // ----- Tables on which the pokes are right, now and after any deletes -----

  /** The word at a is poked right with b in the table: b is out of its reach; or b sits in it, and if
      on the top byte then with no bit outside int3; or b is far and what it brings is there anyway. */
  predicate PairSafe(image: Mem, a: int, b: int) {
    var d := Dist(b, a);
    1 <= d < 8 ==>
      if b == a + d then d < 7 || Within(Read(image, b), CC)
      else
        NothingNew(Read(image, a + d), CC, d) && NothingNew(Read(image, a + d), Read(image, b), d)
  }

  ghost predicate Safe(image: Mem, addrs: seq<int>) {
    && Distinct(addrs)
    && forall i, j :: 0 <= i < |addrs| && 0 <= j < |addrs| ==> PairSafe(image, addrs[i], addrs[j])
  }

  /** Every word that re-arming, lifting and deleting would poke is right. */
  ghost predicate PokesRight(image: Mem, addrs: seq<int>) {
    forall a, i: nat :: a in addrs && i < 8 ==> ArmsRight(image, addrs, a, i) && LiftsRight(image, addrs, a, i)
  }

  ghost predicate SubTable(sub: seq<int>, addrs: seq<int>) {
    Distinct(sub) && forall a :: a in sub ==> a in addrs
  }

  lemma SafePair(image: Mem, addrs: seq<int>, a: int, b: int)
    requires Safe(image, addrs) && a in addrs && b in addrs
    ensures PairSafe(image, a, b)
  {
  }

  lemma SafeArms(image: Mem, addrs: seq<int>, a: int, i: nat)
    requires Safe(image, addrs) && a in addrs && i < 8
    ensures ArmsRight(image, addrs, a, i)
  {
    hide Safe, Dist, Within, Read;
    if a + i in addrs {
      SafePair(image, addrs, a, a + i);
      DistHere(a, i);
    } else if HitsAt(addrs, a, i) {
      var k :| 0 <= k < |addrs| && Dist(addrs[k], a) == i;
      SafePair(image, addrs, a, addrs[k]);
    }
  }

  lemma SafeLifts(image: Mem, addrs: seq<int>, a: int, i: nat)
    requires Safe(image, addrs) && a in addrs && i < 8
    ensures LiftsRight(image, addrs, a, i)
  {
    hide Safe, Dist, Within, Read;
    forall k | 0 <= k < |addrs| && Dist(addrs[k], a) == i && i > 0
      ensures if i < 7 then Read(image, addrs[k]) == Read(image, a + i) else Within(Read(image, addrs[k]), Read(image, a + i))
    {
      SafePair(image, addrs, a, addrs[k]);
      WithinSelf(Read(image, a + i));
    }
  }

  /** A table is safe exactly when every poke is right for it and for every table that deletes can
      leave of it. */
  lemma SafeIff(image: Mem, addrs: seq<int>)
    requires Distinct(addrs)
    ensures Safe(image, addrs) <==> forall sub :: SubTable(sub, addrs) ==> PokesRight(image, sub)
  {
    hide PairSafe, ArmsRight, LiftsRight;
    if Safe(image, addrs) {
      forall sub | SubTable(sub, addrs)
        ensures PokesRight(image, sub)
      {
        SafeSub(image, addrs, sub);
        forall a, i: nat | a in sub && i < 8
          ensures ArmsRight(image, sub, a, i) && LiftsRight(image, sub, a, i)
        {
          SafeArms(image, sub, a, i);
          SafeLifts(image, sub, a, i);
        }
      }
    }
    if forall sub :: SubTable(sub, addrs) ==> PokesRight(image, sub) {
      forall i, j | 0 <= i < |addrs| && 0 <= j < |addrs|
        ensures PairSafe(image, addrs[i], addrs[j])
      {
        PairFromPokes(image, addrs, addrs[i], addrs[j]);
      }
    }
  }

  lemma SafeSub(image: Mem, addrs: seq<int>, sub: seq<int>)
    requires Safe(image, addrs) && SubTable(sub, addrs)
    ensures Safe(image, sub)
  {
    hide PairSafe;
    forall i, j | 0 <= i < |sub| && 0 <= j < |sub|
      ensures PairSafe(image, sub[i], sub[j])
    {
      SafePair(image, addrs, sub[i], sub[j]);
    }
  }

  lemma PairFromPokes(image: Mem, addrs: seq<int>, a: int, b: int)
    requires a in addrs && b in addrs
    requires forall sub :: SubTable(sub, addrs) ==> PokesRight(image, sub)
    ensures PairSafe(image, a, b)
  {
    hide Dist, Within, Read, ArmsRight, LiftsRight;
    var d := Dist(b, a);
    if 1 <= d < 8 {
      DistHere(a, 0);
      assert SubTable([a, b], addrs);
      assert PokesRight(image, [a, b]);
      assert ArmsRight(image, [a, b], a, d) && LiftsRight(image, [a, b], a, d);
      PairOfTwo(image, a, b, d);
    }
  }

  lemma PairOfTwo(image: Mem, a: int, b: int, d: nat)
    requires 1 <= d < 8 && Dist(b, a) == d
    requires ArmsRight(image, [a, b], a, d) && LiftsRight(image, [a, b], a, d)
    ensures PairSafe(image, a, b)
  {
    hide Dist, Within, Read;
    assert [a, b][1] == b;
  }

  // ----- Order and repetition -----

  lemma {:induction false} DistinctOnce(bps: seq<Breakpoint>, b: Breakpoint)
    requires Distinct(Addrs(bps))
    ensures multiset(bps)[b] <= 1
  {
    if bps != [] {
      var n := |bps| - 1;
      assert bps == bps[..n] + [bps[n]];
      assert Addrs(bps[..n]) == Addrs(bps)[..n];
      DistinctOnce(bps[..n], b);
      assert forall k :: 0 <= k < n ==> Addrs(bps)[k] != Addrs(bps)[n];
      assert bps[n] !in bps[..n];
    }
  }

  /** A permutation of a table with distinct addresses has distinct addresses. */
  lemma PermutedDistinct(bps: seq<Breakpoint>, perm: seq<Breakpoint>)
    requires Distinct(Addrs(bps)) && multiset(perm) == multiset(bps)
    ensures Distinct(Addrs(perm))
    ensures forall a {:trigger a in Addrs(perm)} {:trigger a in Addrs(bps)} :: a in Addrs(perm) <==> a in Addrs(bps)
  {
    forall i, j | 0 <= i < j < |perm|
      ensures perm[i].addr != perm[j].addr
    {
      if perm[i] == perm[j] {
        assert perm == perm[..j] + perm[j..];
        assert perm[i] in perm[..j] && perm[j] in perm[j..];
        DistinctOnce(bps, perm[i]);
        assert false;
      } else {
        assert perm[i] in multiset(perm) && perm[j] in multiset(perm);
        var k, m :| 0 <= k < |bps| && bps[k] == perm[i] && 0 <= m < |bps| && bps[m] == perm[j];
        assert Addrs(bps)[k] != Addrs(bps)[m];
      }
    }
    forall a
      ensures a in Addrs(perm) <==> a in Addrs(bps)
    {
      if a in Addrs(perm) {
        var k :| 0 <= k < |perm| && Addrs(perm)[k] == a;
        assert perm[k] in multiset(bps);
        var m :| 0 <= m < |bps| && bps[m] == perm[k];
        assert Addrs(bps)[m] == a;
      }
      if a in Addrs(bps) {
        var k :| 0 <= k < |bps| && Addrs(bps)[k] == a;
        assert bps[k] in multiset(perm);
        var m :| 0 <= m < |perm| && perm[m] == bps[k];
        assert Addrs(perm)[m] == a;
      }
    }
  }

  /** Entries taken to sit at the same one of the lower seven bytes bring the same byte. */
  ghost predicate Agree(bps: seq<Breakpoint>, l: int, toCC: bool, self: bool) {
    forall j, k :: 0 <= j < |bps| && 0 <= k < |bps| ==> AgreePair(bps[j], bps[k], l, toCC, self)
  }

  predicate AgreePair(b: Breakpoint, c: Breakpoint, l: int, toCC: bool, self: bool) {
    var d := Dist(b.addr, l);
    (if self then 0 else 1) <= d < 7 && d == Dist(c.addr, l) ==> NewByte(b, toCC) == NewByte(c, toCC)
  }

  ghost predicate AnyOrder(code: bv64, bps: seq<Breakpoint>, l: int, toCC: bool, self: bool) {
    forall perm :: multiset(perm) == multiset(bps) ==>
      AlternateWord(code, perm, l, toCC, self) == AlternateWord(code, bps, l, toCC, self)
  }

  /** alternate gives the same word for every order of the table exactly when entries taken to sit at
      the same byte agree: so always when it arms, and always for distinct addresses in reach. */
  lemma AlternateAnyOrderIff(code: bv64, bps: seq<Breakpoint>, l: int, toCC: bool, self: bool)
    ensures AnyOrder(code, bps, l, toCC, self) <==> Agree(bps, l, toCC, self)
    ensures toCC ==> Agree(bps, l, toCC, self)
  {
    hide AlternateWord, AgreePair;
    if Agree(bps, l, toCC, self) {
      forall perm | multiset(perm) == multiset(bps)
        ensures AlternateWord(code, perm, l, toCC, self) == AlternateWord(code, bps, l, toCC, self)
      {
        AgreeSameWord(code, bps, perm, l, toCC, self);
      }
    }
    if AnyOrder(code, bps, l, toCC, self) {
      forall j, k | 0 <= j < |bps| && 0 <= k < |bps|
        ensures AgreePair(bps[j], bps[k], l, toCC, self)
      {
        OrderShowsPair(code, bps, j, k, l, toCC, self);
      }
    }
    assert toCC ==> Agree(bps, l, toCC, self) by {
      if toCC {
        forall j, k | 0 <= j < |bps| && 0 <= k < |bps|
          ensures AgreePair(bps[j], bps[k], l, toCC, self)
        {
          ArmingAgrees(bps[j], bps[k], l, self);
        }
      }
    }
  }

  lemma ArmingAgrees(b: Breakpoint, c: Breakpoint, l: int, self: bool)
    ensures AgreePair(b, c, l, true, self)
  {
  }

  /** The table with entry j moved to the end. */
  function MovedLast(bps: seq<Breakpoint>, j: nat): (r: seq<Breakpoint>)
    requires j < |bps|
    ensures multiset(r) == multiset(bps) && |r| == |bps| && r[|r| - 1] == bps[j]
  {
    assert bps == bps[..j] + [bps[j]] + bps[j + 1..];
    bps[..j] + bps[j + 1..] + [bps[j]]
  }

  lemma LastDecides(code: bv64, bps: seq<Breakpoint>, l: int, toCC: bool, self: bool, d: nat)
    requires bps != [] && d < 7 && Dist(bps[|bps| - 1].addr, l) == d && (d > 0 || self)
    ensures ByteAt(AlternateWord(code, bps, l, toCC, self), d) == NewByte(bps[|bps| - 1], toCC)
  {
    hide ByteAt, AlternateWord, Dist, NewByte;
    AlternateLast(code, bps, l, toCC, self, d);
    assert Addrs(bps)[|bps| - 1] == bps[|bps| - 1].addr;
  }

  lemma OrderShowsPair(code: bv64, bps: seq<Breakpoint>, j: nat, k: nat, l: int, toCC: bool, self: bool)
    requires AnyOrder(code, bps, l, toCC, self) && j < |bps| && k < |bps|
    ensures AgreePair(bps[j], bps[k], l, toCC, self)
  {
    hide ByteAt, AlternateWord, Dist, NewByte;
    var d := Dist(bps[j].addr, l);
    if (if self then 0 else 1) <= d < 7 && d == Dist(bps[k].addr, l) {
      LastDecides(code, MovedLast(bps, j), l, toCC, self, d);
      LastDecides(code, MovedLast(bps, k), l, toCC, self, d);
    }
  }

  lemma AgreeSameWord(code: bv64, bps: seq<Breakpoint>, perm: seq<Breakpoint>, l: int, toCC: bool, self: bool)
    requires Agree(bps, l, toCC, self) && multiset(perm) == multiset(bps)
    ensures AlternateWord(code, perm, l, toCC, self) == AlternateWord(code, bps, l, toCC, self)
  {
    hide ByteAt, AlternateWord, Agree;
    var v, w := AlternateWord(code, perm, l, toCC, self), AlternateWord(code, bps, l, toCC, self);
    forall i: nat | i < 7
      ensures ByteAt(v, i) == ByteAt(w, i)
    {
      AgreeSameByte(code, bps, perm, l, toCC, self, i);
    }
    SameTop(code, bps, perm, l, toCC, self);
    BytesDetermine(v, w);
  }

  lemma InPermuted(bps: seq<Breakpoint>, perm: seq<Breakpoint>, k: nat) returns (m: nat)
    requires multiset(perm) == multiset(bps) && k < |bps|
    ensures m < |perm| && perm[m] == bps[k]
  {
    assert bps[k] in multiset(perm);
    m :| 0 <= m < |perm| && perm[m] == bps[k];
  }

  lemma AgreeSameByte(code: bv64, bps: seq<Breakpoint>, perm: seq<Breakpoint>, l: int, toCC: bool, self: bool, i: nat)
    requires Agree(bps, l, toCC, self) && multiset(perm) == multiset(bps) && i < 7
    ensures ByteAt(AlternateWord(code, perm, l, toCC, self), i) == ByteAt(AlternateWord(code, bps, l, toCC, self), i)
  {
    hide ByteAt, AlternateWord, Dist, NewByte;
    AlternateLast(code, bps, l, toCC, self, i);
    AlternateLast(code, perm, l, toCC, self, i);
    var r, q := LastHit(Addrs(bps), l, i), LastHit(Addrs(perm), l, i);
    if r >= 0 {
      var m := InPermuted(bps, perm, r);
      assert Dist(Addrs(perm)[m], l) == i;
    }
    if q >= 0 {
      var m := InPermuted(perm, bps, q);
      assert Dist(Addrs(bps)[m], l) == i;
      assert AgreePair(bps[r], bps[m], l, toCC, self);
    }
  }

  lemma SameTop(code: bv64, bps: seq<Breakpoint>, perm: seq<Breakpoint>, l: int, toCC: bool, self: bool)
    requires multiset(perm) == multiset(bps)
    ensures ByteAt(AlternateWord(code, perm, l, toCC, self), 7) == ByteAt(AlternateWord(code, bps, l, toCC, self), 7)
  {
    hide ByteAt, AlternateWord, Within;
    var v, w := ByteAt(AlternateWord(code, perm, l, toCC, self), 7), ByteAt(AlternateWord(code, bps, l, toCC, self), 7);
    TopIsWithin(code, bps, perm, l, toCC, self);
    TopIsWithin(code, perm, bps, l, toCC, self);
    WithinBoth(v, w);
  }

  lemma TopIsWithin(code: bv64, bps: seq<Breakpoint>, perm: seq<Breakpoint>, l: int, toCC: bool, self: bool)
    requires multiset(perm) == multiset(bps)
    ensures Within(ByteAt(AlternateWord(code, bps, l, toCC, self), 7), ByteAt(AlternateWord(code, perm, l, toCC, self), 7))
  {
    hide ByteAt, AlternateWord, Within, Dist, NewByte;
    var t := ByteAt(AlternateWord(code, perm, l, toCC, self), 7);
    AlternateTop(code, bps, l, toCC, self, t);
    AlternateTop(code, perm, l, toCC, self, t);
    WithinSelf(t);
    forall k | 0 <= k < |bps| && Dist(bps[k].addr, l) == 7
      ensures Within(NewByte(bps[k], toCC), t)
    {
      var m := InPermuted(bps, perm, k);
    }
  }

  /** Running alternate on its own result changes nothing, even where it only ORs. */
  lemma AlternateTwice(code: bv64, bps: seq<Breakpoint>, l: int, toCC: bool, self: bool)
    ensures var w := AlternateWord(code, bps, l, toCC, self);
            AlternateWord(w, bps, l, toCC, self) == w
  {
    hide ByteAt, AlternateWord, Within, Dist, NewByte;
    var w := AlternateWord(code, bps, l, toCC, self);
    var v := AlternateWord(w, bps, l, toCC, self);
    forall i: nat | i < 7
      ensures ByteAt(v, i) == ByteAt(w, i)
    {
      AlternateLast(code, bps, l, toCC, self, i);
      AlternateLast(w, bps, l, toCC, self, i);
    }
    AlternateTop(code, bps, l, toCC, self, ByteAt(w, 7));
    AlternateTop(w, bps, l, toCC, self, ByteAt(w, 7));
    AlternateTop(w, bps, l, toCC, self, ByteAt(v, 7));
    WithinSelf(ByteAt(w, 7));
    WithinSelf(ByteAt(v, 7));
    WithinBoth(ByteAt(v, 7), ByteAt(w, 7));
    BytesDetermine(v, w);
  }
}
