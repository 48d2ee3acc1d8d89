/** The breakpoint table and the loop that arms or disarms every breakpoint inside one word
    (alternate). */
module Alternate {
  import opened Words
  import opened Text

  datatype Breakpoint = Breakpoint(addr: int, code: bv64)

  function Addrs(bps: seq<Breakpoint>): (r: seq<int>)
    ensures |r| == |bps|
    ensures forall k :: 0 <= k < |bps| ==> r[k] == bps[k].addr
  {
    seq(|bps|, k requires 0 <= k < |bps| => bps[k].addr)
  }

  /** `int dist = addr - lladdr`: 64-bit wrapping subtraction kept to its low 32 bits, signed. */
  function Dist(addr: int, lladdr: int): int {
    var d := (addr - lladdr) % 0x1_0000_0000;
    if d < 0x8000_0000 then d else d - 0x1_0000_0000
  }

  predicate Hits(addr: int, lladdr: int, includeSelf: bool) {
    (if includeSelf then 0 else 1) <= Dist(addr, lladdr) < 8
  }

  function NewByte(b: Breakpoint, toCC: bool): bv8 {
    if toCC then CC else ByteAt(b.code, 0)
  }

  /** One round of the loop. */
  function AlterOne(code: bv64, b: Breakpoint, lladdr: int, toCC: bool, includeSelf: bool): bv64 {
    if Hits(b.addr, lladdr, includeSelf)
    then AlterPart(code, Dist(b.addr, lladdr) + 1, if toCC then 0xcc else b.code & 0xff)
    else code
  }

  /** The loop over the table, oldest breakpoint first. */
  function AlternateWord(code: bv64, bps: seq<Breakpoint>, lladdr: int, toCC: bool, includeSelf: bool): bv64 {
    if bps == [] then code
    else AlterOne(AlternateWord(code, bps[..|bps| - 1], lladdr, toCC, includeSelf),
                  bps[|bps| - 1], lladdr, toCC, includeSelf)
  }

  method AlternateLoop(code: bv64, bps: seq<Breakpoint>, lladdr: int, toCC: bool, includeSelf: bool)
    returns (r: bv64)
    ensures r == AlternateWord(code, bps, lladdr, toCC, includeSelf)
  {
    r := code;
    var s := if includeSelf then 0 else 1;
    for id := 0 to |bps|
      invariant r == AlternateWord(code, bps[..id], lladdr, toCC, includeSelf)
    {
      assert bps[..id + 1][..id] == bps[..id];
      var dist := Dist(bps[id].addr, lladdr);
      if dist >= s && dist < 8 {
        var newCode := if toCC then 0xcc else bps[id].code & 0xff;
        r := AlterPart(r, dist + 1, newCode);
      }
    }
    assert bps[..|bps|] == bps;
  }

  ghost predicate Distinct(addrs: seq<int>) {
    forall i, j :: 0 <= i < j < |addrs| ==> addrs[i] != addrs[j]
  }

  /** Some entry seems to sit i bytes up from l: one that does, or one a multiple of 2^32 away. */
  predicate HitsAt(addrs: seq<int>, l: int, i: int) {
    exists k :: 0 <= k < |addrs| && Dist(addrs[k], l) == i
  }

  /** The last entry that seems to sit i bytes up from l, or -1. */
  function LastHit(addrs: seq<int>, l: int, i: int): (r: int)
    ensures -1 <= r < |addrs|
    ensures r >= 0 ==> Dist(addrs[r], l) == i
    ensures forall k :: r < k < |addrs| ==> Dist(addrs[k], l) != i
  {
    if addrs == [] then -1
    else if Dist(addrs[|addrs| - 1], l) == i then |addrs| - 1
    else LastHit(addrs[..|addrs| - 1], l, i)
  }

  /** The saved word of every breakpoint is the full original word at its address. */
  ghost predicate Pristine(bps: seq<Breakpoint>, image: Mem) {
    forall k :: 0 <= k < |bps| ==> Mapped(image, bps[k].addr) && bps[k].code == Peek(image, bps[k].addr)
  }

  /** The distance is the true one up to a multiple of 2^32, and fits in a signed int; so an entry is
      taken to sit i bytes up from l exactly when it does so up to a multiple of 2^32. */
  lemma DistIff(addr: int, l: int, i: int)
    requires -0x8000_0000 <= i < 0x8000_0000
    ensures -0x8000_0000 <= Dist(addr, l) < 0x8000_0000
    ensures Dist(addr, l) == i <==> (addr - l - i) % 0x1_0000_0000 == 0
  {
  }

  lemma DistNear(addr: int, lladdr: int)
    ensures -0x8000_0000 <= addr - lladdr < 0x8000_0000 ==> Dist(addr, lladdr) == addr - lladdr
  {
  }

  lemma NewCode(b: Breakpoint, toCC: bool)
    ensures (if toCC then 0xcc else b.code & 0xff) == NewByte(b, toCC) as bv64
  {
    LowByte(b.code);
  }

  lemma AlterOneIs(code: bv64, b: Breakpoint, lladdr: int, toCC: bool, includeSelf: bool)
    ensures AlterOne(code, b, lladdr, toCC, includeSelf) ==
            if Hits(b.addr, lladdr, includeSelf)
            then AlterPart(code, Dist(b.addr, lladdr) + 1, NewByte(b, toCC) as bv64) else code
  {
    hide ByteAt, NewByte, AlterPart, Dist;
    NewCode(b, toCC);
  }

  lemma AlterOneByte(code: bv64, b: Breakpoint, lladdr: int, toCC: bool, includeSelf: bool, i: nat)
    requires i < 8
    ensures ByteAt(AlterOne(code, b, lladdr, toCC, includeSelf), i) ==
            if Dist(b.addr, lladdr) == i && (i > 0 || includeSelf)
            then Landed(ByteAt(code, i), NewByte(b, toCC), i) else ByteAt(code, i)
  {
    hide ByteAt, NewByte, AlterPart, AlterOne, Landed, Dist;
    AlterOneIs(code, b, lladdr, toCC, includeSelf);
    if Hits(b.addr, lladdr, includeSelf) {
      AlterPartBytes(code, Dist(b.addr, lladdr) + 1, NewByte(b, toCC), i);
    }
  }

  lemma AddrsInit(bps: seq<Breakpoint>)
    requires bps != []
    ensures Addrs(bps[..|bps| - 1]) == Addrs(bps)[..|bps| - 1]
  {
  }

  /** Arming: byte i gets int3 exactly when some entry seems to sit there, near or far. */
  lemma {:induction false} AlternateArms(code: bv64, bps: seq<Breakpoint>, l: int, includeSelf: bool, i: nat)
    requires i < 8
    ensures ByteAt(AlternateWord(code, bps, l, true, includeSelf), i) ==
            if HitsAt(Addrs(bps), l, i) && (i > 0 || includeSelf) then Landed(ByteAt(code, i), CC, i) else ByteAt(code, i)
  {
    hide ByteAt, Landed, Dist, AlterOne;
    if bps != [] {
      var n := |bps| - 1;
      AddrsInit(bps);
      AlternateArms(code, bps[..n], l, includeSelf, i);
      AlterOneByte(AlternateWord(code, bps[..n], l, true, includeSelf), bps[n], l, true, includeSelf, i);
      LandedTwice(ByteAt(code, i), CC, i);
      assert Addrs(bps)[n] == bps[n].addr;
      HitsLast(Addrs(bps), l, i);
    }
  }

  lemma HitsLast(addrs: seq<int>, l: int, i: int)
    requires addrs != []
    ensures HitsAt(addrs, l, i) <==> HitsAt(addrs[..|addrs| - 1], l, i) || Dist(addrs[|addrs| - 1], l) == i
  {
    hide Dist;
    var n := |addrs| - 1;
    assert forall k :: 0 <= k < n ==> addrs[..n][k] == addrs[k];
  }

  /** The lower seven bytes, arming or not: the last entry that seems to sit there decides. */
  lemma {:induction false} AlternateLast(code: bv64, bps: seq<Breakpoint>, l: int, toCC: bool, includeSelf: bool, i: nat)
    requires i < 7
    ensures ByteAt(AlternateWord(code, bps, l, toCC, includeSelf), i) ==
            var r := LastHit(Addrs(bps), l, i);
            if r >= 0 && (i > 0 || includeSelf) then NewByte(bps[r], toCC) else ByteAt(code, i)
  {
    hide ByteAt, Dist, NewByte, Hits, AlterOne, Addrs;
    if bps != [] {
      var n := |bps| - 1;
      AddrsInit(bps);
      AlternateLast(code, bps[..n], l, toCC, includeSelf, i);
      AlterOneByte(AlternateWord(code, bps[..n], l, toCC, includeSelf), bps[n], l, toCC, includeSelf, i);
      assert Addrs(bps)[n] == bps[n].addr;
    }
  }

  /** The top byte is the OR of the byte before and the bytes of all entries that seem to sit there:
      it lies within a byte t exactly when each of them does. */
  lemma {:induction false} AlternateTop(code: bv64, bps: seq<Breakpoint>, l: int, toCC: bool, includeSelf: bool, t: bv8)
    ensures Within(ByteAt(AlternateWord(code, bps, l, toCC, includeSelf), 7), t) <==>
            && Within(ByteAt(code, 7), t)
            && forall k :: 0 <= k < |bps| && Dist(bps[k].addr, l) == 7 ==> Within(NewByte(bps[k], toCC), t)
  {
    hide ByteAt, Within, Landed, Dist, NewByte, AlterOne;
    if bps != [] {
      var n := |bps| - 1;
      var rest := AlternateWord(code, bps[..n], l, toCC, includeSelf);
      AlternateTop(code, bps[..n], l, toCC, includeSelf, t);
      AlterOneByte(rest, bps[n], l, toCC, includeSelf, 7);
      WithinLanded(ByteAt(rest, 7), NewByte(bps[n], toCC), t);
      assert forall k :: 0 <= k < n ==> bps[..n][k] == bps[k];
    }
  }
}
