/** Planting the whole table again after a restart: the order of the pokes decides whether every
    breakpoint survives, since each poke also writes seven original bytes behind its own. */
module Plant {
  import opened Words
  import opened Text
  import opened Alternate
  import opened Patches

  /** The pokes of setallbreak over a list of addresses, in the order of the list. */
  function PlantAll(mem: Mem, image: Mem, order: seq<int>): Mem {
    if order == [] then mem
    else
      var a := order[|order| - 1];
      Overlay(PlantAll(mem, image, order[..|order| - 1]), Armed(image, {a}), a)
  }

  /** Index of the last poke that writes address x, or -1. */
  function LastCover(order: seq<int>, x: int): (r: int)
    ensures -1 <= r < |order|
    ensures r >= 0 ==> InWindow(order[r], x)
    ensures forall j :: r < j < |order| ==> !InWindow(order[j], x)
  {
    if order == [] then -1
    else if InWindow(order[|order| - 1], x) then |order| - 1
    else LastCover(order[..|order| - 1], x)
  }

  lemma {:induction false} PlantByte(mem: Mem, image: Mem, order: seq<int>, x: int)
    requires |mem| == |image| && 0 <= x < |image|
    ensures |PlantAll(mem, image, order)| == |mem|
    ensures PlantAll(mem, image, order)[x] ==
            var r := LastCover(order, x);
            if r < 0 then mem[x] else if order[r] == x then CC else image[x]
  {
    if order != [] {
      PlantByte(mem, image, order[..|order| - 1], x);
    }
  }

  /** No poke writes over a breakpoint planted before it. */
  ghost predicate NoneOverwritten(order: seq<int>) {
    forall i, j :: 0 <= i < j < |order| ==> !(order[j] < order[i] < order[j] + 8)
  }

  lemma PlantLength(mem: Mem, image: Mem, order: seq<int>)
    ensures |PlantAll(mem, image, order)| == |mem|
  {
  }

  /** When nothing is overwritten, the last poke that writes a breakpoint is its own. */
  lemma LastCoverIsOwn(order: seq<int>, i: nat)
    requires i < |order| && Distinct(order) && NoneOverwritten(order)
    ensures LastCover(order, order[i]) == i
  {
  }

  lemma PlantWhenFree(mem: Mem, image: Mem, order: seq<int>)
    requires Distinct(order) && Clean(mem, image, order) && NoneOverwritten(order)
    ensures PlantAll(mem, image, order) == Armed(image, Elems(order))
  {
    var p := PlantAll(mem, image, order);
    PlantLength(mem, image, order);
    forall x | 0 <= x < |image|
      ensures p[x] == Armed(image, Elems(order))[x]
    {
      PlantByte(mem, image, order, x);
      if x in order {
        var i :| 0 <= i < |order| && order[i] == x;
        LastCoverIsOwn(order, i);
      }
    }
  }

  /** For distinct breakpoints on a clean text, planting arms all of them exactly when no poke
      writes over an earlier one. (An original byte equal to int3 would hide the loss.) */
  lemma PlantIff(mem: Mem, image: Mem, order: seq<int>)
    requires Distinct(order) && Clean(mem, image, order)
    requires forall i :: 0 <= i < |order| ==> 0 <= order[i] < |image| && image[order[i]] != CC
    ensures PlantAll(mem, image, order) == Armed(image, Elems(order)) <==> NoneOverwritten(order)
  {
    if NoneOverwritten(order) {
      PlantWhenFree(mem, image, order);
    } else {
      var i, j :| 0 <= i < j < |order| && order[j] < order[i] < order[j] + 8;
      var x := order[i];
      PlantByte(mem, image, order, x);
      assert LastCover(order, x) >= j;
      assert Armed(image, Elems(order))[x] == CC;
    }
  }

  predicate Ascending(bps: seq<Breakpoint>) {
    forall i, j :: 0 <= i < j < |bps| ==> bps[i].addr <= bps[j].addr
  }

  /** Index of the first breakpoint that is not below addr. */
  function Place(addr: int, bps: seq<Breakpoint>): (p: nat)
    ensures p <= |bps|
    ensures forall k :: 0 <= k < p ==> bps[k].addr < addr
    ensures p < |bps| ==> addr <= bps[p].addr
  {
    if bps == [] || addr <= bps[0].addr then 0 else 1 + Place(addr, bps[1..])
  }

  lemma InsertKeepsAll(b: Breakpoint, bps: seq<Breakpoint>, p: nat)
    requires p <= |bps|
    ensures multiset(bps[..p] + [b] + bps[p..]) == multiset(bps) + multiset{b}
  {
    assert bps == bps[..p] + bps[p..];
  }

  lemma InsertAscending(b: Breakpoint, bps: seq<Breakpoint>)
    requires Ascending(bps)
    ensures var p := Place(b.addr, bps); Ascending(bps[..p] + [b] + bps[p..])
  {
  }

  function InsertByAddr(b: Breakpoint, bps: seq<Breakpoint>): (r: seq<Breakpoint>)
    requires Ascending(bps)
    ensures Ascending(r) && multiset(r) == multiset(bps) + multiset{b}
  {
    hide Ascending;
    var p := Place(b.addr, bps);
    InsertKeepsAll(b, bps, p);
    InsertAscending(b, bps);
    bps[..p] + [b] + bps[p..]
  }

  /** Stands for std::sort with the operator< of breakpoint. */
  function SortByAddr(bps: seq<Breakpoint>): (r: seq<Breakpoint>)
    ensures Ascending(r) && multiset(r) == multiset(bps)
  {
    if bps == [] then []
    else
      assert bps == [bps[0]] + bps[1..];
      InsertByAddr(bps[0], SortByAddr(bps[1..]))
  }

  /** In ascending order nothing is written over: the restart arms the whole table. */
  lemma SortedPlantsAll(mem: Mem, image: Mem, bps: seq<Breakpoint>)
    requires Distinct(Addrs(bps)) && Clean(mem, image, Addrs(bps))
    ensures PlantAll(mem, image, Addrs(SortByAddr(bps))) == Armed(image, Elems(Addrs(bps)))
  {
    var sorted := SortByAddr(bps);
    PermutedDistinct(bps, sorted);
    assert Elems(Addrs(sorted)) == Elems(Addrs(bps));
    forall i, j | 0 <= i < j < |sorted|
      ensures Addrs(sorted)[i] <= Addrs(sorted)[j]
    {
    }
    forall x | x in Addrs(bps)
      ensures x in Addrs(sorted)
    {
    }
    PlantWhenFree(mem, image, Addrs(sorted));
  }
}
