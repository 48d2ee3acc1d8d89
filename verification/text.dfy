/** The child's text as bytes, reached only by whole-word peeks and pokes. */
module Text {
  import opened Words

  type Mem = seq<bv8>  // byte i is at address i; addresses from the length on are not mapped

  predicate Mapped(mem: Mem, a: int) {
    0 <= a && a + 8 <= |mem|
  }

  /** The byte at x; some byte if x is not mapped. */
  function Read(mem: Mem, x: int): bv8 {
    if 0 <= x < |mem| then mem[x] else 0
  }

  function Peek(mem: Mem, a: int): bv64
    requires Mapped(mem, a)
  {
    Compose(mem[a], mem[a + 1], mem[a + 2], mem[a + 3], mem[a + 4], mem[a + 5], mem[a + 6], mem[a + 7])
  }

  function Poke(mem: Mem, a: int, w: bv64): Mem
    requires Mapped(mem, a)
  {
    seq(|mem|, x requires 0 <= x < |mem| => if a <= x < a + 8 then ByteAt(w, x - a) else mem[x])
  }

  /** mem with the eight bytes from a on taken from src. */
  function Overlay(mem: Mem, src: Mem, a: int): Mem {
    seq(|mem|, x requires 0 <= x < |mem| => if a <= x < a + 8 && x < |src| then src[x] else mem[x])
  }

  /** The image with int3 at every address of s: what the text should look like. */
  function Armed(image: Mem, s: set<int>): Mem {
    seq(|image|, x requires 0 <= x < |image| => if x in s then CC else image[x])
  }

  function Elems(addrs: seq<int>): set<int> {
    set a | a in addrs
  }

  /** The eight addresses of the word at a. */
  predicate InWindow(a: int, x: int) {
    a <= x < a + 8
  }

  /** mem is the image except for int3 bytes at some of the given addresses. */
  ghost predicate Clean(mem: Mem, image: Mem, addrs: seq<int>) {
    && |mem| == |image|
    && forall x :: 0 <= x < |mem| ==> mem[x] == image[x] || (mem[x] == CC && x in addrs)
  }

  lemma PeekBytes(mem: Mem, a: int, i: nat)
    requires Mapped(mem, a) && i < 8
    ensures ByteAt(Peek(mem, a), i) == mem[a + i]
  {
    hide ByteAt, Compose;
    ComposeBytes(mem[a], mem[a + 1], mem[a + 2], mem[a + 3], mem[a + 4], mem[a + 5], mem[a + 6], mem[a + 7]);
    assert i == 0 || i == 1 || i == 2 || i == 3 || i == 4 || i == 5 || i == 6 || i == 7;
  }

  /** A word is the one peeked at a exactly when its eight bytes are those of the memory. */
  lemma IsPeekIff(mem: Mem, a: int, w: bv64)
    requires Mapped(mem, a)
    ensures w == Peek(mem, a) <==> forall i: nat :: i < 8 ==> ByteAt(w, i) == mem[a + i]
  {
    hide ByteAt, Compose;
    forall i: nat | i < 8
      ensures ByteAt(Peek(mem, a), i) == mem[a + i]
    {
      PeekBytes(mem, a, i);
    }
    if forall i: nat :: i < 8 ==> ByteAt(w, i) == mem[a + i] {
      BytesDetermine(w, Peek(mem, a));
    }
  }

  /** Poking w at a is overlaying the bytes of src there exactly when w holds those bytes. */
  lemma PokeIsOverlayIff(mem: Mem, src: Mem, a: int, w: bv64)
    requires Mapped(mem, a) && |src| == |mem|
    ensures Poke(mem, a, w) == Overlay(mem, src, a) <==> forall i: nat :: i < 8 ==> ByteAt(w, i) == src[a + i]
  {
    hide ByteAt;
    var p, o := Poke(mem, a, w), Overlay(mem, src, a);
    if forall i: nat :: i < 8 ==> ByteAt(w, i) == src[a + i] {
      forall x | 0 <= x < |mem|
        ensures p[x] == o[x]
      {
        if a <= x < a + 8 {
          assert ByteAt(w, x - a) == src[a + (x - a)];
        }
      }
    }
    if p == o {
      forall i: nat | i < 8
        ensures ByteAt(w, i) == src[a + i]
      {
        assert p[a + i] == o[a + i];
      }
    }
  }
}
