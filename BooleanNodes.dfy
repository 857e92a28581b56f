/**
 * Bitwise boolean GP nodes: And of the multiplexer problem (And.cs), Nand and Xor of the
 * majority problem (Nand.cs, Xor.cs). Each bit of a data word is one fitness case, so a
 * node evaluates its two children, left first, and combines their results bit by bit, in
 * place in the shared data object. C#'s `long` and `byte` are the 64- and 8-bit patterns
 * `bv64` and `bv8`. A child evaluation is modelled by the result it leaves in the data
 * object, which is a parameter of the node's evaluation.
 */
module BooleanNodes {

  /** Bit i (0 is the least significant) of a word. */
  predicate Bit(x: bv64, i: bv64)
    requires i < 64
  {
    (x >> i) & 1 == 1
  }

  predicate Bit8(x: bv8, i: bv8)
    requires i < 8
  {
    (x >> i) & 1 == 1
  }

  /** `a & b`. */
  function And64(a: bv64, b: bv64): bv64 {
    a & b
  }

  /** `a & b` on bytes. */
  function And8(a: bv8, b: bv8): bv8 {
    a & b
  }

  /** `~(a & b)`. */
  function Nand64(a: bv64, b: bv64): bv64 {
    !(a & b)
  }

  /** Each bit of a nand is the nand of the two bits. */
  lemma NandBitwise(a: bv64, b: bv64, i: bv64)
    requires i < 64
    ensures Bit(Nand64(a, b), i) <==> !(Bit(a, i) && Bit(b, i))
  {
    NandIs(a, b);
    NandRawBitwise(a, b, i);
  }

  /** The bit lemmas are stated on the operators themselves and carried over to the named
      functions by these unfolding steps, which keeps each proof small. */
  lemma NandIs(a: bv64, b: bv64)
    ensures Nand64(a, b) == !(a & b)
  {
  }

  lemma NandRawBitwise(a: bv64, b: bv64, i: bv64)
    requires i < 64
    ensures Bit(!(a & b), i) <==> !(Bit(a, i) && Bit(b, i))
  {
  }

  /** Each bit of a xor is true exactly when the two bits differ. */
  lemma XorBitwise(a: bv64, b: bv64, i: bv64)
    requires i < 64
    ensures Bit(a ^ b, i) <==> Bit(a, i) != Bit(b, i)
  {
  }

  function Xor64(a: bv64, b: bv64): bv64 {
    a ^ b
  }

  /** Each bit of an and is the and of the two bits. */
  lemma AndBitwise(a: bv64, b: bv64, i: bv64)
    requires i < 64
    ensures Bit(And64(a, b), i) <==> Bit(a, i) && Bit(b, i)
  {
    AndIs(a, b);
    AndRawBitwise(a, b, i);
  }

  lemma AndIs(a: bv64, b: bv64)
    ensures And64(a, b) == a & b
  {
  }

  lemma AndRawBitwise(a: bv64, b: bv64, i: bv64)
    requires i < 64
    ensures Bit(a & b, i) <==> Bit(a, i) && Bit(b, i)
  {
  }

  lemma And8Bitwise(a: bv8, b: bv8, i: bv8)
    requires i < 8
    ensures Bit8(And8(a, b), i) <==> Bit8(a, i) && Bit8(b, i)
  {
    And8Is(a, b);
    And8RawBitwise(a, b, i);
  }

  lemma And8Is(a: bv8, b: bv8)
    ensures And8(a, b) == a & b
  {
  }

  lemma And8RawBitwise(a: bv8, b: bv8, i: bv8)
    requires i < 8
    ensures Bit8(a & b, i) <==> Bit8(a, i) && Bit8(b, i)
  {
  }

  // ---------------------------------------------------------------------------------------
  // Majority: Nand and Xor.

  /** What a child of a majority node leaves in the data: its two result words. */
  datatype MajorityResult = MajorityResult(data0: bv64, data1: bv64)

  /** MajorityData: the two result words the nodes pass up. */
  class MajorityData {
    var data0: bv64
    var data1: bv64

    constructor ()
      ensures data0 == 0 && data1 == 0
    {
      data0, data1 := 0, 0;
    }

    /** A child's evaluation, as far as this model sees it: it leaves its result here. */
    method ChildEval(r: MajorityResult)
      modifies this
      ensures data0 == r.data0 && data1 == r.data1
    {
      data0, data1 := r.data0, r.data1;
    }
  }

  /** ExpectedChildren of Nand and Xor. */
  const MajorityExpectedChildren: nat := 2

  /** Nand.Eval: child 0, then its words are saved, then child 1, then the data holds the nand
      of child 1's and child 0's words. */
  method NandEval(md: MajorityData, child0: MajorityResult, child1: MajorityResult)
    modifies md
    ensures md.data0 == Nand64(child1.data0, child0.data0)
    ensures md.data1 == Nand64(child1.data1, child0.data1)
  {
    md.ChildEval(child0);
    var y0 := md.data0;
    var y1 := md.data1;
    md.ChildEval(child1);
    md.data0 := Nand64(md.data0, y0);
    md.data1 := Nand64(md.data1, y1);
  }

  /** Xor.Eval: as Nand.Eval, combining with xor. */
  method XorEval(md: MajorityData, child0: MajorityResult, child1: MajorityResult)
    modifies md
    ensures md.data0 == Xor64(child1.data0, child0.data0)
    ensures md.data1 == Xor64(child1.data1, child0.data1)
  {
    md.ChildEval(child0);
    var y0 := md.data0;
    var y1 := md.data1;
    md.ChildEval(child1);
    md.data0 := Xor64(md.data0, y0);
    md.data1 := Xor64(md.data1, y1);
  }

  /** Every fitness case of a Nand node is the nand of the children's cases: bit i of each
      result word after NandEval is false exactly when bit i is true for both children. */
  lemma NandEvalPerCase(child0: MajorityResult, child1: MajorityResult, i: bv64)
    requires i < 64
    ensures Bit(Nand64(child1.data0, child0.data0), i) <==> !(Bit(child1.data0, i) && Bit(child0.data0, i))
    ensures Bit(Nand64(child1.data1, child0.data1), i) <==> !(Bit(child1.data1, i) && Bit(child0.data1, i))
  {
    NandBitwise(child1.data0, child0.data0, i);
    NandBitwise(child1.data1, child0.data1, i);
  }

  lemma NandSymmetric(a: bv64, b: bv64)
    ensures Nand64(a, b) == Nand64(b, a) && Nand64(a, a) == !a
  {
    NandIs(a, b);
    NandIs(b, a);
    NandIs(a, a);
  }

  lemma XorSymmetric(a: bv64, b: bv64)
    ensures Xor64(a, b) == Xor64(b, a) && Xor64(a, a) == 0
  {
  }

  /** The words a Nand node leaves (NandEval's ensures) do not depend on the order of its
      children, and a Nand over two children with equal results is the Not of that result. */
  lemma NandEvalSymmetric(child0: MajorityResult, child1: MajorityResult)
    ensures Nand64(child1.data0, child0.data0) == Nand64(child0.data0, child1.data0)
    ensures Nand64(child1.data1, child0.data1) == Nand64(child0.data1, child1.data1)
    ensures child0 == child1 ==>
      Nand64(child1.data0, child0.data0) == !child0.data0 && Nand64(child1.data1, child0.data1) == !child0.data1
  {
    NandSymmetric(child1.data0, child0.data0);
    NandSymmetric(child1.data1, child0.data1);
  }

  /** The words a Xor node leaves (XorEval's ensures) do not depend on the order of its
      children, and a Xor over two children with equal results is false in every case. */
  lemma XorEvalSymmetric(child0: MajorityResult, child1: MajorityResult)
    ensures Xor64(child1.data0, child0.data0) == Xor64(child0.data0, child1.data0)
    ensures Xor64(child1.data1, child0.data1) == Xor64(child0.data1, child1.data1)
    ensures child0 == child1 ==> Xor64(child1.data0, child0.data0) == 0 && Xor64(child1.data1, child0.data1) == 0
  {
    XorSymmetric(child1.data0, child0.data0);
    XorSymmetric(child1.data1, child0.data1);
  }

  // ---------------------------------------------------------------------------------------
  // Multiplexer: And.

  /** The number of 64-bit words of the 11-multiplexer's 2048 fitness cases. */
  const Multi11NumBitstrings: nat := 32

  /** Which multiplexer is being solved, and so which word of the data is in use. */
  datatype Status = Status3 | Status6 | Status11

  /** What a child of an And node leaves in the data, for each status. */
  datatype MultiplexerResult = MultiplexerResult(dat3: bv8, dat6: bv64, dat11: seq<bv64>)

  /** The word-by-word and of two rows of words. */
  function AndWords(a: seq<bv64>, b: seq<bv64>): (r: seq<bv64>)
    requires |a| == |b|
    ensures |r| == |a|
  {
    seq(|a|, x requires 0 <= x < |a| => And64(a[x], b[x]))
  }

  /** Each fitness case of the 11-multiplexer's And is the and of the children's cases. */
  lemma AndWordsPerCase(a: seq<bv64>, b: seq<bv64>, x: nat, i: bv64)
    requires |a| == |b| && x < |a| && i < 64
    ensures Bit(AndWords(a, b)[x], i) <==> Bit(a[x], i) && Bit(b[x], i)
  {
    assert AndWords(a, b)[x] == And64(a[x], b[x]);
    AndBitwise(a[x], b[x], i);
  }

  lemma And64Symmetric(a: bv64, b: bv64)
    ensures And64(a, b) == And64(b, a) && And64(a, a) == a
  {
  }

  lemma And8Symmetric(a: bv8, b: bv8)
    ensures And8(a, b) == And8(b, a) && And8(a, a) == a
  {
  }

  /** The data an And node leaves (AndEval's ensures) does not depend on the order of its
      children, for every problem size, and an And over two children with equal results
      passes that result up unchanged. */
  lemma AndEvalSymmetric(child0: MultiplexerResult, child1: MultiplexerResult)
    requires |child0.dat11| == |child1.dat11|
    ensures And8(child1.dat3, child0.dat3) == And8(child0.dat3, child1.dat3)
    ensures And64(child1.dat6, child0.dat6) == And64(child0.dat6, child1.dat6)
    ensures AndWords(child1.dat11, child0.dat11) == AndWords(child0.dat11, child1.dat11)
    ensures child0 == child1 ==>
      And8(child1.dat3, child0.dat3) == child0.dat3 && And64(child1.dat6, child0.dat6) == child0.dat6 &&
      AndWords(child1.dat11, child0.dat11) == child0.dat11
  {
    And8Symmetric(child0.dat3, child1.dat3);
    And64Symmetric(child0.dat6, child1.dat6);
    var a, b := child1.dat11, child0.dat11;
    forall x | 0 <= x < |a|
      ensures AndWords(a, b)[x] == AndWords(b, a)[x] && AndWords(a, a)[x] == a[x]
    {
      And64Symmetric(a[x], b[x]);
    }
  }

  /** MultiplexerData: the status, the three result words and the stack of spare Dat11
      buffers. */
  class MultiplexerData {
    var status: Status
    var dat3: bv8
    var dat6: bv64
    var dat11: array<bv64>
    var spares: seq<array<bv64>>

    /** The result buffer and every spare have Multi11NumBitstrings words, and no spare is
        the result buffer. */
    ghost predicate Valid()
      reads this
    {
      dat11.Length == Multi11NumBitstrings &&
      forall k :: 0 <= k < |spares| ==> spares[k].Length == Multi11NumBitstrings && spares[k] != dat11
    }

    constructor (status: Status)
      ensures Valid() && this.status == status && fresh(dat11) && spares == []
    {
      this.status := status;
      dat3, dat6 := 0, 0;
      dat11 := new bv64[Multi11NumBitstrings](_ => 0);
      spares := [];
    }

    /** PopDat11: the most recently pushed spare, or a new buffer when there is none. */
    method PopDat11() returns (b: array<bv64>)
      requires Valid()
      modifies this`spares
      ensures Valid() && b.Length == Multi11NumBitstrings && b != dat11
      ensures old(spares) == [] ==> fresh(b) && spares == []
      ensures old(spares) != [] ==> spares + [b] == old(spares) && b in old(spares)
    {
      if spares == [] {
        b := new bv64[Multi11NumBitstrings];
      } else {
        b := spares[|spares| - 1];
        spares := spares[..|spares| - 1];
      }
    }

    /** PushDat11: `b` becomes the most recent spare. */
    method PushDat11(b: array<bv64>)
      requires Valid() && b.Length == Multi11NumBitstrings && b != dat11
      modifies this`spares
      ensures Valid() && spares == old(spares) + [b]
    {
      spares := spares + [b];
    }

    /** A child's evaluation, as far as this model sees it: it leaves its result in the word
        of the current status. */
    method ChildEval(r: MultiplexerResult)
      requires Valid() && |r.dat11| == Multi11NumBitstrings
      modifies this`dat3, this`dat6, dat11
      ensures Valid()
      ensures status == Status3 ==> dat3 == r.dat3 && dat11[..] == old(dat11[..])
      ensures status == Status6 ==> dat6 == r.dat6 && dat11[..] == old(dat11[..])
      ensures status == Status11 ==> dat11[..] == r.dat11
      ensures status != Status3 ==> dat3 == old(dat3)
      ensures status != Status6 ==> dat6 == old(dat6)
    {
      match status
      case Status3 => dat3 := r.dat3;
      case Status6 => dat6 := r.dat6;
      case Status11 =>
        Store(dat11, r.dat11);
    }
  }

  /** ExpectedChildren of And. */
  const AndExpectedChildren: nat := 2

  /** And.Eval: child 0, then the word of the current status is saved (for the 11-multiplexer
      into a buffer popped from the spares), then child 1, then the word becomes the and of
      child 1's and child 0's, and the popped buffer is pushed back. */
  method AndEval(md: MultiplexerData, child0: MultiplexerResult, child1: MultiplexerResult)
    requires md.Valid() && |child0.dat11| == Multi11NumBitstrings && |child1.dat11| == Multi11NumBitstrings
    modifies md, md.dat11, md.spares
    ensures md.Valid() && md.status == old(md.status) && md.dat11 == old(md.dat11)
    ensures md.status == Status3 ==> md.dat3 == And8(child1.dat3, child0.dat3) && md.spares == old(md.spares)
    ensures md.status == Status6 ==> md.dat6 == And64(child1.dat6, child0.dat6) && md.spares == old(md.spares)
    ensures md.status == Status11 ==> md.dat11[..] == AndWords(child1.dat11, child0.dat11)
    ensures md.status == Status11 && old(md.spares) != [] ==> md.spares == old(md.spares)
    ensures md.status == Status11 && old(md.spares) == [] ==> |md.spares| == 1 && fresh(md.spares[0])
    ensures md.status != Status3 ==> md.dat3 == old(md.dat3)
    ensures md.status != Status6 ==> md.dat6 == old(md.dat6)
    ensures md.status != Status11 ==> md.dat11[..] == old(md.dat11[..])
  {
    var dat11: array<bv64>;
    var dat6: bv64 := 0;
    var dat3: bv8 := 0;

    md.ChildEval(child0);

    if md.status == Status3 {
      dat3 := md.dat3;
    } else if md.status == Status6 {
      dat6 := md.dat6;
    } else {
      dat11 := md.PopDat11();
      Store(dat11, md.dat11[..]);
    }

    md.ChildEval(child1);

    if md.status == Status3 {
      md.dat3 := And8(md.dat3, dat3);
    } else if md.status == Status6 {
      md.dat6 := And64(md.dat6, dat6);
    } else {
      AndInto(md.dat11, dat11);
      md.PushDat11(dat11);
    }
  }

  /** The loop of And.Eval for the 11-multiplexer: each word of `dst` anded with the saved
      word of `src`. */
  method AndInto(dst: array<bv64>, src: array<bv64>)
    requires src != dst && src.Length == dst.Length == Multi11NumBitstrings
    modifies dst
    ensures dst[..] == AndWords(old(dst[..]), src[..])
  {
    for x := 0 to Multi11NumBitstrings
      invariant forall y :: 0 <= y < x ==> dst[y] == And64(old(dst[y]), src[y])
      invariant forall y :: x <= y < Multi11NumBitstrings ==> dst[y] == old(dst[y])
    {
      dst[x] := And64(dst[x], src[x]);
    }
  }

  /** `words` copied into `dst` word by word, as `Array.Copy` does. */
  method Store(dst: array<bv64>, words: seq<bv64>)
    requires dst.Length == |words|
    modifies dst
    ensures dst[..] == words
  {
    for x := 0 to dst.Length
      invariant forall y :: 0 <= y < x ==> dst[y] == words[y]
    {
      dst[x] := words[x];
    }
  }
}
