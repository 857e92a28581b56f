/**
 * LongVectorIndividual.cs: a fixed-length genome of 64-bit integers, with per-gene bounds
 * taken from its species, and the operations that split, join, resize, clamp, cross over and
 * mutate it in place. Random draws are parameters of the operations.
 */
module LongVector {
  import opened Wrappers

  newtype int64 = x: int | -0x8000_0000_0000_0000 <= x < 0x8000_0000_0000_0000

  const MinLong: int64 := -0x8000_0000_0000_0000
  const MaxLong: int64 := 0x7FFF_FFFF_FFFF_FFFF

  /** What the individual reads from its IntegerVectorSpecies: per-gene bounds, the chunk
      size of crossover, and per gene whether random-walk mutation keeps to the bounds and how
      many times a mutation that leaves the gene as it was is retried. */
  datatype IntegerVectorSpecies = IntegerVectorSpecies(
    minGene: nat -> int64, maxGene: nat -> int64, chunkSize: nat,
    mutationIsBounded: nat -> bool, duplicateRetries: nat -> nat)

  // ---------------------------------------------------------------------------------------
  // Sequences of genes.

  /** The concatenation of the pieces, in order. */
  function Concat(parts: seq<seq<int64>>): seq<int64> {
    if parts == [] then [] else Concat(parts[..|parts| - 1]) + parts[|parts| - 1]
  }

  function TotalLength(parts: seq<seq<int64>>): nat {
    if parts == [] then 0 else TotalLength(parts[..|parts| - 1]) + |parts[|parts| - 1]|
  }

  /** The boundaries of the pieces: 0, the split points, the genome length. */
  function Cuts(points: seq<int>, len: nat): seq<int> {
    [0] + points + [len]
  }

  /** Split points that are sorted and lie inside the genome. */
  predicate SortedPoints(points: seq<int>, len: nat) {
    (forall i :: 0 <= i < |points| ==> 0 <= points[i] <= len) &&
    (forall i, j :: 0 <= i <= j < |points| ==> points[i] <= points[j])
  }

  lemma CutsSorted(points: seq<int>, len: nat)
    requires SortedPoints(points, len)
    ensures var c := Cuts(points, len);
      |c| == |points| + 2 && c[0] == 0 && c[|c| - 1] == len &&
      forall i, j :: 0 <= i <= j < |c| ==> 0 <= c[i] <= c[j] <= len
  {
    var c := Cuts(points, len);
    forall i, j | 0 <= i <= j < |c|
      ensures 0 <= c[i] <= c[j] <= len
    {
      if 0 < i && j < |c| - 1 {
        assert c[i] == points[i - 1] && c[j] == points[j - 1];
      }
    }
  }

  /** Piece x runs from boundary x to boundary x + 1. */
  function Pieces(g: seq<int64>, points: seq<int>): (r: seq<seq<int64>>)
    requires SortedPoints(points, |g|)
    ensures |r| == |points| + 1
  {
    var c := Cuts(points, |g|);
    CutsSorted(points, |g|);
    seq(|points| + 1, x requires 0 <= x < |points| + 1 => g[c[x]..c[x + 1]])
  }

  lemma {:induction false} ConcatPrefix(g: seq<int64>, points: seq<int>, k: nat)
    requires SortedPoints(points, |g|) && k <= |points| + 1
    ensures var c := Cuts(points, |g|); 0 <= c[k] <= |g| && Concat(Pieces(g, points)[..k]) == g[..c[k]]
  {
    var c := Cuts(points, |g|);
    CutsSorted(points, |g|);
    var ps := Pieces(g, points);
    if k > 0 {
      ConcatPrefix(g, points, k - 1);
      assert ps[..k][..k - 1] == ps[..k - 1];
      assert g[..c[k]] == g[..c[k - 1]] + g[c[k - 1]..c[k]];
    }
  }

  /** Joining the pieces of a split gives back the genome. */
  lemma SplitJoinRoundTrip(g: seq<int64>, points: seq<int>)
    requires SortedPoints(points, |g|)
    ensures Concat(Pieces(g, points)) == g
  {
    var ps := Pieces(g, points);
    ConcatPrefix(g, points, |points| + 1);
    assert ps[..|points| + 1] == ps;
  }

  /** The joined genome is as long as all the pieces together. */
  lemma {:induction false} ConcatLength(parts: seq<seq<int64>>)
    ensures |Concat(parts)| == TotalLength(parts)
  {
    if parts != [] {
      ConcatLength(parts[..|parts| - 1]);
    }
  }

  lemma {:induction false} TotalLengthPrefix(parts: seq<seq<int64>>, k: nat)
    requires k <= |parts|
    ensures TotalLength(parts[..k]) <= TotalLength(parts)
    decreases |parts|
  {
    if k < |parts| {
      var init := parts[..|parts| - 1];
      TotalLengthPrefix(init, k);
      assert init[..k] == parts[..k];
    } else {
      assert parts[..k] == parts;
    }
  }

  /** The contents of an array of arrays. */
  ghost function Contents(pieces: seq<array<int64>>): (r: seq<seq<int64>>)
    reads set a | a in pieces
    ensures |r| == |pieces| && forall i :: 0 <= i < |pieces| ==> r[i] == pieces[i][..]
  {
    if pieces == [] then [] else Contents(pieces[..|pieces| - 1]) + [pieces[|pieces| - 1][..]]
  }

  /** `Array.Copy(src, srcIndex, dst, dstIndex, length)`. */
  method ArrayCopy(src: array<int64>, srcIndex: nat, dst: array<int64>, dstIndex: nat, length: nat)
    requires src != dst
    requires srcIndex + length <= src.Length && dstIndex + length <= dst.Length
    modifies dst
    ensures dst[..] == old(dst[..dstIndex]) + src[srcIndex..srcIndex + length] + old(dst[dstIndex + length..])
  {
    for k := 0 to length
      invariant forall i :: 0 <= i < dst.Length ==>
        dst[i] == if dstIndex <= i < dstIndex + k then src[srcIndex + (i - dstIndex)] else old(dst[i])
    {
      dst[dstIndex + k] := src[srcIndex + k];
    }
    ghost var r := old(dst[..dstIndex]) + src[srcIndex..srcIndex + length] + old(dst[dstIndex + length..]);
    assert forall i :: 0 <= i < dst.Length ==> dst[..][i] == r[i];
  }

  // ---------------------------------------------------------------------------------------
  // Gene bounds.

  /** Every gene lies within its [min, max]. */
  predicate InRange(g: seq<int64>, s: IntegerVectorSpecies) {
    forall i :: 0 <= i < |g| ==> s.minGene(i) <= g[i] <= s.maxGene(i)
  }

  /** One gene after Clamp. */
  function ClampGene(v: int64, lo: int64, hi: int64): int64 {
    if v < lo then lo else if v > hi then hi else v
  }

  /** A clamped gene lies in its bounds, and a gene already inside them is left alone. */
  lemma ClampGeneInBounds(v: int64, lo: int64, hi: int64)
    requires lo <= hi
    ensures lo <= ClampGene(v, lo, hi) <= hi
    ensures lo <= v <= hi <==> ClampGene(v, lo, hi) == v
  {
  }

  // ---------------------------------------------------------------------------------------
  // Crossover.

  /** The draws of DefaultCrossover: the cut point of one-point crossover, the two points of
      two-point crossover, or one coin per chunk for any-point crossover. */
  datatype CrossoverDraw = OnePoint(point: nat) | TwoPoint(point0: nat, point1: nat) | AnyPoint(swap: seq<bool>)

  /** The draws the random generator can make for a genome of `len` genes. */
  predicate DrawFits(d: CrossoverDraw, len: nat, chunk: nat)
    requires chunk > 0
  {
    match d
    case OnePoint(p) => p <= len / chunk
    case TwoPoint(p0, p1) => p0 <= len / chunk && p1 <= len / chunk
    case AnyPoint(swap) => |swap| == len / chunk
  }

  /** Whether DefaultCrossover exchanges gene `x`. */
  predicate Exchanged(d: CrossoverDraw, chunk: nat, x: nat)
    requires chunk > 0
  {
    match d
    case OnePoint(p) => x < p * chunk
    case TwoPoint(p0, p1) =>
      var lo := if p0 > p1 then p1 else p0;
      var hi := if p0 > p1 then p0 else p1;
      lo * chunk <= x < hi * chunk
    case AnyPoint(swap) => x / chunk < |swap| && swap[x / chunk]
  }

  /** The two genomes after exchanging the genes `d` selects. */
  function Exchange(a: seq<int64>, b: seq<int64>, d: CrossoverDraw, chunk: nat): (r: (seq<int64>, seq<int64>))
    requires |a| == |b| && chunk > 0
    ensures |r.0| == |a| && |r.1| == |a|
  {
    (seq(|a|, x requires 0 <= x < |a| => if Exchanged(d, chunk, x) then b[x] else a[x]),
     seq(|a|, x requires 0 <= x < |a| => if Exchanged(d, chunk, x) then a[x] else b[x]))
  }

  /** At every position the two genes are the same pair as before, and exchanging again with
      the same draws restores both parents. */
  lemma ExchangeKeepsPairs(a: seq<int64>, b: seq<int64>, d: CrossoverDraw, chunk: nat)
    requires |a| == |b| && chunk > 0
    ensures var (a', b') := Exchange(a, b, d, chunk);
      forall x :: 0 <= x < |a| ==> multiset{a'[x], b'[x]} == multiset{a[x], b[x]}
    ensures var (a', b') := Exchange(a, b, d, chunk);
      Exchange(a', b', d, chunk) == (a, b)
  {
    var (a', b') := Exchange(a, b, d, chunk);
    var (a'', b'') := Exchange(a', b', d, chunk);
    assert a'' == a;
    assert b'' == b;
  }

  lemma CutInside(p: nat, len: nat, chunk: nat)
    requires chunk > 0 && p <= len / chunk
    ensures p * chunk <= len
  {
    assert p * chunk <= (len / chunk) * chunk;
  }

  /** A sequence that takes positions [lo, hi) from b and the rest from a is that splice. */
  lemma SpliceOf(a: seq<int64>, b: seq<int64>, lo: nat, hi: nat, c: seq<int64>)
    requires lo <= hi <= |a| == |b| == |c|
    requires forall x :: 0 <= x < |c| ==> c[x] == if lo <= x < hi then b[x] else a[x]
    ensures c == a[..lo] + b[lo..hi] + a[hi..]
  {
    var s := a[..lo] + b[lo..hi] + a[hi..];
    assert |s| == |c|;
    forall x | 0 <= x < |c|
      ensures s[x] == c[x]
    {
      if x < lo {
        assert s[x] == a[x];
      } else if x < hi {
        assert s[x] == b[x];
      } else {
        assert s[x] == a[x];
      }
    }
  }

  /** One-point crossover exchanges exactly the prefix of `point * chunk` genes. */
  lemma OnePointSwapsPrefix(a: seq<int64>, b: seq<int64>, p: nat, chunk: nat)
    requires |a| == |b| && chunk > 0 && p <= |a| / chunk
    ensures var k := p * chunk;
      k <= |a| && Exchange(a, b, OnePoint(p), chunk) == (b[..k] + a[k..], a[..k] + b[k..])
  {
    CutInside(p, |a|, chunk);
    var k := p * chunk;
    var (a', b') := Exchange(a, b, OnePoint(p), chunk);
    SpliceOf(a, b, 0, k, a');
    SpliceOf(b, a, 0, k, b');
    assert a[..0] + b[0..k] == b[..k];
    assert b[..0] + a[0..k] == a[..k];
  }

  /** Two-point crossover exchanges exactly the genes between the ordered points. */
  lemma TwoPointSwapsSlice(a: seq<int64>, b: seq<int64>, p0: nat, p1: nat, chunk: nat)
    requires |a| == |b| && chunk > 0 && p0 <= |a| / chunk && p1 <= |a| / chunk
    ensures var lo := (if p0 > p1 then p1 else p0) * chunk;
      var hi := (if p0 > p1 then p0 else p1) * chunk;
      lo <= hi <= |a| &&
      Exchange(a, b, TwoPoint(p0, p1), chunk) == (a[..lo] + b[lo..hi] + a[hi..], b[..lo] + a[lo..hi] + b[hi..])
  {
    CutInside(p0, |a|, chunk);
    CutInside(p1, |a|, chunk);
    var lo := (if p0 > p1 then p1 else p0) * chunk;
    var hi := (if p0 > p1 then p0 else p1) * chunk;
    MulMono(if p0 > p1 then p1 else p0, if p0 > p1 then p0 else p1, chunk);
    var (a', b') := Exchange(a, b, TwoPoint(p0, p1), chunk);
    SpliceOf(a, b, lo, hi, a');
    SpliceOf(b, a, lo, hi, b');
  }

  lemma MulMono(a: nat, b: nat, c: nat)
    requires a <= b
    ensures a * c <= b * c
  {
  }

  /** Gene y lies in chunk x exactly when it lies between x * chunk and (x + 1) * chunk. */
  lemma ChunkOf(y: nat, x: nat, chunk: nat)
    requires chunk > 0
    ensures y / chunk == x <==> x * chunk <= y < (x + 1) * chunk
  {
    var q := y / chunk;
    assert y == q * chunk + y % chunk;
    assert (q + 1) * chunk == q * chunk + chunk;
    assert (x + 1) * chunk == x * chunk + chunk;
    if q < x {
      MulMono(q + 1, x, chunk);
    } else if q > x {
      MulMono(x + 1, q, chunk);
    }
  }

  /** `g` and `o` are `a` and `b` with the genes of each chunk c < x exchanged when swap[c]. */
  ghost predicate ChunksSwapped(g: seq<int64>, o: seq<int64>, a: seq<int64>, b: seq<int64>,
                                swap: seq<bool>, chunk: nat, x: nat)
    requires chunk > 0 && x <= |swap|
  {
    |g| == |o| == |a| == |b| &&
    forall y :: 0 <= y < |g| ==>
      if y / chunk < x && swap[y / chunk] then g[y] == b[y] && o[y] == a[y]
      else g[y] == a[y] && o[y] == b[y]
  }

  /** One step of the any-point loop: exchanging chunk x when swap[x] extends the exchange
      from the chunks before x to the chunks up to x. */
  lemma ChunkSwapStep(g: seq<int64>, o: seq<int64>, g': seq<int64>, o': seq<int64>,
                      a: seq<int64>, b: seq<int64>, swap: seq<bool>, chunk: nat, x: nat)
    requires chunk > 0 && x < |swap| && ChunksSwapped(g, o, a, b, swap, chunk, x)
    requires |g'| == |o'| == |g|
    requires forall y :: 0 <= y < |g| ==>
      if swap[x] && x * chunk <= y < (x + 1) * chunk then g'[y] == o[y] && o'[y] == g[y]
      else g'[y] == g[y] && o'[y] == o[y]
    ensures ChunksSwapped(g', o', a, b, swap, chunk, x + 1)
  {
    forall y | 0 <= y < |g| {
      ChunkOf(y, x, chunk);
    }
  }

  // ---------------------------------------------------------------------------------------
  // Random-walk mutation.

  /** One step of the walk: up or down by one, turning back at a bound, standing still when
      the gene can move neither way. */
  function WalkStep(g: int64, up: bool, lo: int64, hi: int64): int64 {
    if (up && g < hi) || (!up && g > lo) then (if up then g + 1 else g - 1)
    else if (!up && g < hi) || (up && g > lo) then (if up then g - 1 else g + 1)
    else g
  }

  /** The walk over a sequence of direction coins. */
  function Walk(g: int64, steps: seq<bool>, lo: int64, hi: int64): int64
    decreases |steps|
  {
    if steps == [] then g else Walk(WalkStep(g, steps[0], lo, hi), steps[1..], lo, hi)
  }

  /** A step from inside the bounds stays inside, and moves by exactly one when the bounds are
      not equal. */
  lemma WalkStepStaysInside(g: int64, up: bool, lo: int64, hi: int64)
    requires lo <= g <= hi
    ensures lo <= WalkStep(g, up, lo, hi) <= hi
    ensures lo < hi ==> WalkStep(g, up, lo, hi) as int == g as int + 1 || WalkStep(g, up, lo, hi) as int == g as int - 1
    ensures g < hi && up ==> WalkStep(g, up, lo, hi) as int == g as int + 1
    ensures g > lo && !up ==> WalkStep(g, up, lo, hi) as int == g as int - 1
  {
  }

  /** The lower bound of gene x's walk: the species' minimum, or the least long when the
      mutation is not bounded. */
  function WalkLow(s: IntegerVectorSpecies, x: nat): int64 {
    if s.mutationIsBounded(x) then s.minGene(x) else MinLong
  }

  /** The upper bound of gene x's walk: the species' maximum, or the greatest long when the
      mutation is not bounded. */
  function WalkHigh(s: IntegerVectorSpecies, x: nat): int64 {
    if s.mutationIsBounded(x) then s.maxGene(x) else MaxLong
  }

  lemma {:induction false} WalkStaysInside(g: int64, steps: seq<bool>, lo: int64, hi: int64)
    requires lo <= g <= hi
    ensures lo <= Walk(g, steps, lo, hi) <= hi
    decreases |steps|
  {
    if steps != [] {
      WalkStepStaysInside(g, steps[0], lo, hi);
      WalkStaysInside(WalkStep(g, steps[0], lo, hi), steps[1..], lo, hi);
    }
  }

  // ---------------------------------------------------------------------------------------
  // RandomValueFromClosedInterval.

  /** How a value of [min, max] is drawn: by rejection from unrestricted draws, or as min plus
      a draw of NextLong(bound), whose contract is a value in [0, bound) for a positive bound. */
  datatype IntervalPlan = Rejection | Offset(bound: int)

  /** Unchecked 64-bit arithmetic. */
  function Wrap64(x: int): int64 {
    ((x + 0x8000_0000_0000_0000) % 0x1_0000_0000_0000_0000 - 0x8000_0000_0000_0000) as int64
  }

  /** The plan as the source computes it: rejection when `max - min` overflows, otherwise the
      bound `max - min + 1`, both in unchecked arithmetic. */
  function IntervalPlanAsWritten(min: int64, max: int64): IntervalPlan {
    var d := Wrap64(max as int - min as int);
    if d < 0 then Rejection else Offset(Wrap64(d as int + 1) as int)
  }

  /** The interval [0, long.MaxValue] makes the bound wrap to long.MinValue, which NextLong
      refuses. */
  lemma AsWrittenBoundWraps()
    ensures IntervalPlanAsWritten(0, MaxLong) == Offset(MinLong as int)
    ensures IntervalPlanAsWritten(MinLong, -1) == Offset(MinLong as int)
  {
  }

  /** The plan with the overflow of `max - min + 1` also sent to rejection. */
  function IntervalPlanCorrected(min: int64, max: int64): (p: IntervalPlan)
    requires min <= max
    ensures p.Offset? ==> p.bound > 0 && min as int + p.bound - 1 == max as int
    ensures p.Rejection? ==> max as int - min as int >= MaxLong as int
  {
    var d := Wrap64(max as int - min as int);
    if d < 0 || d == MaxLong then Rejection else Offset(d as int + 1)
  }

  /** The two plans differ only where the source's bound wraps. */
  lemma PlansAgreeOtherwise(min: int64, max: int64)
    requires min <= max
    ensures IntervalPlanAsWritten(min, max) != IntervalPlanCorrected(min, max) <==>
      max as int - min as int == MaxLong as int
    ensures IntervalPlanAsWritten(min, max).Offset? && IntervalPlanAsWritten(min, max).bound <= 0 <==>
      max as int - min as int == MaxLong as int
  {
  }

  /** RandomValueFromClosedInterval with the corrected plan: by rejection over `draws`, the
      results of NextLong(), until one lies in [min, max]; otherwise `offset`, the result of
      NextLong(bound), added to min. None means the draws ran out. */
  method RandomValueFromClosedInterval(min: int64, max: int64, draws: seq<int64>, offset: int) returns (r: Option<int64>)
    requires min <= max
    requires IntervalPlanCorrected(min, max).Offset? ==> 0 <= offset < IntervalPlanCorrected(min, max).bound
    ensures r.Some? ==> min <= r.value <= max
    ensures IntervalPlanCorrected(min, max).Offset? ==> r == Some((min as int + offset) as int64)
    ensures IntervalPlanCorrected(min, max).Rejection? ==>
      (r.Some? <==> exists i :: 0 <= i < |draws| && min <= draws[i] <= max) &&
      (r.Some? ==> exists i :: 0 <= i < |draws| && draws[i] == r.value &&
                              (forall j :: 0 <= j < i ==> !(min <= draws[j] <= max)))
  {
    var d := Wrap64(max as int - min as int);
    if d < 0 || d == MaxLong {
      var k := 0;
      while k < |draws|
        invariant 0 <= k <= |draws|
        invariant forall j :: 0 <= j < k ==> !(min <= draws[j] <= max)
      {
        var l := draws[k];
        if min <= l <= max {
          return Some(l);
        }
        k := k + 1;
      }
      return None;
    }
    r := Some((min as int + offset) as int64);
  }

  /** The total length of the pieces, which Join allocates. */
  method SumLengths(pieces: array<array<int64>>) returns (sum: nat)
    ensures sum == TotalLength(Contents(pieces[..]))
  {
    ghost var parts := Contents(pieces[..]);
    sum := 0;
    for k := 0 to pieces.Length
      invariant sum == TotalLength(parts[..k])
    {
      assert parts[..k + 1][..k] == parts[..k];
      sum := sum + pieces[k].Length;
    }
    assert parts[..pieces.Length] == parts;
  }

  /** The copy loop of Join: the pieces, whose contents are `parts`, one after the other into
      `dst`. */
  method ConcatInto(pieces: array<array<int64>>, ghost parts: seq<seq<int64>>, dst: array<int64>)
    requires |parts| == pieces.Length
    requires forall i :: 0 <= i < pieces.Length ==> pieces[i] != dst && pieces[i][..] == parts[i]
    requires dst.Length == TotalLength(parts)
    modifies dst
    ensures dst[..] == Concat(parts)
  {
    var runningSum := 0;
    for k := 0 to pieces.Length
      invariant runningSum == TotalLength(parts[..k]) <= dst.Length
      invariant dst[..runningSum] == Concat(parts[..k])
    {
      var piece := pieces[k];
      assert parts[..k + 1][..k] == parts[..k];
      ConcatLength(parts[..k + 1]);
      TotalLengthPrefix(parts, k + 1);
      ghost var before := dst[..runningSum];
      ArrayCopy(piece, 0, dst, runningSum, piece.Length);
      assert dst[..runningSum + piece.Length] == before + piece[..];
      runningSum := runningSum + piece.Length;
    }
    assert parts[..pieces.Length] == parts;
    ConcatLength(parts);
    assert dst[..] == dst[..runningSum];
  }

  // ---------------------------------------------------------------------------------------
  // The individual.

  class LongVectorIndividual {
    var genome: array<int64>
    var species: IntegerVectorSpecies
    /** The runtime type, which Equals compares. */
    const kind: nat

    constructor (s: IntegerVectorSpecies, k: nat, len: nat)
      ensures species == s && kind == k && genome.Length == len && fresh(genome)
      ensures forall i :: 0 <= i < len ==> genome[i] == 0
    {
      species := s;
      kind := k;
      genome := new int64[len](_ => 0);
    }

    /** The GenomeLength setter: a new genome of length `n` that keeps the first genes and
        fills the rest with 0. */
    method SetGenomeLength(n: nat)
      modifies this
      ensures fresh(genome) && genome.Length == n && species == old(species)
      ensures n <= old(genome.Length) ==> genome[..] == old(genome[..n])
      ensures n > old(genome.Length) ==> genome[..] == old(genome[..]) + seq(n - old(genome.Length), _ => 0)
    {
      var newGenome := new int64[n](_ => 0);
      var keep := if genome.Length < newGenome.Length then genome.Length else newGenome.Length;
      ArrayCopy(genome, 0, newGenome, 0, keep);
      genome := newGenome;
    }

    /** IsInRange: whether every gene lies within its species bounds. */
    method IsInRange() returns (b: bool)
      ensures b <==> InRange(genome[..], species)
    {
      for i := 0 to genome.Length
        invariant InRange(genome[..i], species)
      {
        if genome[i] < species.minGene(i) || genome[i] > species.maxGene(i) {
          return false;
        }
      }
      assert genome[..genome.Length] == genome[..];
      return true;
    }

    /** Clamp: every gene below its minimum becomes the minimum, every gene above its maximum
        the maximum. */
    method Clamp()
      modifies genome
      ensures forall i :: 0 <= i < genome.Length ==>
        genome[i] == ClampGene(old(genome[i]), species.minGene(i), species.maxGene(i))
      ensures (forall i :: 0 <= i < genome.Length ==> species.minGene(i) <= species.maxGene(i)) ==>
        InRange(genome[..], species)
    {
      for i := 0 to genome.Length
        invariant forall j :: 0 <= j < i ==> genome[j] == ClampGene(old(genome[j]), species.minGene(j), species.maxGene(j))
        invariant forall j :: i <= j < genome.Length ==> genome[j] == old(genome[j])
      {
        var minGene := species.minGene(i);
        if genome[i] < minGene {
          genome[i] := minGene;
        } else {
          var maxGene := species.maxGene(i);
          if genome[i] > maxGene {
            genome[i] := maxGene;
          }
        }
      }
      forall i | 0 <= i < genome.Length && species.minGene(i) <= species.maxGene(i)
        ensures species.minGene(i) <= genome[i] <= species.maxGene(i)
      {
        ClampGeneInBounds(old(genome[i]), species.minGene(i), species.maxGene(i));
      }
    }

    /** Split: piece x receives a copy of the genes between boundary x and boundary x + 1. */
    method Split(points: array<int>, pieces: array<array<int64>>)
      requires points.Length >= 1 && pieces.Length == points.Length + 1
      requires SortedPoints(points[..], genome.Length)
      modifies pieces
      ensures forall x :: 0 <= x < pieces.Length ==> fresh(pieces[x])
      ensures Contents(pieces[..]) == Pieces(genome[..], points[..])
    {
      ghost var c := Cuts(points[..], genome.Length);
      CutsSorted(points[..], genome.Length);
      var point0 := 0;
      var point1 := points[0];
      for x := 0 to pieces.Length
        invariant point0 == c[x] && (x < pieces.Length ==> point1 == c[x + 1])
        invariant forall k :: 0 <= k < x ==> fresh(pieces[k]) && pieces[k][..] == genome[c[k]..c[k + 1]]
      {
        var piece := CopyOut(point0, point1);
        pieces[x] := piece;
        point0 := point1;
        point1 := if x >= pieces.Length - 2 then genome.Length else points[x + 1];
      }
    }

    /** A new array holding genes [from, to) of the genome. */
    method CopyOut(from: nat, to: nat) returns (piece: array<int64>)
      requires from <= to <= genome.Length
      ensures fresh(piece) && piece[..] == genome[from..to]
    {
      piece := new int64[to - from];
      ArrayCopy(genome, from, piece, 0, to - from);
    }

    /** Join: the genome becomes the concatenation of the pieces. */
    method Join(pieces: array<array<int64>>)
      modifies this
      ensures fresh(genome) && species == old(species)
      ensures genome[..] == Concat(old(Contents(pieces[..])))
      ensures genome.Length == TotalLength(old(Contents(pieces[..])))
    {
      var sum := SumLengths(pieces);
      var newGenome := new int64[sum];
      ConcatInto(pieces, Contents(pieces[..]), newGenome);
      genome := newGenome;
    }

    /** The swap loop of DefaultCrossover: genes [from, to) change places with the other
        genome's. */
    method SwapRange(other: LongVectorIndividual, from: nat, to: nat)
      requires other.genome != genome && from <= to <= genome.Length == other.genome.Length
      modifies genome, other.genome
      ensures forall y :: 0 <= y < genome.Length ==>
        if from <= y < to then genome[y] == old(other.genome[y]) && other.genome[y] == old(genome[y])
        else genome[y] == old(genome[y]) && other.genome[y] == old(other.genome[y])
    {
      for x := from to to
        invariant forall y :: 0 <= y < genome.Length ==>
          if from <= y < x then genome[y] == old(other.genome[y]) && other.genome[y] == old(genome[y])
          else genome[y] == old(genome[y]) && other.genome[y] == old(other.genome[y])
      {
        var tmp := other.genome[x];
        other.genome[x] := genome[x];
        genome[x] := tmp;
      }
    }

    /** DefaultCrossover for the one-point, two-point and any-point types. Different genome
        lengths are fatal: `ok` is false and nothing changes. */
    method DefaultCrossover(other: LongVectorIndividual, d: CrossoverDraw) returns (ok: bool)
      requires other != this && other.genome != genome && species.chunkSize > 0
      requires DrawFits(d, genome.Length, species.chunkSize)
      modifies genome, other.genome
      ensures ok <==> old(genome.Length) == old(other.genome.Length)
      ensures !ok ==> genome[..] == old(genome[..]) && other.genome[..] == old(other.genome[..])
      ensures ok ==> (genome[..], other.genome[..]) == Exchange(old(genome[..]), old(other.genome[..]), d, species.chunkSize)
    {
      if genome.Length != other.genome.Length {
        return false;
      }
      ghost var a, b := genome[..], other.genome[..];
      ExchangeGenes(other, d);
      ghost var e := Exchange(a, b, d, species.chunkSize);
      assert genome[..] == e.0;
      assert other.genome[..] == e.1;
      return true;
    }

    /** The swap loops of DefaultCrossover: every gene the draws select changes places with
        the other genome's, and every other gene stays. */
    method ExchangeGenes(other: LongVectorIndividual, d: CrossoverDraw)
      requires other != this && other.genome != genome && species.chunkSize > 0
      requires genome.Length == other.genome.Length && DrawFits(d, genome.Length, species.chunkSize)
      modifies genome, other.genome
      ensures forall y :: 0 <= y < genome.Length ==>
        if Exchanged(d, species.chunkSize, y) then genome[y] == old(other.genome[y]) && other.genome[y] == old(genome[y])
        else genome[y] == old(genome[y]) && other.genome[y] == old(other.genome[y])
    {
      var chunk := species.chunkSize;
      match d {
        case OnePoint(point) =>
          CutInside(point, genome.Length, chunk);
          SwapRange(other, 0, point * chunk);
        case TwoPoint(p0, p1) =>
          var point0, point := p0, p1;
          if point0 > point {
            point0, point := point, point0;
          }
          CutInside(point, genome.Length, chunk);
          MulMono(point0, point, chunk);
          SwapRange(other, point0 * chunk, point * chunk);
        case AnyPoint(swap) =>
          SwapChunks(other, swap);
      }
    }

    /** The any-point loop: chunk x changes places with the other genome's when swap[x]. */
    method SwapChunks(other: LongVectorIndividual, swap: seq<bool>)
      requires other != this && other.genome != genome && species.chunkSize > 0
      requires genome.Length == other.genome.Length && |swap| == genome.Length / species.chunkSize
      modifies genome, other.genome
      ensures forall y :: 0 <= y < genome.Length ==>
        if y / species.chunkSize < |swap| && swap[y / species.chunkSize]
        then genome[y] == old(other.genome[y]) && other.genome[y] == old(genome[y])
        else genome[y] == old(genome[y]) && other.genome[y] == old(other.genome[y])
    {
      var chunk := species.chunkSize;
      ghost var a, b := genome[..], other.genome[..];
      for x := 0 to genome.Length / chunk
        invariant ChunksSwapped(genome[..], other.genome[..], a, b, swap, chunk, x)
      {
        ghost var g, o := genome[..], other.genome[..];
        if swap[x] {
          CutInside(x + 1, genome.Length, chunk);
          SwapRange(other, x * chunk, (x + 1) * chunk);
        }
        ChunkSwapStep(g, o, genome[..], other.genome[..], a, b, swap, chunk, x);
      }
    }

    /** One run of the do-while walk on gene x, one step per coin in `steps` (true for +1),
        within [lo, hi]. */
    method WalkGene(x: nat, steps: seq<bool>, lo: int64, hi: int64)
      requires x < genome.Length
      modifies genome
      ensures genome[..] == old(genome[..])[x := Walk(old(genome[x]), steps, lo, hi)]
    {
      var k := 0;
      while k < |steps|
        invariant 0 <= k <= |steps|
        invariant genome[..] == old(genome[..])[x := genome[x]]
        invariant Walk(old(genome[x]), steps, lo, hi) == Walk(genome[x], steps[k..], lo, hi)
      {
        var up := steps[k];
        var g := genome[x];
        if (up && g < hi) || (!up && g > lo) {
          genome[x] := if up then g + 1 else g - 1;
        } else if (!up && g < hi) || (up && g > lo) {
          genome[x] := if up then g - 1 else g + 1;
        }
        assert steps[k..][1..] == steps[k + 1..];
        k := k + 1;
      }
    }

    /** The random-walk branch of DefaultMutate for gene x, with its duplicate retries.
        attempts[k] holds the direction coins of the k-th try (the do-while makes at least one
        step). Every try walks from the gene's old value within WalkLow and WalkHigh; the tries
        stop at the first that changes the gene, and at most duplicateRetries(x) + 1 are made.
        The result is the number of tries made. */
    method RandomWalkMutate(x: nat, attempts: seq<seq<bool>>) returns (tries: nat)
      requires x < genome.Length
      requires |attempts| >= species.duplicateRetries(x) + 1
      requires forall k :: 0 <= k < |attempts| ==> |attempts[k]| >= 1
      modifies genome
      ensures 1 <= tries <= species.duplicateRetries(x) + 1
      ensures forall k :: 0 <= k < tries - 1 ==>
        Walk(old(genome[x]), attempts[k], WalkLow(species, x), WalkHigh(species, x)) == old(genome[x])
      ensures genome[..] == old(genome[..])[x := Walk(old(genome[x]), attempts[tries - 1], WalkLow(species, x), WalkHigh(species, x))]
      ensures genome[x] == old(genome[x]) ==> tries == species.duplicateRetries(x) + 1
      ensures WalkLow(species, x) <= old(genome[x]) <= WalkHigh(species, x) ==>
        WalkLow(species, x) <= genome[x] <= WalkHigh(species, x)
    {
      var before := genome[x];
      var lo, hi := WalkLow(species, x), WalkHigh(species, x);
      tries := 0;
      while tries < species.duplicateRetries(x) + 1
        invariant tries <= species.duplicateRetries(x) + 1
        invariant genome[..] == old(genome[..])
        invariant forall k :: 0 <= k < tries ==> Walk(before, attempts[k], lo, hi) == before
      {
        WalkGene(x, attempts[tries], lo, hi);
        if lo <= before <= hi {
          WalkStaysInside(before, attempts[tries], lo, hi);
        }
        tries := tries + 1;
        if genome[x] != before {
          break;
        }
      }
    }

    /** Equals: same runtime type, same length and the same genes. */
    method Equals(other: LongVectorIndividual) returns (b: bool)
      ensures b <==> kind == other.kind && genome[..] == other.genome[..]
    {
      if kind != other.kind || genome.Length != other.genome.Length {
        return false;
      }
      for j := 0 to genome.Length
        invariant genome[..j] == other.genome[..j]
      {
        if genome[j] != other.genome[j] {
          return false;
        }
      }
      assert genome[..] == genome[..genome.Length];
      assert other.genome[..] == other.genome[..genome.Length];
      return true;
    }

    /** Clone: a new individual with its own copy of the genome. */
    method Clone() returns (c: LongVectorIndividual)
      ensures fresh(c) && fresh(c.genome)
      ensures c.kind == kind && c.species == species && c.genome[..] == genome[..]
    {
      c := new LongVectorIndividual(species, kind, 0);
      var g := new int64[genome.Length];
      ArrayCopy(genome, 0, g, 0, genome.Length);
      c.genome := g;
    }
  }
}
