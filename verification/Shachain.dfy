/**
 The shachain: a tree of hashes in which the secret of one index can be derived from the
 secret of any index that is a bit prefix of it.  The hash is left abstract.
 */
module Shachain {
  import opened Bytes
  import opened Wrappers

  type Hash32 = h: seq<byte> | |h| == 32 witness seq(32, _ => 0)

  /** SHA-256, as far as this model is concerned. */
  type HashFunction = seq<byte> -> Hash32

  /** An index paired with its secret. */
  datatype Element = Element(index: nat, hash: Hash32)

  const MAX_HEIGHT: nat := 48
  const ROOT_INDEX: nat := 0

  function Pow2(n: nat): (r: nat)
    ensures r >= 1
  {
    if n == 0 then 1 else 2 * Pow2(n - 1)
  }

  // The index of the first secret handed out, 2^48 - 1.
  const START_INDEX: nat := 0xFFFF_FFFF_FFFF

  /** `x >> p`. */
  function ShiftRight(x: nat, p: nat): nat
    decreases p
  {
    if p == 0 then x else ShiftRight(x / 2, p - 1)
  }

  function GetBit(index: nat, position: nat): nat {
    ShiftRight(index, position) % 2
  }

  /** `index` with its low `position` bits cleared. */
  function GetPrefix(index: nat, position: nat): nat
    decreases position
  {
    if position == 0 then index else 2 * GetPrefix(index / 2, position - 1)
  }

  /** Trailing zero bits of `index`, at most `cap` of them. */
  function TrailingZeros(index: nat, cap: nat): (zeros: nat)
    ensures zeros <= cap
    decreases cap
  {
    if cap == 0 || index % 2 != 0 then 0 else 1 + TrailingZeros(index / 2, cap - 1)
  }

  function Bucket(index: nat): nat {
    TrailingZeros(index, MAX_HEIGHT)
  }

  /** The positions below `p` at which `to` has a one, highest first. */
  function OnesBelow(to: nat, p: nat): seq<nat> {
    if p == 0 then []
    else (if GetBit(to, p - 1) == 1 then [p - 1] else []) + OnesBelow(to, p - 1)
  }

  /** The flips that lead from one index to another, if there are any. */
  function Transformations(from: nat, to: nat): Option<seq<nat>> {
    if from == to then Some([])
    else if from != GetPrefix(to, Bucket(from)) then None
    else Some(OnesBelow(to, Bucket(from)))
  }

  predicate Derivable(from: nat, to: nat) {
    Transformations(from, to).Some?
  }

  /** `b ^ (1 << bit)` on one byte. */
  function FlipBit(b: byte, bit: nat): byte
    requires bit < 8
  {
    var p := [1, 2, 4, 8, 16, 32, 64, 128][bit];
    if b / p % 2 == 0 then
      assert b + p < 256 by {
        assert bit == 0 || bit == 1 || bit == 2 || bit == 3 || bit == 4 || bit == 5 || bit == 6 || bit == 7;
      }
      b + p
    else b - p
  }

  /** One link of the chain: flip the bit at `position`, then hash. */
  function FlipAndHash(H: HashFunction, buf: Hash32, position: nat): Hash32
    requires position < 256
  {
    H(buf[position / 8 := FlipBit(buf[position / 8], position % 8)])
  }

  predicate InBuffer(positions: seq<nat>) {
    forall i :: 0 <= i < |positions| ==> positions[i] < 256
  }

  function Walk(H: HashFunction, buf: Hash32, positions: seq<nat>): Hash32
    requires InBuffer(positions)
    decreases |positions|
  {
    if positions == [] then buf
    else Walk(H, FlipAndHash(H, buf, positions[0]), positions[1..])
  }

  /** The element at `to`, derived from `e`. */
  function Derived(H: HashFunction, e: Element, to: nat): Option<Element> {
    match Transformations(e.index, to)
    case None => None
    case Some(positions) =>
      OnesBelowAreOnes(to, Bucket(e.index));
      Some(Element(to, Walk(H, e.hash, positions)))
  }

  /** The number `x` with the bit of weight 2^p exchanged. */
  function Flipped(x: nat, p: nat): nat {
    if x / Pow2(p) % 2 == 0 then x + Pow2(p)
    else
      assert x >= Pow2(p) by {
        QuotientOfSmaller(x, Pow2(p));
      }
      x - Pow2(p)
  }

  lemma QuotientOfSmaller(x: nat, d: nat)
    requires d > 0
    ensures x < d ==> x / d == 0
  {
  }

  /**
   `generate_from_seed` of BOLT #3, section "Per-commitment Secret Requirements", in numbers: a secret stands for
   the number whose bytes it holds, least significant first, and the bit B of that number is the bit B mod 8 of the byte B div 8.
   */
  function GenerateFromSeed(H: HashFunction, seed: Hash32, I: nat, bits: nat := 48): Hash32
    requires bits <= 48
    decreases bits
  {
    if bits == 0 then seed
    else
      var p := if I / Pow2(bits - 1) % 2 == 1 then H(LE(Flipped(FromLE(seed), bits - 1), 32)) else seed;
      GenerateFromSeed(H, p, I, bits - 1)
  }

  // ---------------------------------------------------------------- bit lemmas

  lemma {:induction false} ShiftRightStep(x: nat, p: nat)
    ensures ShiftRight(x, p + 1) == ShiftRight(x, p) / 2
    decreases p
  {
    if p > 0 {
      ShiftRightStep(x / 2, p - 1);
    }
  }

  lemma {:induction false} ShiftIsQuotient(x: nat, p: nat)
    ensures ShiftRight(x, p) == x / Pow2(p)
    decreases p
  {
    if p > 0 {
      ShiftIsQuotient(x / 2, p - 1);
      DivideTwice(x, 2, Pow2(p - 1));
    }
  }

  /** The prefix is what is left without the remainder. */
  lemma {:induction false} PrefixIsMultiple(x: nat, p: nat)
    ensures GetPrefix(x, p) == x - x % Pow2(p)
    decreases p
  {
    if p > 0 {
      PrefixIsMultiple(x / 2, p - 1);
      TwiceAndLowest(x, Pow2(p - 1));
    }
  }

  lemma TwiceAndLowest(x: nat, d: nat)
    requires d > 0
    ensures x % (2 * d) == 2 * (x / 2 % d) + x % 2
  {
    var q, r := x / 2 / d, x / 2 % d;
    Associates(2, d, q);
    QuotientUnique(x, 2 * d, q, 2 * r + x % 2);
  }

  /** The bucket of an index is the number of times that it can be halved, up to 48. */
  lemma {:induction false} TrailingZerosMeaning(x: nat, cap: nat)
    ensures var z := TrailingZeros(x, cap); z <= cap && x % Pow2(z) == 0 && (z < cap ==> x % Pow2(z + 1) != 0)
    decreases cap
  {
    if cap > 0 && x % 2 == 0 {
      TrailingZerosMeaning(x / 2, cap - 1);
      var z := TrailingZeros(x / 2, cap - 1);
      TwiceRemainder(x / 2, Pow2(z));
      TwiceRemainder(x / 2, Pow2(z + 1));
    }
  }

  lemma TwiceRemainder(x: nat, d: nat)
    requires d > 0
    ensures (2 * x) % (2 * d) == 2 * (x % d)
  {
    assert 2 * x == (2 * d) * (x / d) + 2 * (x % d) by {
      assert 2 * (d * (x / d)) == (2 * d) * (x / d);
    }
    QuotientUnique(2 * x, 2 * d, x / d, 2 * (x % d));
  }

  // ---------------------------------------------------------------- one flip

  lemma Pow2OfBit(i: nat)
    requires i < 8
    ensures Pow2(i) == [1, 2, 4, 8, 16, 32, 64, 128][i]
  {
    assert i == 0 || i == 1 || i == 2 || i == 3 || i == 4 || i == 5 || i == 6 || i == 7;
  }

  lemma Pow2Of8()
    ensures Pow2(8) == 256
  {
  }

  lemma FlipIsFlipped(b: byte, i: nat)
    requires i < 8
    ensures FlipBit(b, i) == Flipped(b, i)
  {
    Pow2OfBit(i);
  }

  lemma {:induction false} FlippedBit(x: nat, p: nat, j: nat)
    ensures GetBit(Flipped(x, p), j) == if j == p then 1 - GetBit(x, j) else GetBit(x, j)
    decreases p
  {
    if p == 0 {
      FlippedLowest(x);
    } else {
      hide Flipped;
      FlippedBelow(x / 2, 2, x % 2, p, 1);
      if j > 0 {
        FlippedBit(x / 2, p - 1, j - 1);
      }
    }
  }

  lemma FlippedLowest(x: nat)
    ensures Flipped(x, 0) % 2 == 1 - x % 2 && Flipped(x, 0) / 2 == x / 2
  {
    assert Flipped(x, 0) == if x % 2 == 0 then x + 1 else x - 1;
  }

  /** Exchanging a bit above the lowest `k` bits leaves these alone. */
  lemma FlippedBelow(x: nat, c: nat, low: nat, p: nat, k: nat)
    requires k <= p && c == Pow2(k) && low < c
    ensures Flipped(c * x + low, p) == c * Flipped(x, p - k) + low
  {
    hide Pow2;
    var d := Pow2(p - k);
    QuotientAbove(x, c, low, p, k);
    Distributes(c, x, d);
    if x / d % 2 != 0 {
      QuotientOfSmaller(x, d);
      Distributes(c, x - d, d);
    }
  }

  lemma QuotientAbove(x: nat, c: nat, low: nat, p: nat, k: nat)
    requires k <= p && c == Pow2(k) && low < c
    ensures Pow2(p) == c * Pow2(p - k) && (c * x + low) / Pow2(p) == x / Pow2(p - k)
  {
    hide Pow2;
    PowersAdd(k, p - k);
    QuotientUnique(c * x + low, c, x, low);
    DivideTwice(c * x + low, c, Pow2(p - k));
  }

  lemma {:induction false} PowersAdd(a: nat, b: nat)
    ensures Pow2(a + b) == Pow2(a) * Pow2(b)
  {
    if a > 0 {
      PowersAdd(a - 1, b);
      Associates(2, Pow2(a - 1), Pow2(b));
    }
  }

  /** The flip in the byte exchanges one bit of the number whose bytes these are. */
  lemma {:induction false} FlipInNumber(bs: seq<byte>, position: nat)
    requires position < 8 * |bs|
    ensures FromLE(bs[position / 8 := FlipBit(bs[position / 8], position % 8)]) == Flipped(FromLE(bs), position)
    decreases |bs|
  {
    hide FlipBit, Flipped, Pow2;
    var rest := FromLE(bs[1..]);
    if position < 8 {
      var b := FlipBit(bs[0], position);
      assert bs[0 := b][1..] == bs[1..];
      FlipIsFlipped(bs[0], position);
      FlippedLow(bs[0], rest, position);
    } else {
      var b := FlipBit(bs[position / 8], position % 8);
      assert (position - 8) / 8 == position / 8 - 1 && (position - 8) % 8 == position % 8;
      assert bs[position / 8 := b][1..] == bs[1..][position / 8 - 1 := b];
      FlipInNumber(bs[1..], position - 8);
      Pow2Of8();
      FlippedBelow(rest, 256, bs[0], position, 8);
    }
  }

  lemma FlippedLow(b: byte, rest: nat, i: nat)
    requires i < 8
    ensures Flipped(b + 256 * rest, i) == Flipped(b, i) + 256 * rest
  {
    Pow2OfBit(i);
    Pow2OfBit(7 - i);
    LowQuotient(b, rest, Pow2(i), Pow2(7 - i));
    assert i == 0 || i == 1 || i == 2 || i == 3 || i == 4 || i == 5 || i == 6 || i == 7;
  }

  lemma LowQuotient(b: byte, rest: nat, d: nat, k: nat)
    requires d * k == 128
    ensures (b + 256 * rest) / d % 2 == b / d % 2
  {
    var t, u := b / d, b % d;
    assert d * (t + 2 * (k * rest)) == d * t + 2 * ((d * k) * rest);
    QuotientUnique(b + 256 * rest, d, t + 2 * (k * rest), u);
  }

  /** One link of the chain hashes the number with the bit `position` exchanged, and no other. */
  lemma LinkFlipsOneBit(H: HashFunction, buf: Hash32, position: nat)
    requires position < 256
    ensures FlipAndHash(H, buf, position) == H(LE(Flipped(FromLE(buf), position), 32))
    ensures forall j: nat :: Flipped(FromLE(buf), position) / Pow2(j) % 2 == FromLE(buf) / Pow2(j) % 2 <==> j != position
  {
    hide FlipBit, Flipped, GetBit, Pow2, FromLE, LE;
    var x := FromLE(buf);
    FlipInNumber(buf, position);
    LEOfFromLE(buf[position / 8 := FlipBit(buf[position / 8], position % 8)]);
    forall j: nat ensures Flipped(x, position) / Pow2(j) % 2 == x / Pow2(j) % 2 <==> j != position {
      FlippedBit(x, position, j);
      BitIsQuotient(x, j);
      BitIsQuotient(Flipped(x, position), j);
    }
  }

  /** Flipping a bit of a byte changes that bit alone. */
  lemma FlipBitFlips(b: byte, bit: nat, j: nat)
    requires bit < 8 && j < 8
    ensures GetBit(FlipBit(b, bit), j) == if j == bit then 1 - GetBit(b, j) else GetBit(b, j)
  {
    hide GetBit, FlipBit, Flipped;
    FlipIsFlipped(b, bit);
    FlippedBit(b, bit, j);
  }

  lemma BitIsQuotient(x: nat, p: nat)
    ensures GetBit(x, p) == x / Pow2(p) % 2
    ensures GetBit(x, p) == 0 || GetBit(x, p) == 1
  {
    ShiftIsQuotient(x, p);
  }

  // ---------------------------------------------------------------- blocks and paths

  /** A number with `z` trailing zeros is the prefix of exactly the numbers in its block. */
  lemma {:induction false} PrefixIffInBlock(from: nat, to: nat, cap: nat)
    ensures from == GetPrefix(to, TrailingZeros(from, cap)) <==> from <= to < from + Pow2(TrailingZeros(from, cap))
    decreases cap
  {
    if cap > 0 && from % 2 == 0 {
      PrefixIffInBlock(from / 2, to / 2, cap - 1);
    }
  }

  lemma {:induction false} OnesBelowAreOnes(to: nat, p: nat)
    ensures forall i :: 0 <= i < |OnesBelow(to, p)| ==> OnesBelow(to, p)[i] < p
    ensures forall i, j :: 0 <= i < j < |OnesBelow(to, p)| ==> OnesBelow(to, p)[i] > OnesBelow(to, p)[j]
    ensures forall q :: q in OnesBelow(to, p) <==> 0 <= q < p && GetBit(to, q) == 1
    decreases p
  {
    if p > 0 {
      OnesBelowAreOnes(to, p - 1);
    }
  }

  /** Sum of the powers of two at the given positions. */
  function SumPow2(positions: seq<nat>): nat {
    if positions == [] then 0 else Pow2(positions[0]) + SumPow2(positions[1..])
  }

  lemma {:induction false} PrefixStep(x: nat, p: nat)
    ensures GetPrefix(x, p) == GetPrefix(x, p + 1) + GetBit(x, p) * Pow2(p)
    decreases p
  {
    if p > 0 {
      PrefixStep(x / 2, p - 1);
      assert GetPrefix(x, p + 1) == 2 * GetPrefix(x / 2, p) && GetPrefix(x, p) == 2 * GetPrefix(x / 2, p - 1);
      assert GetBit(x, p) == GetBit(x / 2, p - 1) && Pow2(p) == 2 * Pow2(p - 1);
      assert GetBit(x, p) == 0 || GetBit(x, p) == 1;
      hide GetPrefix, GetBit, Pow2;
      TwiceTheBit(GetBit(x, p), Pow2(p - 1));
    }
  }

  lemma TwiceTheBit(b: nat, k: nat)
    requires b < 2
    ensures b * (2 * k) == 2 * (b * k)
  {
  }

  lemma {:induction false} OnesBelowSum(to: nat, p: nat)
    ensures SumPow2(OnesBelow(to, p)) == to - GetPrefix(to, p)
    decreases p
  {
    if p > 0 {
      OnesBelowSum(to, p - 1);
      hide GetBit, GetPrefix, Pow2, OnesBelow;
      PrefixOfBit(to, p - 1);
      OnesBelowStep(to, p);
    }
  }

  lemma PrefixOfBit(x: nat, p: nat)
    ensures GetPrefix(x, p) == GetPrefix(x, p + 1) + if GetBit(x, p) == 1 then Pow2(p) else 0
  {
    PrefixStep(x, p);
    assert GetBit(x, p) == 0 || GetBit(x, p) == 1;
  }

  /** Below its trailing zeros a number has no ones. */
  lemma {:induction false} NoOnesBelowZeros(x: nat, cap: nat, p: nat)
    requires p < TrailingZeros(x, cap)
    ensures GetBit(x, p) == 0
    decreases cap
  {
    if p > 0 {
      NoOnesBelowZeros(x / 2, cap - 1, p - 1);
    }
  }

  /** Above the cleared bits a prefix has the bits of the number. */
  lemma {:induction false} PrefixKeepsHighBits(x: nat, z: nat, p: nat)
    requires z <= p
    ensures GetBit(GetPrefix(x, z), p) == GetBit(x, p)
    decreases z
  {
    if z > 0 {
      PrefixKeepsHighBits(x / 2, z - 1, p - 1);
    }
  }

  /** The ones of `c` split at `z` into the ones of its prefix and those below `z`. */
  lemma {:induction false} OnesBelowSplit(b: nat, c: nat, z: nat, p: nat)
    requires z == Bucket(b) && b == GetPrefix(c, z) && z <= p
    ensures OnesBelow(c, p) == OnesBelow(b, p) + OnesBelow(c, z)
    decreases p
  {
    if p == z {
      OnesBelowZero(b, z);
    } else {
      PrefixKeepsHighBits(c, z, p - 1);
      OnesBelowSplit(b, c, z, p - 1);
    }
  }

  lemma {:induction false} OnesBelowZero(b: nat, p: nat)
    requires p <= Bucket(b)
    ensures OnesBelow(b, p) == []
  {
    if p > 0 {
      NoOnesBelowZeros(b, MAX_HEIGHT, p - 1);
      OnesBelowZero(b, p - 1);
    }
  }

  /** A larger number in the block of another has fewer trailing zeros, and its block lies within that one. */
  lemma {:induction false} BucketShrinks(a: nat, b: nat, cap: nat)
    requires a < b < a + Pow2(TrailingZeros(a, cap))
    ensures TrailingZeros(b, cap) < TrailingZeros(a, cap)
    ensures b + Pow2(TrailingZeros(b, cap)) <= a + Pow2(TrailingZeros(a, cap))
    decreases cap
  {
    if cap > 0 && a % 2 == 0 && b % 2 == 0 {
      BucketShrinks(a / 2, b / 2, cap - 1);
    }
  }

  // ---------------------------------------------------------------- main results

  /** The indices derivable from `i` are exactly those of its block. */
  lemma DerivableIsInterval(i: nat, j: nat)
    ensures Derivable(i, j) <==> i <= j < i + Pow2(Bucket(i))
  {
    PrefixIffInBlock(i, j, MAX_HEIGHT);
  }

  /** Any two blocks are nested or disjoint. */
  lemma BlocksNestedOrDisjoint(i: nat, j: nat)
    ensures (forall k :: Derivable(j, k) ==> Derivable(i, k))
      || (forall k :: Derivable(i, k) ==> Derivable(j, k))
      || (forall k :: !(Derivable(i, k) && Derivable(j, k)))
  {
    forall k: nat ensures Derivable(i, k) <==> i <= k < i + Pow2(Bucket(i)) { DerivableIsInterval(i, k); }
    forall k: nat ensures Derivable(j, k) <==> j <= k < j + Pow2(Bucket(j)) { DerivableIsInterval(j, k); }
    if i < j < i + Pow2(Bucket(i)) {
      BucketShrinks(i, j, MAX_HEIGHT);
    } else if j < i < j + Pow2(Bucket(j)) {
      BucketShrinks(j, i, MAX_HEIGHT);
    }
  }

  /** The flips name the bits that differ, from the highest down, and account for the whole distance. */
  lemma TransformationsMeaning(from: nat, to: nat)
    requires Derivable(from, to)
    ensures var ps := Transformations(from, to).value;
      && (forall i, j :: 0 <= i < j < |ps| ==> ps[i] > ps[j])
      && (forall q :: q in ps <==> 0 <= q < Bucket(from) && GetBit(to, q) != GetBit(from, q))
      && SumPow2(ps) == to - from
  {
    var z := Bucket(from);
    PrefixIffInBlock(from, to, MAX_HEIGHT);
    OnesBelowAreOnes(to, z);
    OnesBelowSum(to, z);
    forall q: nat | q < z ensures GetBit(from, q) == 0 { NoOnesBelowZeros(from, MAX_HEIGHT, q); }
    if from == to {
      OnesBelowZero(from, z);
    }
  }

  /** Deriving in two steps flips the same bits in the same order as deriving directly. */
  lemma PathIndependence(a: nat, b: nat, c: nat)
    requires Derivable(a, b) && Derivable(b, c)
    ensures Derivable(a, c)
    ensures Transformations(a, c).value == Transformations(a, b).value + Transformations(b, c).value
  {
    var za, zb := Bucket(a), Bucket(b);
    if a != b && b != c {
      DerivableIsInterval(a, b);
      DerivableIsInterval(b, c);
      DerivableIsInterval(a, c);
      BucketShrinks(a, b, MAX_HEIGHT);
      OnesBelowSplit(b, c, zb, za);
    }
  }

  lemma {:induction false} WalkAppend(H: HashFunction, buf: Hash32, ps: seq<nat>, qs: seq<nat>)
    requires InBuffer(ps) && InBuffer(qs)
    ensures Walk(H, buf, ps + qs) == Walk(H, Walk(H, buf, ps), qs)
    decreases |ps|
  {
    if ps == [] {
      assert ps + qs == qs;
    } else {
      assert (ps + qs)[1..] == ps[1..] + qs;
      WalkAppend(H, FlipAndHash(H, buf, ps[0]), ps[1..], qs);
    }
  }

  /** For any hash function, the secret of an index does not depend on the route taken to it. */
  lemma DeriveIsPathIndependent(H: HashFunction, e: Element, b: nat, c: nat)
    requires Derived(H, e, b).Some? && Derived(H, Derived(H, e, b).value, c).Some?
    ensures Derived(H, e, c) == Derived(H, Derived(H, e, b).value, c)
  {
    PathIndependence(e.index, b, c);
    var ps, qs := Transformations(e.index, b).value, Transformations(b, c).value;
    OnesBelowAreOnes(b, Bucket(e.index));
    OnesBelowAreOnes(c, Bucket(b));
    WalkAppend(H, e.hash, ps, qs);
  }

  lemma {:induction false} WalkIsGenerate(H: HashFunction, seed: Hash32, I: nat, bits: nat)
    requires bits <= 48
    ensures InBuffer(OnesBelow(I, bits))
    ensures Walk(H, seed, OnesBelow(I, bits)) == GenerateFromSeed(H, seed, I, bits)
    decreases bits
  {
    hide FlipAndHash, GetBit, FromLE, LE, Flipped, Pow2;
    OnesBelowAreOnes(I, bits);
    if bits > 0 {
      hide OnesBelow, GenerateFromSeed;
      OnesBelowStep(I, bits);
      GenerateStep(H, seed, I, bits);
      var next := if GetBit(I, bits - 1) == 1 then FlipAndHash(H, seed, bits - 1) else seed;
      WalkIsGenerate(H, next, I, bits - 1);
    }
  }

  lemma GenerateStep(H: HashFunction, seed: Hash32, I: nat, bits: nat)
    requires 0 < bits <= 48
    ensures GenerateFromSeed(H, seed, I, bits)
         == GenerateFromSeed(H, if GetBit(I, bits - 1) == 1 then FlipAndHash(H, seed, bits - 1) else seed, I, bits - 1)
  {
    hide FlipAndHash, GetBit, FromLE, LE, Flipped, Pow2;
    BitIsQuotient(I, bits - 1);
    LinkFlipsOneBit(H, seed, bits - 1);
  }

  lemma OnesBelowStep(to: nat, p: nat)
    requires p > 0
    ensures GetBit(to, p - 1) != 1 ==> OnesBelow(to, p) == OnesBelow(to, p - 1)
    ensures GetBit(to, p - 1) == 1 ==>
      OnesBelow(to, p) != [] && OnesBelow(to, p)[0] == p - 1 && OnesBelow(to, p)[1..] == OnesBelow(to, p - 1)
  {
    hide GetBit;
    var rest := OnesBelow(to, p - 1);
    assert [] + rest == rest && ([p - 1] + rest)[1..] == rest;
  }

  /** `newIndex`: counting down from the start index, in 64-bit arithmetic. */
  function NewIndex(v: nat): (index: nat)
    requires v < UINT64_MODULUS
    ensures index < UINT64_MODULUS
  {
    (START_INDEX - v) % UINT64_MODULUS
  }

  lemma StartIndexReached(v: nat)
    requires v < UINT64_MODULUS
    ensures v <= START_INDEX ==> NewIndex(v) == START_INDEX - v
    ensures NewIndex(v) <= START_INDEX <==> v <= START_INDEX
  {
  }

  lemma Pow2Of48()
    ensures Pow2(48) == START_INDEX + 1
  {
    assert Pow2(8) == 256;
    assert Pow2(16) == 0x1_0000;
    assert Pow2(24) == 0x100_0000;
    assert Pow2(32) == 0x1_0000_0000;
    assert Pow2(40) == 0x100_0000_0000;
  }

  /** A producer has a secret for exactly the first 2^48 requests, and it is the one BOLT #3 prescribes. */
  lemma ProducerMeetsBolt3(H: HashFunction, root: Hash32, v: nat)
    requires v < UINT64_MODULUS
    ensures Derived(H, Element(ROOT_INDEX, root), NewIndex(v)).Some? <==> v <= 0xFFFF_FFFF_FFFF
    ensures v <= 0xFFFF_FFFF_FFFF ==>
      Derived(H, Element(ROOT_INDEX, root), NewIndex(v)).value.hash == GenerateFromSeed(H, root, 0xFFFF_FFFF_FFFF - v)
  {
    hide Pow2, TrailingZeros, GenerateFromSeed, Walk, OnesBelow, GetPrefix;
    BucketOfRoot(MAX_HEIGHT);
    Pow2Of48();
    StartIndexReached(v);
    DerivableIsInterval(ROOT_INDEX, NewIndex(v));
    if v <= START_INDEX {
      WalkIsGenerate(H, root, START_INDEX - v, 48);
      if v == START_INDEX {
        OnesBelowZero(ROOT_INDEX, 48);
      }
    }
  }

  lemma {:induction false} BucketOfRoot(cap: nat)
    ensures TrailingZeros(ROOT_INDEX, cap) == cap
  {
    if cap > 0 {
      BucketOfRoot(cap - 1);
    }
  }

  // ---------------------------------------------------------------- the routines

  method CountTrailingZeros(index: nat) returns (zeros: nat)
    ensures zeros == Bucket(index)
  {
    zeros := 0;
    assert ShiftRight(index, 0) == index;
    while zeros < MAX_HEIGHT
      invariant zeros <= MAX_HEIGHT
      invariant Bucket(index) == zeros + TrailingZeros(ShiftRight(index, zeros), MAX_HEIGHT - zeros)
    {
      if GetBit(index, zeros) != 0 {
        break;
      }
      ShiftRightStep(index, zeros);
      zeros := zeros + 1;
    }
  }

  method DeriveBitTransformations(from: nat, to: nat) returns (r: Option<seq<nat>>)
    ensures r == Transformations(from, to)
  {
    hide GetBit, GetPrefix, TrailingZeros;
    var positions: seq<nat> := [];
    if from == to {
      return Some(positions);
    }
    var zeros := CountTrailingZeros(from);
    if from != GetPrefix(to, zeros) {
      return None;
    }
    var position := zeros;
    while position > 0
      invariant position <= zeros
      invariant positions + OnesBelow(to, position) == OnesBelow(to, zeros)
    {
      position := position - 1;
      OnesBelowStep(to, position + 1);
      if GetBit(to, position) == 1 {
        FirstAndRest(OnesBelow(to, position + 1));
        Assoc3(positions, [position], OnesBelow(to, position));
        positions := positions + [position];
      }
    }
    assert positions + OnesBelow(to, 0) == positions;
    return Some(positions);
  }

  method Derive(H: HashFunction, e: Element, toIndex: nat) returns (r: Option<Element>)
    ensures r == Derived(H, e, toIndex)
  {
    var positions := DeriveBitTransformations(e.index, toIndex);
    if positions.None? {
      return None;
    }
    OnesBelowAreOnes(toIndex, Bucket(e.index));
    var ps := positions.value;
    var buf := e.hash;
    var i := 0;
    while i < |ps|
      invariant 0 <= i <= |ps|
      invariant Walk(H, buf, ps[i..]) == Walk(H, e.hash, ps)
    {
      var byteNumber := ps[i] / 8;
      var bitNumber := ps[i] % 8;
      buf := H(buf[byteNumber := FlipBit(buf[byteNumber], bitNumber)]);
      assert ps[i..][1..] == ps[i + 1..];
      i := i + 1;
    }
    return Some(Element(toIndex, buf));
  }

  method AtIndex(H: HashFunction, root: Hash32, v: nat) returns (secret: Option<Hash32>)
    requires v < UINT64_MODULUS
    ensures secret.Some? <==> v <= 0xFFFF_FFFF_FFFF
    ensures v <= 0xFFFF_FFFF_FFFF ==> secret.value == GenerateFromSeed(H, root, 0xFFFF_FFFF_FFFF - v)
  {
    var ind := NewIndex(v);
    var e := Derive(H, Element(ROOT_INDEX, root), ind);
    ProducerMeetsBolt3(H, root, v);
    return if e.None? then None else Some(e.value.hash);
  }
}
