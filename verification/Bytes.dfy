/** Bytes, fixed-width integers in both byte orders, and writes into a byte string. */
module Bytes {

  type byte = n: nat | n < 256

  const UINT64_MODULUS: nat := 0x1_0000_0000_0000_0000

  /** 256 to the power `w`: one more than the largest integer of `w` bytes. */
  function Pow256(w: nat): (r: nat)
    ensures r >= 1
  {
    if w == 0 then 1 else 256 * Pow256(w - 1)
  }

  /** The `w` low bytes of `n`, least significant first. */
  function LE(n: nat, w: nat): (bs: seq<byte>)
    ensures |bs| == w
    decreases w
  {
    if w == 0 then [] else [n % 256] + LE(n / 256, w - 1)
  }

  /** The integer whose bytes are `bs`, least significant first. */
  function FromLE(bs: seq<byte>): nat {
    if |bs| == 0 then 0 else bs[0] + 256 * FromLE(bs[1..])
  }

  /** The `w` low bytes of `n`, most significant first. */
  function BE(n: nat, w: nat): (bs: seq<byte>)
    ensures |bs| == w
    decreases w
  {
    if w == 0 then [] else BE(n / 256, w - 1) + [n % 256]
  }

  /** The integer whose bytes are `bs`, most significant first. */
  function FromBE(bs: seq<byte>): nat {
    if |bs| == 0 then 0 else 256 * FromBE(bs[..|bs| - 1]) + bs[|bs| - 1]
  }

  lemma {:induction false} FromLEOfLE(n: nat, w: nat)
    requires n < Pow256(w)
    ensures FromLE(LE(n, w)) == n
    decreases w
  {
    if w > 0 {
      FromLEOfLE(n / 256, w - 1);
      assert LE(n, w)[1..] == LE(n / 256, w - 1);
    }
  }

  lemma {:induction false} LEOfFromLE(bs: seq<byte>)
    ensures FromLE(bs) < Pow256(|bs|)
    ensures LE(FromLE(bs), |bs|) == bs
  {
    if |bs| > 0 {
      hide FromLE, LE, Pow256;
      LEOfFromLE(bs[1..]);
      FirstOfLE(bs, FromLE(bs[1..]));
      FirstAndRest(bs);
    }
  }

  /** The first byte of an integer, and the power that goes with its length. */
  lemma FirstOfLE(bs: seq<byte>, v: nat)
    requires bs != [] && v == FromLE(bs[1..])
    ensures FromLE(bs) == bs[0] + 256 * v
    ensures LE(FromLE(bs), |bs|) == [bs[0]] + LE(v, |bs| - 1)
    ensures Pow256(|bs|) == 256 * Pow256(|bs| - 1)
  {
  }

  lemma {:induction false} FromBEOfBE(n: nat, w: nat)
    requires n < Pow256(w)
    ensures FromBE(BE(n, w)) == n
    decreases w
  {
    if w > 0 {
      FromBEOfBE(n / 256, w - 1);
      assert BE(n, w)[..w - 1] == BE(n / 256, w - 1);
    }
  }

  lemma {:induction false} BEOfFromBE(bs: seq<byte>)
    ensures FromBE(bs) < Pow256(|bs|)
    ensures BE(FromBE(bs), |bs|) == bs
  {
    if |bs| > 0 {
      hide FromBE, BE, Pow256;
      var front, last := bs[..|bs| - 1], bs[|bs| - 1];
      BEOfFromBE(front);
      LastOfBE(bs, FromBE(front));
      FrontAndLast(bs);
    }
  }

  /** The last byte of an integer, and the power that goes with its length. */
  lemma LastOfBE(bs: seq<byte>, v: nat)
    requires bs != [] && v == FromBE(bs[..|bs| - 1])
    ensures FromBE(bs) == 256 * v + bs[|bs| - 1]
    ensures BE(FromBE(bs), |bs|) == BE(v, |bs| - 1) + [bs[|bs| - 1]]
    ensures Pow256(|bs|) == 256 * Pow256(|bs| - 1)
  {
  }

  /** The bytes of an integer are its digits to the base 256. */
  lemma {:induction false} DigitOfLE(n: nat, w: nat, i: nat)
    requires i < w
    ensures LE(n, w)[i] == n / Pow256(i) % 256
    decreases w
  {
    if i > 0 {
      DigitOfLE(n / 256, w - 1, i - 1);
      DivideTwice(n, 256, Pow256(i - 1));
    }
  }

  lemma {:induction false} DigitOfBE(n: nat, w: nat, i: nat)
    requires i < w
    ensures BE(n, w)[i] == n / Pow256(w - 1 - i) % 256
    decreases w
  {
    if i < w - 1 {
      DigitOfBE(n / 256, w - 1, i);
      DivideTwice(n, 256, Pow256(w - 2 - i));
    }
  }

  /** Dividing in two steps. */
  lemma DivideTwice(x: nat, c: nat, d: nat)
    requires c > 0 && d > 0
    ensures c * d > 0 && x / c / d == x / (c * d)
  {
    var q, r := x / c, x % c;
    var t, u := q / d, q % d;
    Regroup(x, c, d, q, t, u, r);
    QuotientUnique(x, c * d, t, c * u + r);
  }

  lemma Regroup(x: nat, c: nat, d: nat, q: nat, t: nat, u: nat, r: nat)
    requires x == c * q + r && q == d * t + u && u < d && r < c
    ensures x == (c * d) * t + (c * u + r) && c * u + r < c * d
  {
    Distributes(c, d * t, u);
    Associates(c, d, t);
    Distributes(c, u, 1);
    Larger(c, u + 1, d);
  }

  lemma Distributes(a: nat, b: nat, c: nat)
    ensures a * (b + c) == a * b + a * c
  {
  }

  lemma Associates(a: nat, b: nat, c: nat)
    ensures a * (b * c) == (a * b) * c
  {
  }

  lemma Larger(a: nat, b: nat, c: nat)
    requires b <= c
    ensures a * b <= a * c
  {
  }

  lemma QuotientUnique(n: nat, d: nat, q: nat, r: nat)
    requires n == d * q + r && r < d
    ensures n / d == q && n % d == r
  {
    var e: int := n / d - q;
    assert d * e == r - n % d by {
      assert n == d * (n / d) + n % d;
    }
    assert e >= 1 ==> d * e >= d;
    assert e <= -1 ==> d * e + d <= 0;
  }

  /** Concatenation is associative. */
  lemma Assoc3<T>(a: seq<T>, b: seq<T>, c: seq<T>)
    ensures a + (b + c) == (a + b) + c
  {
  }

  lemma FirstAndRest<T>(s: seq<T>)
    requires s != []
    ensures s == [s[0]] + s[1..]
  {
  }

  lemma PrefixAndNext<T>(s: seq<T>, i: nat)
    requires i < |s|
    ensures s[..i + 1] == s[..i] + [s[i]]
  {
  }

  lemma FrontAndLast<T>(s: seq<T>)
    requires s != []
    ensures s == s[..|s| - 1] + [s[|s| - 1]]
  {
  }

  /** The powers the 2-, 4- and 8-byte integers need. */
  lemma Pow256Values()
    ensures Pow256(1) == 0x100
    ensures Pow256(2) == 0x1_0000
    ensures Pow256(4) == 0x1_0000_0000
    ensures Pow256(8) == 0x1_0000_0000_0000_0000
  {
    assert Pow256(3) == 0x100_0000;
    assert Pow256(5) == 0x100_0000_0000;
    assert Pow256(6) == 0x1_0000_0000_0000;
    assert Pow256(7) == 0x100_0000_0000_0000;
  }

  /** Two's complement: the unsigned image of a signed integer of `w` bytes. */
  function ToUnsigned(x: int, w: nat): nat
    requires -2 * x <= Pow256(w) && 2 * x < Pow256(w)
  {
    if x >= 0 then x else x + Pow256(w)
  }

  /** Two's complement: the signed reading of an unsigned integer of `w` bytes. */
  function ToSigned(n: nat, w: nat): (x: int)
    requires n < Pow256(w)
    ensures -2 * x <= Pow256(w) && 2 * x < Pow256(w)
    ensures ToUnsigned(x, w) == n
  {
    if 2 * n < Pow256(w) then n else n - Pow256(w)
  }

  /** `n` copies of `v`. */
  function Repeat(v: byte, n: nat): (bs: seq<byte>)
    ensures |bs| == n
  {
    seq(n, _ => v)
  }

  /** `s` with `d` written over it at `off`. */
  function Splice(s: seq<byte>, off: nat, d: seq<byte>): (r: seq<byte>)
    requires off + |d| <= |s|
    ensures |r| == |s|
  {
    s[..off] + d + s[off + |d|..]
  }

  /** The `n` bytes at `off`. */
  function Slice(s: seq<byte>, off: nat, n: nat): (r: seq<byte>)
    requires off + n <= |s|
    ensures |r| == n
  {
    s[off..off + n]
  }

  /** The ranges `[a, a + m)` and `[b, b + n)` share no byte. */
  predicate Apart(a: nat, m: nat, b: nat, n: nat) {
    m == 0 || n == 0 || a + m <= b || b + n <= a
  }

  lemma SubSlice<T>(c: seq<T>, i: nat, n: nat, k: nat, m: nat)
    requires i + n <= |c| && k + m <= n
    ensures c[i..i + n][k..k + m] == c[i + k..i + k + m]
  {
    var a, b := c[i..i + n][k..k + m], c[i + k..i + k + m];
    forall j | 0 <= j < m ensures a[j] == b[j] {
      assert a[j] == c[i..i + n][k + j] == c[i + (k + j)] == b[j];
    }
  }

  lemma SuffixSlice<T>(c: seq<T>, i: nat, k: nat, m: nat)
    requires i + k + m <= |c|
    ensures c[i..][k..k + m] == c[i + k..i + k + m]
  {
    var a, b := c[i..][k..k + m], c[i + k..i + k + m];
    forall j | 0 <= j < m ensures a[j] == b[j] {
      assert a[j] == c[i..][k + j] == c[i + (k + j)] == b[j];
    }
  }

  lemma SliceOfFront<T>(a: seq<T>, b: seq<T>, k: nat, m: nat)
    requires k + m <= |a|
    ensures (a + b)[k..k + m] == a[k..k + m]
  {
    var x, y := (a + b)[k..k + m], a[k..k + m];
    forall j | 0 <= j < m ensures x[j] == y[j] {
      assert x[j] == (a + b)[k + j] == a[k + j] == y[j];
    }
  }

  lemma SliceOfBack<T>(a: seq<T>, b: seq<T>)
    ensures (a + b)[|a|..|a| + |b|] == b && (a + b)[..|a|] == a
  {
  }

  lemma SpliceRead(s: seq<byte>, off: nat, d: seq<byte>)
    requires off + |d| <= |s|
    ensures Slice(Splice(s, off, d), off, |d|) == d
  {
  }

  lemma SpliceFrame(s: seq<byte>, off: nat, d: seq<byte>, a: nat, n: nat)
    requires off + |d| <= |s| && a + n <= |s| && Apart(off, |d|, a, n)
    ensures Slice(Splice(s, off, d), a, n) == Slice(s, a, n)
  {
  }

  /** Two adjacent writes are one. */
  lemma SpliceAppend(s: seq<byte>, off: nat, d: seq<byte>, e: seq<byte>)
    requires off + |d| + |e| <= |s|
    ensures Splice(Splice(s, off, d), off + |d|, e) == Splice(s, off, d + e)
  {
  }

  lemma SpliceNothing(s: seq<byte>, off: nat)
    requires off <= |s|
    ensures Splice(s, off, []) == s
  {
  }

  lemma SliceFromStart(s: seq<byte>, n: nat)
    requires n <= |s|
    ensures Slice(s, 0, n) == s[..n]
  {
  }
}
