/** The dynamic section as bytes: what its entries are, and what writing one changes. */
module DynamicBytes {
  import opened Bytes
  import opened ElfTypes
  import opened Patching

  /** The tag of an entry, in full. */
  function FullTag(cls: ElfClass, e: seq<byte>): nat
    requires |e| >= cls.DynSize()
  {
    FromLE(e[..cls.OffSize()])
  }

  /** The section has an entry with tag DT_NULL. */
  predicate Terminated(cls: ElfClass, d: seq<byte>)
    decreases |d|
  {
    |d| >= cls.DynSize() && (FullTag(cls, d) == DT_NULL || Terminated(cls, d[cls.DynSize()..]))
  }

  /** The entries in front of the one with tag DT_NULL. */
  function Decoded(cls: ElfClass, d: seq<byte>): seq<Dyn>
    decreases |d|
  {
    if |d| < cls.DynSize() || FullTag(cls, d) == DT_NULL then []
    else [Dyn(FullTag(cls, d), DynVal(cls, d))] + Decoded(cls, d[cls.DynSize()..])
  }

  function Encoded(cls: ElfClass, e: Dyn): (r: seq<byte>)
    ensures |r| == cls.DynSize()
  {
    LE(e.tag, cls.OffSize()) + LE(e.val, cls.OffSize())
  }

  /** The number of bytes that `n` entries take. */
  function Span(cls: ElfClass, n: nat): nat {
    if n == 0 then 0 else Span(cls, n - 1) + cls.DynSize()
  }

  lemma {:induction false} SpanAdd(cls: ElfClass, m: nat, n: nat)
    ensures Span(cls, m + n) == Span(cls, m) + Span(cls, n)
    decreases n
  {
    if n > 0 {
      SpanAdd(cls, m, n - 1);
    }
  }

  function AllEncoded(cls: ElfClass, l: seq<Dyn>): (r: seq<byte>)
    ensures |r| == Span(cls, |l|)
  {
    if l == [] then [] else Encoded(cls, l[0]) + AllEncoded(cls, l[1..])
  }

  /** An entry that can be stored and does not end the table. */
  predicate Storable(cls: ElfClass, e: Dyn) {
    e.tag != DT_NULL && e.tag < Pow256(cls.OffSize()) && e.val < Pow256(cls.OffSize())
  }

  predicate AllStorable(cls: ElfClass, l: seq<Dyn>) {
    forall i :: 0 <= i < |l| ==> Storable(cls, l[i])
  }

  lemma EncodedEntry(cls: ElfClass, e: Dyn, rest: seq<byte>)
    requires Storable(cls, e)
    ensures FullTag(cls, Encoded(cls, e) + rest) == e.tag && DynVal(cls, Encoded(cls, e) + rest) == e.val
    ensures (Encoded(cls, e) + rest)[cls.DynSize()..] == rest
  {
    var w := cls.OffSize();
    var b := Encoded(cls, e) + rest;
    FromLEOfLE(e.tag, w);
    FromLEOfLE(e.val, w);
    assert b[..w] == LE(e.tag, w) && b[w..cls.DynSize()] == LE(e.val, w);
  }

  lemma EntryEncoded(cls: ElfClass, d: seq<byte>)
    requires |d| >= cls.DynSize()
    ensures d[..cls.DynSize()] == Encoded(cls, Dyn(FullTag(cls, d), DynVal(cls, d)))
    ensures FullTag(cls, d) < Pow256(cls.OffSize()) && DynVal(cls, d) < Pow256(cls.OffSize())
  {
    var w, sz := cls.OffSize(), cls.DynSize();
    LEOfFromLE(d[..w]);
    LEOfFromLE(d[w..sz]);
    assert d[..sz] == d[..w] + d[w..sz];
  }

  /** A terminated section is its entries followed by something that begins with DT_NULL. */
  lemma {:induction false} Decomposed(cls: ElfClass, d: seq<byte>)
    requires Terminated(cls, d)
    ensures var l := Decoded(cls, d);
      && AllStorable(cls, l)
      && Span(cls, |l|) + cls.DynSize() <= |d|
      && d[..Span(cls, |l|)] == AllEncoded(cls, l)
      && FullTag(cls, d[Span(cls, |l|)..]) == DT_NULL
    decreases |d|
  {
    hide FromLE, LE;
    var sz := cls.DynSize();
    var l := Decoded(cls, d);
    if FullTag(cls, d) != DT_NULL {
      Decomposed(cls, d[sz..]);
      EntryEncoded(cls, d);
      var n := Span(cls, |l| - 1);
      assert l[1..] == Decoded(cls, d[sz..]);
      assert d[..n + sz] == d[..sz] + d[sz..][..n];
      assert d[n + sz..] == d[sz..][n..];
    } else {
      assert d[0..] == d;
    }
  }

  /** Storable entries followed by something that begins with DT_NULL are a terminated section with these entries. */
  lemma {:induction false} Composed(cls: ElfClass, l: seq<Dyn>, rest: seq<byte>)
    requires AllStorable(cls, l) && |rest| >= cls.DynSize() && FullTag(cls, rest) == DT_NULL
    ensures Terminated(cls, AllEncoded(cls, l) + rest) && Decoded(cls, AllEncoded(cls, l) + rest) == l
    decreases |l|
  {
    hide FromLE, LE, Encoded, FullTag, DynVal, Terminated, Decoded;
    if l == [] {
      assert AllEncoded(cls, l) + rest == rest;
      OnlyNull(cls, rest);
    } else {
      assert forall i :: 0 <= i < |l[1..]| ==> l[1..][i] == l[i + 1];
      Composed(cls, l[1..], rest);
      var tail := AllEncoded(cls, l[1..]) + rest;
      EntryInFront(cls, l[0], tail);
      Assoc3(Encoded(cls, l[0]), AllEncoded(cls, l[1..]), rest);
      assert l == [l[0]] + l[1..];
    }
  }

  lemma OnlyNull(cls: ElfClass, rest: seq<byte>)
    requires |rest| >= cls.DynSize() && FullTag(cls, rest) == DT_NULL
    ensures Terminated(cls, rest) && Decoded(cls, rest) == []
  {
  }

  /** One entry more in front. */
  lemma EntryInFront(cls: ElfClass, e: Dyn, tail: seq<byte>)
    requires Storable(cls, e) && Terminated(cls, tail)
    ensures Terminated(cls, Encoded(cls, e) + tail) && Decoded(cls, Encoded(cls, e) + tail) == [e] + Decoded(cls, tail)
  {
    hide Encoded, FullTag, DynVal;
    EncodedEntry(cls, e, tail);
    assert (Encoded(cls, e) + tail)[cls.DynSize()..] == tail;
  }

  lemma {:induction false} AllEncodedAppend(cls: ElfClass, a: seq<Dyn>, b: seq<Dyn>)
    ensures AllEncoded(cls, a + b) == AllEncoded(cls, a) + AllEncoded(cls, b)
    decreases |a|
  {
    hide Encoded;
    if a == [] {
      assert a + b == b;
    } else {
      assert (a + b)[1..] == a[1..] + b;
      AllEncodedAppend(cls, a[1..], b);
    }
  }

  /** The entry at index `k`; behind the last one there is DT_NULL. */
  lemma {:induction false} EntryAt(cls: ElfClass, d: seq<byte>, k: nat)
    requires Terminated(cls, d) && k <= |Decoded(cls, d)|
    ensures Span(cls, k) + cls.DynSize() <= |d|
    ensures var e := d[Span(cls, k)..];
      if k < |Decoded(cls, d)| then FullTag(cls, e) == Decoded(cls, d)[k].tag && DynVal(cls, e) == Decoded(cls, d)[k].val && FullTag(cls, e) != DT_NULL
      else FullTag(cls, e) == DT_NULL
    decreases k
  {
    hide FromLE, LE, FullTag, DynVal;
    var sz := cls.DynSize();
    if k > 0 {
      EntryAt(cls, d[sz..], k - 1);
      assert d[Span(cls, k)..] == d[sz..][Span(cls, k - 1)..];
    } else {
      assert d[0..] == d;
    }
  }

  /** Storing an entry over an existing one changes that one. */
  lemma StoredAt(cls: ElfClass, d: seq<byte>, k: nat, e: Dyn)
    requires Terminated(cls, d) && k < |Decoded(cls, d)| && Storable(cls, e)
    ensures Span(cls, k) + cls.DynSize() <= |d|
    ensures var d' := Splice(d, Span(cls, k), Encoded(cls, e));
      Terminated(cls, d') && Decoded(cls, d') == Decoded(cls, d)[k := e]
  {
    hide FromLE, LE, FullTag, DynVal, Encoded, Decoded, AllEncoded, Terminated, Span, Splice, Storable;
    var l := Decoded(cls, d);
    var n := Span(cls, |l|);
    EntryAt(cls, d, k);
    Decomposed(cls, d);
    SplitAround(cls, l, k);
    SplitAround(cls, l[k := e], k);
    assert l[k := e][..k] == l[..k] && l[k := e][k + 1..] == l[k + 1..];
    var a, b, rest := AllEncoded(cls, l[..k]), AllEncoded(cls, l[k + 1..]), d[n..];
    assert d == d[..n] + rest;
    SpliceMiddle(a, Encoded(cls, l[k]), Encoded(cls, e), b, rest);
    Composed(cls, l[k := e], rest);
  }

  lemma SpliceMiddle(a: seq<byte>, x: seq<byte>, y: seq<byte>, b: seq<byte>, rest: seq<byte>)
    requires |x| == |y|
    ensures Splice((a + x + b) + rest, |a|, y) == (a + y + b) + rest
  {
  }

  lemma SplitAround(cls: ElfClass, l: seq<Dyn>, k: nat)
    requires k < |l|
    ensures AllEncoded(cls, l) == AllEncoded(cls, l[..k]) + Encoded(cls, l[k]) + AllEncoded(cls, l[k + 1..])
  {
    hide Encoded;
    assert l == l[..k] + l[k..] && l[k..][1..] == l[k + 1..];
    AllEncodedAppend(cls, l[..k], l[k..]);
    assert (AllEncoded(cls, l[..k]) + Encoded(cls, l[k])) + AllEncoded(cls, l[k + 1..])
        == AllEncoded(cls, l[..k]) + (Encoded(cls, l[k]) + AllEncoded(cls, l[k + 1..]));
  }

  /** Zero bytes read as DT_NULL. */
  lemma {:induction false} ZeroTag(cls: ElfClass, d: seq<byte>)
    requires |d| >= cls.DynSize() && forall i :: 0 <= i < cls.OffSize() ==> d[i] == 0
    ensures FullTag(cls, d) == DT_NULL
  {
    ZerosAreZero(d[..cls.OffSize()]);
  }

  lemma {:induction false} ZerosAreZero(bs: seq<byte>)
    requires forall i :: 0 <= i < |bs| ==> bs[i] == 0
    ensures FromLE(bs) == 0
  {
    if bs != [] {
      ZerosAreZero(bs[1..]);
    }
  }

  /** A section grown by some entries at its front. */
  function Prepended(cls: ElfClass, d: seq<byte>, new_: seq<Dyn>): (r: seq<byte>)
    requires Terminated(cls, d)
  {
    var n := Span(cls, |new_|);
    Decomposed(cls, d);
    var kept := d[..Span(cls, |Decoded(cls, d)|) + cls.DynSize()];
    var grown := d + Repeat(0, n);
    Splice(Splice(grown, n, kept), 0, AllEncoded(cls, new_))
  }

  lemma FrontAndBehind(s: seq<byte>, kept: seq<byte>, front: seq<byte>)
    requires |front| + |kept| <= |s|
    ensures Splice(Splice(s, |front|, kept), 0, front) == front + (kept + s[|front| + |kept|..])
  {
  }

  lemma PrependedEntries(cls: ElfClass, d: seq<byte>, new_: seq<Dyn>)
    requires Terminated(cls, d) && AllStorable(cls, new_)
    ensures Terminated(cls, Prepended(cls, d, new_))
    ensures Decoded(cls, Prepended(cls, d, new_)) == new_ + Decoded(cls, d)
    ensures |Prepended(cls, d, new_)| == |d| + Span(cls, |new_|)
  {
    hide FromLE, LE, Encoded, DynVal, Decoded, AllEncoded, Terminated, Span, Splice, Storable;
    var l := Decoded(cls, d);
    var n, m, sz := Span(cls, |new_|), Span(cls, |l|), cls.DynSize();
    Decomposed(cls, d);
    var r := Prepended(cls, d, new_);
    AllEncodedAppend(cls, new_, l);
    var grown, kept := d + Repeat(0, n), d[..m + sz];
    FrontAndBehind(grown, kept, AllEncoded(cls, new_));
    var rest := d[m..m + sz] + grown[n + m + sz..];
    assert kept == d[..m] + d[m..m + sz];
    assert r == (AllEncoded(cls, new_) + AllEncoded(cls, l)) + rest;
    assert rest[..cls.OffSize()] == d[m..][..cls.OffSize()];
    Composed(cls, new_ + l, rest);
  }
}
