/** The section header table: names, look-up by name, and sorting that keeps every reference by name. */
module Sections {
  import opened Bytes
  import opened Wrappers
  import opened ElfTypes

  /** The C string at `pos` in `tab`. */
  function CString(tab: seq<byte>, pos: nat): Name
    decreases |tab| - pos
  {
    if pos >= |tab| || tab[pos] == 0 then [] else [tab[pos]] + CString(tab, pos + 1)
  }

  function NameOf(tab: seq<byte>, sh: Shdr): Name {
    CString(tab, sh.name)
  }

  /** The least index from `i` on whose section is called `n`, or 0. */
  function FindFrom(tab: seq<byte>, ss: seq<Shdr>, n: Name, i: nat): (r: nat)
    ensures r == 0 || (i <= r < |ss| && NameOf(tab, ss[r]) == n)
    ensures r == 0 ==> forall j :: i <= j < |ss| && 0 < i ==> NameOf(tab, ss[j]) != n
    decreases |ss| - i
  {
    if i >= |ss| then 0
    else if NameOf(tab, ss[i]) == n then i
    else FindFrom(tab, ss, n, i + 1)
  }

  /** `findSection3`: section 0 is never found, and 0 stands for no such section. */
  function Find(tab: seq<byte>, ss: seq<Shdr>, n: Name): nat {
    FindFrom(tab, ss, n, 1)
  }

  predicate Has(tab: seq<byte>, ss: seq<Shdr>, n: Name) {
    Find(tab, ss, n) != 0
  }

  /** The header of the section called `n`. */
  function Sec(tab: seq<byte>, ss: seq<Shdr>, n: Name): Shdr
    requires Has(tab, ss, n)
  {
    ss[Find(tab, ss, n)]
  }

  /** Apart from section 0, no two sections share a name. */
  predicate DistinctNames(tab: seq<byte>, ss: seq<Shdr>) {
    forall i, j :: 1 <= i < j < |ss| ==> NameOf(tab, ss[i]) != NameOf(tab, ss[j])
  }

  lemma FindOwnName(tab: seq<byte>, ss: seq<Shdr>, i: nat)
    requires DistinctNames(tab, ss) && 1 <= i < |ss|
    ensures Find(tab, ss, NameOf(tab, ss[i])) == i
  {
    assert Has(tab, ss, NameOf(tab, ss[i]));
  }

  /** Look-up depends on nothing but the names. */
  lemma {:induction false} FindDependsOnNames(tab: seq<byte>, a: seq<Shdr>, b: seq<Shdr>, n: Name, i: nat)
    requires |a| == |b| && forall k :: 0 <= k < |a| ==> a[k].name == b[k].name
    ensures FindFrom(tab, a, n, i) == FindFrom(tab, b, n, i)
    decreases |a| - i
  {
    if i < |a| {
      FindDependsOnNames(tab, a, b, n, i + 1);
    }
  }

  // ---------------------------------------------------------------- references between sections

  /** Section links, and the section numbers in relocation headers, are indices into the table. */
  predicate LinksInRange(ss: seq<Shdr>) {
    forall i :: 1 <= i < |ss| ==> ss[i].link < |ss| && (ss[i].Relocations() ==> ss[i].info < |ss|)
  }

  /** The name of the section a non-zero index refers to. */
  function Target(tab: seq<byte>, ss: seq<Shdr>, index: nat): Option<Name> {
    if 0 < index < |ss| then Some(NameOf(tab, ss[index])) else None
  }

  /** Everything a sort must leave alone in a header. */
  function Body(sh: Shdr): Shdr {
    if sh.Relocations() then sh.(link := 0, info := 0) else sh.(link := 0)
  }

  /** `b` in the table `bs` is the same section as `a` in the table `as_`: same contents of the header, same references by name. */
  predicate SameSection(tab: seq<byte>, as_: seq<Shdr>, a: Shdr, bs: seq<Shdr>, b: Shdr) {
    && Body(a) == Body(b)
    && Target(tab, as_, a.link) == Target(tab, bs, b.link)
    && (a.Relocations() ==> Target(tab, as_, a.info) == Target(tab, bs, b.info))
  }

  predicate SortedByOffset(ss: seq<Shdr>) {
    forall i, j :: 0 <= i < j < |ss| ==> ss[i].offset <= ss[j].offset
  }

  /** `p` lists every index below `n` exactly once. */
  predicate Permutation(p: seq<nat>, n: nat) {
    && |p| == n
    && (forall i :: 0 <= i < n ==> p[i] < n)
    && (forall i, j :: 0 <= i < j < n ==> p[i] != p[j])
    && (forall j: nat :: j < n ==> j in p)
  }

  /** The table `b` is the table `a` put in order of offset, with every reference still naming the same section. */
  ghost predicate Resorted(tab: seq<byte>, a: seq<Shdr>, b: seq<Shdr>) {
    && |b| == |a| >= 1
    && b[0] == a[0]
    && SortedByOffset(b)
    && DistinctNames(tab, b)
    && LinksInRange(b)
    && (forall n :: Has(tab, b, n) <==> Has(tab, a, n))
    && (forall n :: Has(tab, a, n) && Has(tab, b, n) ==> SameSection(tab, a, Sec(tab, a, n), b, Sec(tab, b, n)))
  }

  /** What a table must satisfy before it is sorted. */
  predicate Sortable(tab: seq<byte>, ss: seq<Shdr>) {
    && |ss| >= 1
    && DistinctNames(tab, ss)
    && LinksInRange(ss)
    && ss[0].offset == 0
    && (forall i :: 1 <= i < |ss| ==> ss[i].offset > 0)
  }

  function Insert<T>(s: seq<T>, pos: nat, x: T): (r: seq<T>)
    requires pos <= |s|
    ensures |r| == |s| + 1
  {
    s[..pos] + [x] + s[pos..]
  }

  lemma InsertMultiset<T>(s: seq<T>, pos: nat, x: T)
    requires pos <= |s|
    ensures multiset(Insert(s, pos, x)) == multiset(s) + multiset{x}
  {
    assert s == s[..pos] + s[pos..];
  }

  lemma InsertKeepsPermutation(p: seq<nat>, k: nat, pos: nat)
    requires Permutation(p, k) && pos <= k
    ensures Permutation(Insert(p, pos, k), k + 1)
  {
    var q := Insert(p, pos, k);
    assert forall i :: 0 <= i < pos ==> q[i] == p[i];
    assert forall i :: pos < i < k + 1 ==> q[i] == p[i - 1];
    forall j: nat | j < k + 1 ensures j in q {
      if j < k {
        assert j in p;
        var i :| 0 <= i < |p| && p[i] == j;
        assert q[if i < pos then i else i + 1] == j;
      } else {
        assert q[pos] == k;
      }
    }
  }

  lemma NothingPermuted()
    ensures Permutation([], 0)
  {
  }

  lemma InsertKeepsOrder(r: seq<Shdr>, pos: nat, x: Shdr)
    requires pos <= |r| && SortedByOffset(r)
    requires pos > 0 ==> r[pos - 1].offset <= x.offset
    requires pos < |r| ==> x.offset <= r[pos].offset
    ensures SortedByOffset(Insert(r, pos, x))
  {
  }

  /** `r` has the headers of `ss` that `p` lists. */
  predicate Arranged(ss: seq<Shdr>, r: seq<Shdr>, p: seq<nat>) {
    |r| == |p| && forall i :: 0 <= i < |p| ==> p[i] < |ss| && r[i] == ss[p[i]]
  }

  lemma InsertKeepsArrangement(ss: seq<Shdr>, r: seq<Shdr>, p: seq<nat>, pos: nat)
    requires Arranged(ss, r, p) && |p| < |ss| && pos <= |p|
    ensures Arranged(ss, Insert(r, pos, ss[|p|]), Insert(p, pos, |p|))
  {
  }

  /** A sort by offset.  Callers know only that the result is some ordered arrangement of the headers. */
  method SortByOffset(ss: seq<Shdr>) returns (r: seq<Shdr>, ghost p: seq<nat>)
    ensures Permutation(p, |ss|)
    ensures |r| == |ss| && forall i :: 0 <= i < |ss| ==> r[i] == ss[p[i]]
    ensures SortedByOffset(r)
  {
    hide Permutation;
    r, p := [], [];
    NothingPermuted();
    for k := 0 to |ss|
      invariant |r| == k && Permutation(p, k)
      invariant Arranged(ss, r, p)
      invariant SortedByOffset(r)
    {
      var pos := k;
      while pos > 0 && r[pos - 1].offset > ss[k].offset
        invariant 0 <= pos <= k
        invariant forall i :: pos <= i < k ==> r[i].offset > ss[k].offset
      {
        pos := pos - 1;
      }
      InsertKeepsPermutation(p, k, pos);
      InsertKeepsOrder(r, pos, ss[k]);
      InsertKeepsArrangement(ss, r, p, pos);
      r := Insert(r, pos, ss[k]);
      p := Insert(p, pos, k);
    }
  }

  /** The facts that the first two loops of the sort collect: for each section with a reference, the name it refers to. */
  predicate Records(tab: seq<byte>, ss: seq<Shdr>, linkage: map<Name, Name>, info: map<Name, Name>) {
    && (forall i :: 1 <= i < |ss| && ss[i].link != 0 && ss[i].link < |ss| ==>
          NameOf(tab, ss[i]) in linkage && linkage[NameOf(tab, ss[i])] == NameOf(tab, ss[ss[i].link]))
    && (forall i :: 1 <= i < |ss| && ss[i].Relocations() && ss[i].info != 0 && ss[i].info < |ss| ==>
          NameOf(tab, ss[i]) in info && info[NameOf(tab, ss[i])] == NameOf(tab, ss[ss[i].info]))
  }

  /** A header whose references have been translated back from names. */
  function Relinked(tab: seq<byte>, ss: seq<Shdr>, sh: Shdr, linkage: map<Name, Name>, info: map<Name, Name>): Shdr {
    var n := NameOf(tab, sh);
    var l := if sh.link != 0 && n in linkage then Find(tab, ss, linkage[n]) else sh.link;
    var f := if sh.Relocations() && sh.info != 0 && n in info then Find(tab, ss, info[n]) else sh.info;
    sh.(link := l, info := f)
  }

  /** A permuted table has the same names, in other places. */
  lemma PermutedNames(tab: seq<byte>, a: seq<Shdr>, b: seq<Shdr>, p: seq<nat>)
    requires Sortable(tab, a) && |b| == |a| && Permutation(p, |a|) && p[0] == 0
    requires forall i :: 0 <= i < |a| ==> b[i].name == a[p[i]].name
    ensures DistinctNames(tab, b)
    ensures forall n :: Has(tab, b, n) <==> Has(tab, a, n)
    ensures forall n :: Has(tab, a, n) ==> Find(tab, a, n) == p[Find(tab, b, n)]
  {
    forall i, j | 1 <= i < j < |b| ensures NameOf(tab, b[i]) != NameOf(tab, b[j]) {
      assert p[i] != p[j] && p[i] != p[0] && p[j] != p[0];
    }
    forall n ensures Has(tab, b, n) <==> Has(tab, a, n)
             ensures Has(tab, a, n) ==> Find(tab, a, n) == p[Find(tab, b, n)]
    {
      if Has(tab, a, n) {
        var k := Find(tab, a, n);
        assert k in p;
        var i :| 0 <= i < |p| && p[i] == k;
        FindOwnName(tab, b, i);
      }
      if Has(tab, b, n) {
        var i := Find(tab, b, n);
        assert p[0] != p[i];
        FindOwnName(tab, a, p[i]);
      }
    }
  }

  /** Section 0, alone at offset 0, is sorted to the front. */
  lemma FirstStaysFirst(tab: seq<byte>, a: seq<Shdr>, s: seq<Shdr>, p: seq<nat>)
    requires Sortable(tab, a) && Permutation(p, |a|) && |s| == |a| && SortedByOffset(s)
    requires forall i :: 0 <= i < |a| ==> s[i] == a[p[i]]
    ensures p[0] == 0 && forall i :: 1 <= i < |p| ==> p[i] != 0
  {
    assert 0 in p;
    var i :| 0 <= i < |p| && p[i] == 0;
    assert s[i].offset == 0;
  }

  /** Every reference in a rearrangement has been recorded. */
  lemma AllRecorded(tab: seq<byte>, a: seq<Shdr>, s: seq<Shdr>, p: seq<nat>, linkage: map<Name, Name>, info: map<Name, Name>)
    requires Sortable(tab, a) && Records(tab, a, linkage, info) && Permutation(p, |a|) && |s| == |a|
    requires (forall i :: 0 <= i < |a| ==> s[i] == a[p[i]]) && forall i :: 1 <= i < |p| ==> p[i] != 0
    ensures forall i :: 1 <= i < |s| && s[i].link != 0 ==> NameOf(tab, s[i]) in linkage
    ensures forall i :: 1 <= i < |s| && s[i].Relocations() && s[i].info != 0 ==> NameOf(tab, s[i]) in info
  {
    hide NameOf, DistinctNames;
    forall i | 1 <= i < |s|
      ensures s[i].link != 0 ==> NameOf(tab, s[i]) in linkage
      ensures s[i].Relocations() && s[i].info != 0 ==> NameOf(tab, s[i]) in info
    {
      var j := p[i];
      assert 1 <= j < |a| && s[i] == a[j];
    }
  }

  /** Any ordered arrangement, once its references are translated back, is a faithful re-sort. */
  lemma RelinkedIsResorted(tab: seq<byte>, a: seq<Shdr>, s: seq<Shdr>, b: seq<Shdr>, p: seq<nat>,
                           linkage: map<Name, Name>, info: map<Name, Name>)
    requires Sortable(tab, a) && Permutation(p, |a|) && Records(tab, a, linkage, info)
    requires |s| == |b| == |a| && SortedByOffset(s)
    requires forall i :: 0 <= i < |a| ==> s[i] == a[p[i]]
    requires b[0] == s[0] && forall i :: 1 <= i < |a| ==> b[i] == Relinked(tab, s, s[i], linkage, info)
    ensures Resorted(tab, a, b)
  {
    FirstStaysFirst(tab, a, s, p);
    PermutedNames(tab, a, s, p);
    PermutedNames(tab, a, b, p);
    forall n ensures Find(tab, s, n) == Find(tab, b, n) {
      FindDependsOnNames(tab, s, b, n, 1);
    }
    forall i | 1 <= i < |b|
      ensures b[i].link < |b| && (b[i].Relocations() ==> b[i].info < |b|)
      ensures SameSection(tab, a, a[p[i]], b, b[i])
    {
      assert p[i] != p[0];
      RelinkedIsSame(tab, a, s, b, p[i], s[i], linkage, info);
    }
    forall n | Has(tab, a, n) ensures SameSection(tab, a, Sec(tab, a, n), b, Sec(tab, b, n)) {
      assert Sec(tab, a, n) == a[p[Find(tab, b, n)]];
    }
  }

  lemma RelinkedIsSame(tab: seq<byte>, a: seq<Shdr>, s: seq<Shdr>, b: seq<Shdr>, k: nat, sh: Shdr,
                       linkage: map<Name, Name>, info: map<Name, Name>)
    requires Sortable(tab, a) && Records(tab, a, linkage, info) && 1 <= k < |a| && sh == a[k]
    requires |s| == |b| == |a|
    requires forall n :: Has(tab, s, n) <==> Has(tab, a, n)
    requires forall n :: Find(tab, s, n) == Find(tab, b, n)
    ensures var r := Relinked(tab, s, sh, linkage, info);
      r.link < |b| && (r.Relocations() ==> r.info < |b|) && SameSection(tab, a, sh, b, r)
  {
    if sh.link != 0 {
      var m := NameOf(tab, a[sh.link]);
      FindOwnName(tab, a, sh.link);
      assert Has(tab, s, m) && Find(tab, s, m) == Find(tab, b, m);
    }
    if sh.Relocations() && sh.info != 0 {
      var m := NameOf(tab, a[sh.info]);
      FindOwnName(tab, a, sh.info);
      assert Has(tab, s, m) && Find(tab, s, m) == Find(tab, b, m);
    }
  }

  /** Re-sorting composes. */
  lemma ResortedTwice(tab: seq<byte>, a: seq<Shdr>, b: seq<Shdr>, c: seq<Shdr>)
    requires Resorted(tab, a, b) && Resorted(tab, b, c)
    ensures Resorted(tab, a, c)
  {
    forall n | Has(tab, a, n) && Has(tab, c, n) ensures SameSection(tab, a, Sec(tab, a, n), c, Sec(tab, c, n)) {
      assert Has(tab, b, n);
      assert SameSection(tab, a, Sec(tab, a, n), b, Sec(tab, b, n));
      assert SameSection(tab, b, Sec(tab, b, n), c, Sec(tab, c, n));
    }
  }

  /** A re-sorted table can be sorted again. */
  lemma ResortedIsSortable(tab: seq<byte>, a: seq<Shdr>, b: seq<Shdr>)
    requires Sortable(tab, a) && Resorted(tab, a, b)
    ensures Sortable(tab, b)
  {
    forall i | 1 <= i < |b| ensures b[i].offset > 0 {
      var n := NameOf(tab, b[i]);
      FindOwnName(tab, b, i);
      assert Has(tab, b, n);
      assert SameSection(tab, a, Sec(tab, a, n), b, Sec(tab, b, n));
      assert Body(Sec(tab, a, n)).offset == Body(b[i]).offset;
    }
  }
}
