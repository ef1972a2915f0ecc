/** The file being rewritten, as a value: its bytes, its headers, and the sections waiting to be replaced. */
module Image {
  import opened Bytes
  import opened ElfTypes
  import S = Sections

  /** New contents for a section. */
  datatype Replacement = Replacement(name: Name, data: seq<byte>)

  /** What does not change during a run. */
  datatype Config = Config(cls: ElfClass, pageSize: nat, maxSize: nat, tab: seq<byte>,
                           oldNames: seq<Name>, isExecutable: bool)

  datatype State = State(cfg: Config, contents: seq<byte>, fileSize: nat, hdr: Ehdr,
                         phdrs: seq<Phdr>, shdrs: seq<Shdr>, replaced: seq<Replacement>)
  {
    predicate Has(n: Name) { S.Has(cfg.tab, shdrs, n) }

    function Sec(n: Name): Shdr
      requires Has(n)
    {
      S.Sec(cfg.tab, shdrs, n)
    }

    /** The section called `n` exists and has bytes in the file. */
    predicate Backed(n: Name) { Has(n) && Sec(n).FileBacked() }

    /** The range of a section lies in the buffer. */
    predicate InBuffer(n: Name)
      requires Has(n)
    {
      Sec(n).offset + Sec(n).size <= |contents|
    }

    /** The bytes of the section called `n`. */
    function Content(n: Name): seq<byte>
      requires Has(n) && InBuffer(n)
    {
      Slice(contents, Sec(n).offset, Sec(n).size)
    }

    function ShTableSize(): nat { hdr.shnum * cfg.cls.ShdrSize() }

    /** Where the section header table and the ELF header leave off, the program header table may begin. */
    function HeadersSize(): nat { cfg.cls.EhdrSize() + |phdrs| * cfg.cls.PhdrSize() }
  }

  // ---------------------------------------------------------------- the replaced sections, in order of name

  /** The order of `std::string`. */
  predicate Less(a: Name, b: Name)
    decreases |b|
  {
    if b == [] then false
    else if a == [] then true
    else a[0] < b[0] || (a[0] == b[0] && Less(a[1..], b[1..]))
  }

  lemma {:induction false} LessTransitive(a: Name, b: Name, c: Name)
    requires Less(a, b) && Less(b, c)
    ensures Less(a, c)
    decreases |c|
  {
    if a != [] && a[0] == b[0] && b[0] == c[0] {
      LessTransitive(a[1..], b[1..], c[1..]);
    }
  }

  lemma {:induction false} LessIrreflexive(a: Name)
    ensures !Less(a, a)
    decreases |a|
  {
    if a != [] {
      LessIrreflexive(a[1..]);
    }
  }

  lemma {:induction false} LessTotal(a: Name, b: Name)
    ensures a == b || Less(a, b) || Less(b, a)
    decreases |b|
  {
    if a != [] && b != [] && a[0] == b[0] {
      LessTotal(a[1..], b[1..]);
      if a[1..] == b[1..] {
        assert a == [a[0]] + a[1..] && b == [b[0]] + b[1..];
      }
    }
  }

  /** The names agree up to some place, at which the first one ends or has the smaller byte. */
  predicate FirstDifference(a: Name, b: Name, k: nat) {
    k <= |a| && k < |b| && a[..k] == b[..k] && (k == |a| || a[k] < b[k])
  }

  lemma LessMeaning(a: Name, b: Name)
    ensures Less(a, b) <==> exists k: nat :: FirstDifference(a, b, k)
  {
    if Less(a, b) {
      var k := DifferenceOfLess(a, b);
    }
    forall k: nat | FirstDifference(a, b, k) ensures Less(a, b) {
      LessOfDifference(a, b, k);
    }
  }

  lemma {:induction false} DifferenceOfLess(a: Name, b: Name) returns (k: nat)
    requires Less(a, b)
    ensures FirstDifference(a, b, k)
    decreases |b|
  {
    if a == [] || a[0] < b[0] {
      k := 0;
    } else {
      var j := DifferenceOfLess(a[1..], b[1..]);
      k := j + 1;
      assert a[..k] == [a[0]] + a[1..][..j] && b[..k] == [b[0]] + b[1..][..j];
    }
  }

  lemma {:induction false} LessOfDifference(a: Name, b: Name, k: nat)
    requires FirstDifference(a, b, k)
    ensures Less(a, b)
    decreases k
  {
    if k > 0 {
      assert a[0] == a[..k][0] && b[0] == b[..k][0];
      assert a[1..][..k - 1] == a[..k][1..] && b[1..][..k - 1] == b[..k][1..];
      LessOfDifference(a[1..], b[1..], k - 1);
    }
  }

  predicate Ascending(rs: seq<Replacement>) {
    forall i, j :: 0 <= i < j < |rs| ==> Less(rs[i].name, rs[j].name)
  }

  lemma AscendingDistinct(rs: seq<Replacement>)
    requires Ascending(rs)
    ensures forall i, j :: 0 <= i < j < |rs| ==> rs[i].name != rs[j].name
  {
    forall i, j | 0 <= i < j < |rs| ensures rs[i].name != rs[j].name {
      LessIrreflexive(rs[i].name);
    }
  }

  /** The place of `n` among the replacements, or their number. */
  function IndexOf(rs: seq<Replacement>, n: Name): (k: nat)
    ensures k <= |rs|
    ensures k < |rs| ==> rs[k].name == n
    ensures forall i :: 0 <= i < k ==> rs[i].name != n
  {
    if rs == [] then 0
    else if rs[0].name == n then 0
    else
      var k := IndexOf(rs[1..], n);
      assert forall i :: 1 <= i < k + 1 ==> rs[i] == rs[1..][i - 1];
      k + 1
  }

  predicate Keyed(rs: seq<Replacement>, n: Name) {
    IndexOf(rs, n) < |rs|
  }

  function Data(rs: seq<Replacement>, n: Name): seq<byte>
    requires Keyed(rs, n)
  {
    rs[IndexOf(rs, n)].data
  }

  lemma KeyedIff(rs: seq<Replacement>, k: nat)
    requires Ascending(rs) && k < |rs|
    ensures Keyed(rs, rs[k].name) && IndexOf(rs, rs[k].name) == k
  {
    AscendingDistinct(rs);
    var i := IndexOf(rs, rs[k].name);
    assert i <= k;
  }

  /** `map::operator[]` followed by an assignment. */
  function Put(rs: seq<Replacement>, n: Name, d: seq<byte>): (r: seq<Replacement>) {
    if rs == [] then [Replacement(n, d)]
    else if rs[0].name == n then [Replacement(n, d)] + rs[1..]
    else if Less(n, rs[0].name) then [Replacement(n, d)] + rs
    else [rs[0]] + Put(rs[1..], n, d)
  }

  lemma {:induction false} PutLookup(rs: seq<Replacement>, n: Name, d: seq<byte>, m: Name)
    ensures Keyed(Put(rs, n, d), m) <==> m == n || Keyed(rs, m)
    ensures m == n ==> Data(Put(rs, n, d), m) == d
    ensures m != n && Keyed(rs, m) ==> Data(Put(rs, n, d), m) == Data(rs, m)
    decreases |rs|
  {
    var r := Put(rs, n, d);
    if rs == [] {
      assert r[1..] == [];
    } else if rs[0].name == n {
      assert r[1..] == rs[1..];
    } else if Less(n, rs[0].name) {
      assert r[1..] == rs;
    } else {
      PutLookup(rs[1..], n, d, m);
      assert r[1..] == Put(rs[1..], n, d);
    }
  }

  lemma {:induction false} PutElements(rs: seq<Replacement>, n: Name, d: seq<byte>, i: nat)
    requires i < |Put(rs, n, d)|
    ensures Put(rs, n, d)[i] == Replacement(n, d) || Put(rs, n, d)[i] in rs
    decreases |rs|
  {
    if rs != [] && rs[0].name != n && !Less(n, rs[0].name) && i > 0 {
      PutElements(rs[1..], n, d, i - 1);
      assert forall x :: x in rs[1..] ==> x in rs;
    }
  }

  lemma {:induction false} PutAscending(rs: seq<Replacement>, n: Name, d: seq<byte>)
    requires Ascending(rs)
    ensures Ascending(Put(rs, n, d))
    decreases |rs|
  {
    if rs == [] || rs[0].name == n {
    } else if Less(n, rs[0].name) {
      forall j | 0 < j < |rs| ensures Less(n, rs[j].name) {
        LessTransitive(n, rs[0].name, rs[j].name);
      }
    } else {
      var t := rs[1..];
      PutAscending(t, n, d);
      LessTotal(n, rs[0].name);
      forall i | 0 <= i < |Put(t, n, d)| ensures Less(rs[0].name, Put(t, n, d)[i].name) {
        PutElements(t, n, d, i);
        if Put(t, n, d)[i] in t {
          var j :| 0 <= j < |t| && t[j] == Put(t, n, d)[i];
          assert t[j] == rs[j + 1];
        }
      }
    }
  }
}
