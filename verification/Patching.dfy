/** Repairing the references that lie inside the sections: the dynamic section and the symbol tables. */
module Patching {
  import opened Bytes
  import opened Wrappers
  import opened ElfTypes
  import opened Image
  import opened Layout
  import S = Sections

  // ---------------------------------------------------------------- the dynamic section

  /** The tag of a dynamic entry, in the `unsigned int` that it is read into. */
  function DynTag(cls: ElfClass, e: seq<byte>): nat
    requires |e| >= cls.DynSize()
  {
    FromLE(e[..cls.OffSize()]) % 0x1_0000_0000
  }

  function DynVal(cls: ElfClass, e: seq<byte>): nat
    requires |e| >= cls.DynSize()
  {
    FromLE(e[cls.OffSize()..cls.DynSize()])
  }

  function WithVal(cls: ElfClass, e: seq<byte>, v: nat): (r: seq<byte>)
    requires |e| >= cls.DynSize()
    ensures |r| == |e|
  {
    Splice(e, cls.OffSize(), LE(v, cls.OffSize()))
  }

  /** What happens to an entry with a given tag. */
  datatype Fix = Unchanged | SetTo(v: nat) | NoSection

  function AddrOf(s: State, n: Name): Fix {
    if s.Has(n) then SetTo(s.Sec(n).addr) else NoSection
  }

  /** The first of the named sections that exists. */
  function FirstAddrOf(s: State, ns: seq<Name>, otherwise: Fix): Fix {
    if ns == [] then otherwise
    else if s.Has(ns[0]) then SetTo(s.Sec(ns[0]).addr)
    else FirstAddrOf(s, ns[1..], otherwise)
  }

  function FixFor(s: State, tag: nat): Fix {
    if tag == DT_STRTAB then AddrOf(s, DYNSTR)
    else if tag == DT_STRSZ then (if s.Has(DYNSTR) then SetTo(s.Sec(DYNSTR).size) else NoSection)
    else if tag == DT_SYMTAB then AddrOf(s, DYNSYM)
    else if tag == DT_HASH then AddrOf(s, HASH)
    else if tag == DT_GNU_HASH then AddrOf(s, GNU_HASH)
    else if tag == DT_JMPREL then FirstAddrOf(s, [REL_PLT, RELA_PLT, RELA_PLTOFF], NoSection)
    else if tag == DT_REL then FirstAddrOf(s, [REL_DYN, REL_GOT], Unchanged)
    else if tag == DT_RELA then FirstAddrOf(s, [RELA_DYN], Unchanged)
    else if tag == DT_VERNEED then AddrOf(s, VERSION_R)
    else if tag == DT_VERSYM then AddrOf(s, VERSION)
    else Unchanged
  }

  function Fixed(cls: ElfClass, e: seq<byte>, fix: Fix): (r: seq<byte>)
    requires |e| >= cls.DynSize()
    ensures |r| == |e|
  {
    if fix.SetTo? then WithVal(cls, e, fix.v) else e
  }

  /** The dynamic section has a terminating entry. */
  predicate HasNull(cls: ElfClass, d: seq<byte>)
    decreases |d|
  {
    |d| >= cls.DynSize() && (DynTag(cls, d) == DT_NULL || HasNull(cls, d[cls.DynSize()..]))
  }

  /** The dynamic section `d` with its addresses and sizes taken from the headers of `s`; absent when a section is missing. */
  function PatchDynamic(s: State, d: seq<byte>): (r: Option<seq<byte>>)
    ensures r.Some? ==> |r.value| == |d|
    decreases |d|
  {
    var sz := s.cfg.cls.DynSize();
    if |d| < sz || DynTag(s.cfg.cls, d) == DT_NULL then Some(d)
    else if FixFor(s, DynTag(s.cfg.cls, d)).NoSection? then None
    else
      match PatchDynamic(s, d[sz..])
      case None => None
      case Some(r) => Some(Fixed(s.cfg.cls, d[..sz], FixFor(s, DynTag(s.cfg.cls, d))) + r)
  }

  /** A dynamic entry as tag and value. */
  datatype Dyn = Dyn(tag: nat, val: nat)

  /** The entries before the terminating one. */
  function Entries(cls: ElfClass, d: seq<byte>): seq<Dyn>
    decreases |d|
  {
    if |d| < cls.DynSize() || DynTag(cls, d) == DT_NULL then []
    else [Dyn(DynTag(cls, d), DynVal(cls, d))] + Entries(cls, d[cls.DynSize()..])
  }

  /** The values that headers hold fit the fields they are stored in. */
  ghost predicate FieldsFit(s: State) {
    forall n :: s.Has(n) ==> s.Sec(n).addr < s.cfg.cls.AddrModulus() && s.Sec(n).size < s.cfg.cls.AddrModulus()
  }

  lemma FixFits(s: State, tag: nat)
    requires FieldsFit(s)
    ensures FixFor(s, tag).SetTo? ==> FixFor(s, tag).v < Pow256(s.cfg.cls.OffSize())
  {
    Pow256Values();
    FirstFits(s, [REL_PLT, RELA_PLT, RELA_PLTOFF], NoSection);
    FirstFits(s, [REL_DYN, REL_GOT], Unchanged);
    FirstFits(s, [RELA_DYN], Unchanged);
  }

  lemma {:induction false} FirstFits(s: State, ns: seq<Name>, otherwise: Fix)
    requires FieldsFit(s) && !otherwise.SetTo?
    ensures FirstAddrOf(s, ns, otherwise).SetTo? ==> FirstAddrOf(s, ns, otherwise).v < s.cfg.cls.AddrModulus()
    decreases |ns|
  {
    if ns != [] && !s.Has(ns[0]) {
      FirstFits(s, ns[1..], otherwise);
    }
  }

  /** What the repaired section says: the same tags in the same order, and exactly the values of the headers for those that refer to sections. */
  lemma {:induction false} PatchedEntries(s: State, d: seq<byte>)
    requires FieldsFit(s) && PatchDynamic(s, d).Some?
    ensures var a, b := Entries(s.cfg.cls, d), Entries(s.cfg.cls, PatchDynamic(s, d).value);
      && |b| == |a|
      && forall i :: 0 <= i < |a| ==>
           && b[i].tag == a[i].tag
           && !FixFor(s, a[i].tag).NoSection?
           && b[i].val == if FixFor(s, a[i].tag).SetTo? then FixFor(s, a[i].tag).v else a[i].val
    decreases |d|
  {
    hide FixFor, FromLE, LE, FieldsFit;
    var cls := s.cfg.cls;
    var sz := cls.DynSize();
    if |d| >= sz && DynTag(cls, d) != DT_NULL {
      var fix := FixFor(s, DynTag(cls, d));
      FixFits(s, DynTag(cls, d));
      PatchedEntries(s, d[sz..]);
      var p := PatchDynamic(s, d).value;
      var e := Fixed(s.cfg.cls, d[..sz], fix);
      FixedEntry(s, d, fix);
      assert p[..sz] == e && p[sz..] == PatchDynamic(s, d[sz..]).value;
      assert p[..cls.OffSize()] == e[..cls.OffSize()] && p[cls.OffSize()..sz] == e[cls.OffSize()..sz];
    }
  }

  lemma FixedEntry(s: State, d: seq<byte>, fix: Fix)
    requires |d| >= s.cfg.cls.DynSize()
    requires fix.SetTo? ==> fix.v < Pow256(s.cfg.cls.OffSize())
    ensures var e := Fixed(s.cfg.cls, d[..s.cfg.cls.DynSize()], fix);
      && DynTag(s.cfg.cls, e) == DynTag(s.cfg.cls, d)
      && DynVal(s.cfg.cls, e) == if fix.SetTo? then fix.v else DynVal(s.cfg.cls, d)
  {
    var cls := s.cfg.cls;
    var w, sz := cls.OffSize(), cls.DynSize();
    var e := Fixed(s.cfg.cls, d[..sz], fix);
    assert e[..w] == d[..w];
    if fix.SetTo? {
      FromLEOfLE(fix.v, w);
      assert e[w..sz] == LE(fix.v, w);
    } else {
      assert e[w..sz] == d[w..sz];
    }
  }

  // ---------------------------------------------------------------- symbol tables

  function ShndxAt(cls: ElfClass): nat { if cls.Elf32? then 14 else 6 }
  function InfoAt(cls: ElfClass): nat { if cls.Elf32? then 12 else 4 }
  function ValueAt(cls: ElfClass): nat { if cls.Elf32? then 4 else 8 }

  function SymShndx(cls: ElfClass, e: seq<byte>): nat
    requires |e| >= cls.SymSize()
  {
    FromLE(Slice(e, ShndxAt(cls), 2))
  }

  function SymType(cls: ElfClass, e: seq<byte>): nat
    requires |e| >= cls.SymSize()
  {
    e[InfoAt(cls)] % 16
  }

  function SymValue(cls: ElfClass, e: seq<byte>): nat
    requires |e| >= cls.SymSize()
  {
    FromLE(Slice(e, ValueAt(cls), cls.OffSize()))
  }

  /** The section index of a symbol is an ordinary one, and known. */
  predicate Ordinary(s: State, shndx: nat) {
    SHN_UNDEF != shndx && shndx < SHN_LORESERVE && shndx < |s.cfg.oldNames|
  }

  /** A symbol table entry with its section index brought up to date. */
  function PatchSym(s: State, e: seq<byte>): (r: seq<byte>)
    requires |e| == s.cfg.cls.SymSize() && |s.shdrs| >= 1
    ensures |r| == |e|
  {
    var cls := s.cfg.cls;
    if !Ordinary(s, SymShndx(cls, e)) then e
    else
      var newIndex := S.Find(s.cfg.tab, s.shdrs, s.cfg.oldNames[SymShndx(cls, e)]);
      var e1 := Splice(e, ShndxAt(cls), LE(newIndex, 2));
      if SymType(cls, e1) == STT_SECTION
      then Splice(e1, ValueAt(cls), LE(s.shdrs[newIndex].addr, cls.OffSize()))
      else e1
  }

  function PatchSymtab(s: State, d: seq<byte>): (r: seq<byte>)
    requires |s.shdrs| >= 1
    ensures |r| == |d|
    decreases |d|
  {
    var sz := s.cfg.cls.SymSize();
    if |d| < sz then d else PatchSym(s, d[..sz]) + PatchSymtab(s, d[sz..])
  }

  /** The whole entries of a symbol table. */
  function Symbols(cls: ElfClass, d: seq<byte>): (r: seq<seq<byte>>)
    ensures forall i :: 0 <= i < |r| ==> |r[i]| == cls.SymSize()
    decreases |d|
  {
    if |d| < cls.SymSize() then [] else [d[..cls.SymSize()]] + Symbols(cls, d[cls.SymSize()..])
  }

  /** `b` is the symbol `a` of the original file: it names the same section, and a section symbol has the address of its section. */
  predicate SameSymbol(s: State, a: seq<byte>, b: seq<byte>)
    requires |a| == |b| == s.cfg.cls.SymSize()
  {
    var cls := s.cfg.cls;
    && SymType(cls, b) == SymType(cls, a)
    && (if Ordinary(s, SymShndx(cls, a)) then
          && 1 <= SymShndx(cls, b) < |s.shdrs|
          && S.NameOf(s.cfg.tab, s.shdrs[SymShndx(cls, b)]) == s.cfg.oldNames[SymShndx(cls, a)]
          && SymValue(cls, b) == (if SymType(cls, a) == STT_SECTION then s.shdrs[SymShndx(cls, b)].addr else SymValue(cls, a))
        else b == a)
  }

  /** The names known from the original file are those of sections in the file. */
  predicate NamesKnown(s: State) {
    forall k :: 1 <= k < |s.cfg.oldNames| ==> s.Has(s.cfg.oldNames[k])
  }

  lemma PatchedSymbol(s: State, e: seq<byte>)
    requires |e| == s.cfg.cls.SymSize() && 1 <= |s.shdrs| <= 0x1_0000
    requires NamesKnown(s) && FieldsFit(s)
    ensures SameSymbol(s, e, PatchSym(s, e))
  {
    hide LE, FromLE, S.FindFrom, S.CString;
    var cls := s.cfg.cls;
    if Ordinary(s, SymShndx(cls, e)) {
      Pow256Values();
      var n := s.cfg.oldNames[SymShndx(cls, e)];
      assert s.Has(n);
      var newIndex := S.Find(s.cfg.tab, s.shdrs, n);
      var e1 := Splice(e, ShndxAt(cls), LE(newIndex, 2));
      FromLEOfLE(newIndex, 2);
      SpliceRead(e, ShndxAt(cls), LE(newIndex, 2));
      SpliceFrame(e, ShndxAt(cls), LE(newIndex, 2), ValueAt(cls), cls.OffSize());
      var a := s.shdrs[newIndex].addr;
      assert s.Sec(n).addr == a;
      FromLEOfLE(a, cls.OffSize());
      SpliceRead(e1, ValueAt(cls), LE(a, cls.OffSize()));
      SpliceFrame(e1, ValueAt(cls), LE(a, cls.OffSize()), ShndxAt(cls), 2);
    }
  }

  /** Every symbol of a repaired table is the symbol of the original file in the same place. */
  lemma {:induction false} PatchedSymbols(s: State, d: seq<byte>)
    requires 1 <= |s.shdrs| <= 0x1_0000 && NamesKnown(s) && FieldsFit(s)
    ensures var a, b := Symbols(s.cfg.cls, d), Symbols(s.cfg.cls, PatchSymtab(s, d));
      |b| == |a| && forall i :: 0 <= i < |a| ==> SameSymbol(s, a[i], b[i])
    decreases |d|
  {
    hide SameSymbol, NamesKnown, FieldsFit, PatchSym;
    var sz := s.cfg.cls.SymSize();
    if |d| >= sz {
      PatchedSymbol(s, d[..sz]);
      PatchedSymbols(s, d[sz..]);
      var p := PatchSymtab(s, d);
      assert p[..sz] == PatchSym(s, d[..sz]) && p[sz..] == PatchSymtab(s, d[sz..]);
    }
  }

  // ---------------------------------------------------------------- repairing in place

  /** The first `done` bytes of the dynamic section `d` have become `prefix`. */
  ghost predicate DynamicDone(s: State, d: seq<byte>, prefix: seq<byte>, done: nat) {
    && done == |prefix| <= |d|
    && HasNull(s.cfg.cls, d[done..])
    && PatchDynamic(s, d) == match PatchDynamic(s, d[done..]) case None => None case Some(r) => Some(prefix + r)
  }

  lemma DynamicStart(s: State, d: seq<byte>)
    requires HasNull(s.cfg.cls, d)
    ensures DynamicDone(s, d, [], 0)
  {
    assert d[0..] == d;
    if PatchDynamic(s, d).Some? {
      assert [] + PatchDynamic(s, d).value == PatchDynamic(s, d).value;
    }
  }

  lemma DynamicStep(s: State, d: seq<byte>, prefix: seq<byte>, done: nat)
    requires DynamicDone(s, d, prefix, done)
    requires DynTag(s.cfg.cls, d[done..]) != DT_NULL && !FixFor(s, DynTag(s.cfg.cls, d[done..])).NoSection?
    ensures var sz := s.cfg.cls.DynSize();
      done + sz <= |d|
      && DynamicDone(s, d, prefix + Fixed(s.cfg.cls, d[done..done + sz], FixFor(s, DynTag(s.cfg.cls, d[done..]))), done + sz)
  {
    hide FixFor, DynTag, Fixed;
    var sz := s.cfg.cls.DynSize();
    var rest := d[done..];
    assert rest[..sz] == d[done..done + sz] && rest[sz..] == d[done + sz..];
    if PatchDynamic(s, rest[sz..]).Some? {
      var e := Fixed(s.cfg.cls, rest[..sz], FixFor(s, DynTag(s.cfg.cls, rest)));
      var r := PatchDynamic(s, rest[sz..]).value;
      assert prefix + (e + r) == (prefix + e) + r;
    }
  }

  lemma DynamicMissing(s: State, d: seq<byte>, prefix: seq<byte>, done: nat)
    requires DynamicDone(s, d, prefix, done)
    requires DynTag(s.cfg.cls, d[done..]) != DT_NULL && FixFor(s, DynTag(s.cfg.cls, d[done..])).NoSection?
    ensures PatchDynamic(s, d).None?
  {
    hide FixFor, DynTag, Fixed;
  }

  lemma DynamicEnd(s: State, d: seq<byte>, prefix: seq<byte>, done: nat)
    requires DynamicDone(s, d, prefix, done) && DynTag(s.cfg.cls, d[done..]) == DT_NULL
    ensures PatchDynamic(s, d) == Some(prefix + d[done..])
  {
    hide FixFor, DynTag, Fixed;
  }

  /** The first symbols of the table `d`, `done` bytes of it, have become `prefix`. */
  ghost predicate SymbolsDone(s: State, d: seq<byte>, prefix: seq<byte>, done: nat)
    requires |s.shdrs| >= 1
  {
    && done == |prefix| <= |d|
    && PatchSymtab(s, d) == prefix + PatchSymtab(s, d[done..])
  }

  lemma SymbolsStart(s: State, d: seq<byte>)
    requires |s.shdrs| >= 1
    ensures SymbolsDone(s, d, [], 0)
  {
    assert d[0..] == d && [] + PatchSymtab(s, d) == PatchSymtab(s, d);
  }

  lemma SymbolsStep(s: State, d: seq<byte>, prefix: seq<byte>, done: nat)
    requires |s.shdrs| >= 1 && SymbolsDone(s, d, prefix, done) && done + s.cfg.cls.SymSize() <= |d|
    ensures SymbolsDone(s, d, prefix + PatchSym(s, d[done..done + s.cfg.cls.SymSize()]), done + s.cfg.cls.SymSize())
  {
    hide PatchSym;
    var sz := s.cfg.cls.SymSize();
    var rest := d[done..];
    assert rest[..sz] == d[done..done + sz] && rest[sz..] == d[done + sz..];
    var e := PatchSym(s, rest[..sz]);
    assert prefix + (e + PatchSymtab(s, rest[sz..])) == (prefix + e) + PatchSymtab(s, rest[sz..]);
  }

  lemma SymbolsEnd(s: State, d: seq<byte>, prefix: seq<byte>, done: nat)
    requires |s.shdrs| >= 1 && SymbolsDone(s, d, prefix, done) && |d| < done + s.cfg.cls.SymSize()
    ensures PatchSymtab(s, d) == prefix + d[done..]
  {
  }

  /** Rewriting the front of a range and leaving the rest rewrites the range. */
  lemma SpliceFront(c: seq<byte>, off: nat, n: nat, prefix: seq<byte>)
    requires off + n <= |c| && |prefix| <= n
    ensures Splice(c, off, prefix) == Splice(c, off, prefix + Slice(c, off, n)[|prefix|..])
  {
  }

  /** Behind the rewritten front of a range, the buffer is as before. */
  lemma SpliceBehind(c: seq<byte>, off: nat, n: nat, prefix: seq<byte>)
    requires off + n <= |c| && |prefix| <= n
    ensures Splice(c, off, prefix)[off + |prefix|..off + n] == Slice(c, off, n)[|prefix|..]
  {
  }

  lemma NullAhead(s: State, d: seq<byte>, prefix: seq<byte>, done: nat)
    requires DynamicDone(s, d, prefix, done)
    ensures done + s.cfg.cls.DynSize() <= |d|
  {
  }

  lemma FixDependsOnHeaders(s: State, t: State, tag: nat)
    requires s.cfg == t.cfg && s.shdrs == t.shdrs
    ensures FixFor(s, tag) == FixFor(t, tag)
  {
    hide FirstAddrOf, S.Find;
    FirstDependsOnHeaders(s, t, [REL_PLT, RELA_PLT, RELA_PLTOFF], NoSection);
    FirstDependsOnHeaders(s, t, [REL_DYN, REL_GOT], Unchanged);
    FirstDependsOnHeaders(s, t, [RELA_DYN], Unchanged);
  }

  lemma {:induction false} FirstDependsOnHeaders(s: State, t: State, ns: seq<Name>, otherwise: Fix)
    requires s.cfg == t.cfg && s.shdrs == t.shdrs
    ensures FirstAddrOf(s, ns, otherwise) == FirstAddrOf(t, ns, otherwise)
    decreases |ns|
  {
    if ns != [] {
      FirstDependsOnHeaders(s, t, ns[1..], otherwise);
    }
  }

  // ---------------------------------------------------------------- all symbol tables

  /** The bytes of the sections lie in the buffer, and no two sections share any. */
  ghost predicate RangesApart(s: State) {
    && (forall n :: s.Backed(n) ==> s.InBuffer(n))
    && SectionsApart(s)
  }

  /** A range of the buffer that shares no byte with a section. */
  ghost predicate OutsideSections(s: State, a: nat, n: nat) {
    && a + n <= |s.contents|
    && forall m :: s.Backed(m) ==> Apart(a, n, s.Sec(m).offset, s.Sec(m).size)
  }

  /** In `c` the symbol tables before the section at `i` have been brought up to date; nothing else differs from `s`. */
  ghost predicate SymtabsDone(s: State, c: seq<byte>, i: nat)
    requires |s.shdrs| >= 1 && RangesApart(s)
  {
    && |c| == |s.contents|
    && (forall n :: s.Backed(n) ==>
          Slice(c, s.Sec(n).offset, s.Sec(n).size)
          == if s.Sec(n).SymbolTable() && S.Find(s.cfg.tab, s.shdrs, n) < i then PatchSymtab(s, s.Content(n)) else s.Content(n))
    && (forall a, n :: OutsideSections(s, a, n) ==> Slice(c, a, n) == Slice(s.contents, a, n))
  }

  lemma SymtabsStart(s: State)
    requires |s.shdrs| >= 1 && RangesApart(s)
    ensures SymtabsDone(s, s.contents, 1)
  {
  }

  lemma SymtabStep(s: State, c: seq<byte>, i: nat)
    requires 1 <= i < |s.shdrs| && S.DistinctNames(s.cfg.tab, s.shdrs) && RangesApart(s) && SymtabsDone(s, c, i)
    ensures !s.shdrs[i].SymbolTable() ==> SymtabsDone(s, c, i + 1)
    ensures s.shdrs[i].SymbolTable() ==>
      && s.shdrs[i].offset + s.shdrs[i].size <= |c|
      && SymtabsDone(s, Splice(c, s.shdrs[i].offset, PatchSymtab(s, Slice(c, s.shdrs[i].offset, s.shdrs[i].size))), i + 1)
  {
    hide PatchSymtab, Splice, Slice;
    var h := s.shdrs[i];
    var n := S.NameOf(s.cfg.tab, h);
    S.FindOwnName(s.cfg.tab, s.shdrs, i);
    assert s.Has(n) && s.Sec(n) == h;
    if h.SymbolTable() {
      assert s.Backed(n) && s.InBuffer(n);
      var p := PatchSymtab(s, s.Content(n));
      var c' := Splice(c, h.offset, p);
      assert Slice(c, h.offset, h.size) == s.Content(n);
      SpliceRead(c, h.offset, p);
      forall m | s.Backed(m) && m != n ensures Slice(c', s.Sec(m).offset, s.Sec(m).size) == Slice(c, s.Sec(m).offset, s.Sec(m).size) {
        SpliceFrame(c, h.offset, p, s.Sec(m).offset, s.Sec(m).size);
      }
      forall a, k | OutsideSections(s, a, k) ensures Slice(c', a, k) == Slice(s.contents, a, k) {
        SpliceFrame(c, h.offset, p, a, k);
      }
    }
  }

  /** The place of the first segment for the program header table, or the number of segments. */
  function TableSegment(ps: seq<Phdr>): (i: nat)
    ensures i <= |ps| && (i < |ps| ==> ps[i].ptype == PT_PHDR)
    ensures forall j :: 0 <= j < i ==> ps[j].ptype != PT_PHDR
  {
    if ps == [] then 0 else if ps[0].ptype == PT_PHDR then 0 else
      var i := TableSegment(ps[1..]);
      assert forall j :: 1 <= j < i + 1 ==> ps[j] == ps[1..][j - 1];
      i + 1
  }

  /** The program headers with the segment of the table itself brought up to date. */
  function WithTableSegment(ps: seq<Phdr>, offset: nat, addr: nat, size: nat): (r: seq<Phdr>)
    ensures |r| == |ps|
  {
    var i := TableSegment(ps);
    if i < |ps| then ps[i := Synced(ps[i], offset, addr, size)] else ps
  }
}
