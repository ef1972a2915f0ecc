/** What rewriting the headers does to a laid-out file. */
module Headers {
  import opened Bytes
  import opened ElfTypes
  import opened Image
  import opened Layout
  import opened Carrying
  import opened Patching
  import S = Sections

  /** The place of the program header table is in the file and shares no byte with a section or with the section header table. */
  ghost predicate TableRoom(s: State) {
    var n := |s.phdrs| * s.cfg.cls.PhdrSize();
    && s.hdr.phoff + n <= s.fileSize
    && Apart(s.hdr.phoff, n, s.hdr.shoff, s.ShTableSize())
    && forall m :: s.Backed(m) ==> Apart(s.hdr.phoff, n, s.Sec(m).offset, s.Sec(m).size)
  }

  /** The dynamic section, if there is one, has bytes in the file and a terminating entry. */
  ghost predicate DynamicTerminated(s: State) {
    s.Has(DYNAMIC) ==> s.Backed(DYNAMIC) && s.InBuffer(DYNAMIC) && HasNull(s.cfg.cls, s.Content(DYNAMIC))
  }

  /** `t` is `s` after both header tables have been arranged anew and written. */
  ghost predicate TablesWritten(s: State, t: State, phdrAddress: nat)
    requires TableRoom(s) && s.fileSize <= |s.contents|
  {
    && t == s.(hdr := t.hdr, phdrs := t.phdrs, shdrs := t.shdrs, contents := t.contents)
    && t.hdr == s.hdr.(shstrndx := t.hdr.shstrndx) && 1 <= t.hdr.shstrndx < |t.shdrs|
    && s.hdr.shstrndx < |s.shdrs|
    && S.NameOf(s.cfg.tab, t.shdrs[t.hdr.shstrndx]) == S.NameOf(s.cfg.tab, s.shdrs[s.hdr.shstrndx])
    && |t.phdrs| == |s.phdrs|
    && multiset(t.phdrs) == multiset(WithTableSegment(s.phdrs, s.hdr.phoff, phdrAddress, |s.phdrs| * s.cfg.cls.PhdrSize()))
    && S.Resorted(s.cfg.tab, s.shdrs, t.shdrs)
    && s.hdr.shoff + s.cfg.cls.ShdrSize() + |EncodeShdrs(s.cfg.cls, t.shdrs[1..])| <= |s.contents|
    && t.contents == Splice(Splice(s.contents, s.hdr.phoff, EncodePhdrs(s.cfg.cls, t.phdrs)),
                            s.hdr.shoff + s.cfg.cls.ShdrSize(), EncodeShdrs(s.cfg.cls, t.shdrs[1..]))
  }

  /** `t` is `s` with its dynamic section repaired. */
  ghost predicate DynamicPatched(s: State, t: State)
    requires DynamicTerminated(s)
  {
    if s.Has(DYNAMIC) then
      && PatchDynamic(s, s.Content(DYNAMIC)).Some?
      && t == s.(contents := Splice(s.contents, s.Sec(DYNAMIC).offset, PatchDynamic(s, s.Content(DYNAMIC)).value))
    else t == s
  }

  /** The contents `d` of the section called `n`, with the references in it repaired for the headers of `t`. */
  function Repaired(t: State, n: Name, d: seq<byte>): (r: seq<byte>)
    requires t.Has(n) && |t.shdrs| >= 1
    requires n == DYNAMIC ==> PatchDynamic(t, d).Some?
    ensures |r| == |d|
  {
    var d1 := if n == DYNAMIC then PatchDynamic(t, d).value else d;
    if t.Sec(n).SymbolTable() then PatchSymtab(t, d1) else d1
  }

  /** `t` is `s` with its headers rewritten: nothing moves, the tables say what the headers are, and of the sections only references change. */
  ghost predicate HeadersRewritten(s: State, t: State, phdrAddress: nat) {
    && WellFormed(t) && Moves(s, t, 0)
    && t.hdr == s.hdr.(shstrndx := t.hdr.shstrndx) && t.fileSize == s.fileSize && |t.phdrs| == |s.phdrs|
    && s.hdr.shstrndx < |s.shdrs| && t.hdr.shstrndx < |t.shdrs|
    && S.NameOf(s.cfg.tab, t.shdrs[t.hdr.shstrndx]) == S.NameOf(s.cfg.tab, s.shdrs[s.hdr.shstrndx])
    && multiset(t.phdrs) == multiset(WithTableSegment(s.phdrs, s.hdr.phoff, phdrAddress, |s.phdrs| * s.cfg.cls.PhdrSize()))
    && S.SortedByOffset(t.shdrs)
    && Holds(t.contents, t.hdr.phoff, EncodePhdrs(t.cfg.cls, t.phdrs))
    && Holds(t.contents, t.hdr.shoff + t.cfg.cls.ShdrSize(), EncodeShdrs(t.cfg.cls, t.shdrs[1..]))
    && (forall n :: s.Backed(n) ==>
          && t.Backed(n) && s.InBuffer(n) && t.InBuffer(n)
          && (n == DYNAMIC ==> PatchDynamic(t, s.Content(n)).Some?)
          && t.Content(n) == Repaired(t, n, s.Content(n)))
  }

  lemma TablesWrittenKeep(s: State, t: State, phdrAddress: nat)
    requires WellFormed(s) && TableRoom(s) && TablesWritten(s, t, phdrAddress)
    ensures WellFormed(t) && Moves(s, t, 0) && Keeps(s, t, [])
    ensures Holds(t.contents, t.hdr.phoff, EncodePhdrs(t.cfg.cls, t.phdrs))
    ensures Holds(t.contents, t.hdr.shoff + t.cfg.cls.ShdrSize(), EncodeShdrs(t.cfg.cls, t.shdrs[1..]))
    ensures OutsideSections(t, t.hdr.phoff, |EncodePhdrs(t.cfg.cls, t.phdrs)|)
    ensures OutsideSections(t, t.hdr.shoff + t.cfg.cls.ShdrSize(), |EncodeShdrs(t.cfg.cls, t.shdrs[1..])|)
  {
    hide S.Sortable, S.Resorted, EncodePhdrs, EncodeShdrs, Splice, Slice, S.NameOf;
    S.ResortedIsSortable(s.cfg.tab, s.shdrs, t.shdrs);
    SortedSize(s.cfg.tab, s.shdrs, t.shdrs);
    ResortedMoves(s, t);
    MovedIsWellFormed(s, t, 0);
    var cls := s.cfg.cls;
    TableStep(|t.shdrs| - 1, cls.ShdrSize());
    var a, d := s.hdr.phoff, EncodePhdrs(cls, t.phdrs);
    var b, e := s.hdr.shoff + cls.ShdrSize(), EncodeShdrs(cls, t.shdrs[1..]);
    var c1 := Splice(s.contents, a, d);
    SpliceRead(s.contents, a, d);
    SpliceFrame(c1, b, e, a, |d|);
    SpliceRead(c1, b, e);
    forall n | s.Backed(n)
      ensures s.InBuffer(n) && t.Backed(n) && t.InBuffer(n) && t.Content(n) == s.Content(n)
      ensures Apart(a, |d|, t.Sec(n).offset, t.Sec(n).size) && Apart(b, |e|, t.Sec(n).offset, t.Sec(n).size)
    {
      assert Core(t.Sec(n)) == Core(s.Sec(n));
      SpliceFrame(s.contents, a, d, s.Sec(n).offset, s.Sec(n).size);
      SpliceFrame(c1, b, e, s.Sec(n).offset, s.Sec(n).size);
    }
    forall n | t.Backed(n) ensures s.Backed(n) {
      assert Core(t.Sec(n)) == Core(s.Sec(n));
    }
  }

  lemma DynamicStaysTerminated(s: State, t: State)
    requires DynamicTerminated(s) && Moves(s, t, 0) && Keeps(s, t, [])
    ensures DynamicTerminated(t)
  {
  }

  lemma SameHeadersApart(t: State, u: State)
    requires WellFormed(t) && u == t.(contents := u.contents) && |u.contents| == |t.contents|
    ensures RangesApart(t) && RangesApart(u)
  {
    hide S.Sortable;
    assert forall n :: u.Backed(n) ==> t.Backed(n) && u.Sec(n) == t.Sec(n);
  }

  lemma TableFits(s: State)
    requires WellFormed(s)
    ensures s.hdr.shoff + |s.shdrs| * s.cfg.cls.ShdrSize() <= |s.contents|
  {
  }

  /** Repairing the dynamic section leaves the rest of the buffer alone. */
  lemma DynamicKeeps(t: State, u: State)
    requires WellFormed(t) && DynamicTerminated(t) && DynamicPatched(t, u)
    ensures RangesApart(t) && RangesApart(u) && u == t.(contents := u.contents) && |u.contents| == |t.contents|
    ensures t.Has(DYNAMIC) ==> PatchDynamic(t, t.Content(DYNAMIC)).Some? && u.Content(DYNAMIC) == PatchDynamic(t, t.Content(DYNAMIC)).value
    ensures forall n :: t.Backed(n) && n != DYNAMIC ==> u.Content(n) == t.Content(n)
    ensures forall a, n :: OutsideSections(t, a, n) ==> Slice(u.contents, a, n) == Slice(t.contents, a, n)
  {
    hide PatchDynamic, HasNull, Splice, Slice, S.Sortable;
    SameHeadersApart(t, u);
    if t.Has(DYNAMIC) {
      var off, p := t.Sec(DYNAMIC).offset, PatchDynamic(t, t.Content(DYNAMIC)).value;
      SpliceRead(t.contents, off, p);
      forall n | t.Backed(n) && n != DYNAMIC ensures t.InBuffer(n) && u.Content(n) == t.Content(n) {
        SpliceFrame(t.contents, off, p, t.Sec(n).offset, t.Sec(n).size);
      }
      forall a, n | OutsideSections(t, a, n) ensures Slice(u.contents, a, n) == Slice(t.contents, a, n) {
        SpliceFrame(t.contents, off, p, a, n);
      }
    }
  }

  lemma HeadersRewrittenIntro(s: State, t: State, u: State, v: State, phdrAddress: nat)
    requires WellFormed(s) && TableRoom(s) && TablesWritten(s, t, phdrAddress)
    requires WellFormed(t) && DynamicTerminated(t) && DynamicPatched(t, u)
    requires RangesApart(u) && |u.shdrs| >= 1 && v == u.(contents := v.contents) && SymtabsDone(u, v.contents, |u.shdrs|)
    ensures HeadersRewritten(s, v, phdrAddress)
  {
    hide S.Sortable, S.SortedByOffset, S.NameOf, Splice, Slice, HasNull, PatchDynamic, EncodePhdrs, EncodeShdrs, WithTableSegment,
         RangesApart, WellFormed, Moves, Keeps, TableRoom, DynamicTerminated, Repaired, TablesWritten, SymtabsDone, DynamicPatched;
    HeadersWritten(s, t, phdrAddress);
    TablesWrittenKeep(s, t, phdrAddress);
    DynamicKeeps(t, u);
    SameButContents(t, u, v);
    SameHeadersWellFormed(t, v);
    SameHeadersMove(s, t, v);
    TablesStay(t, u, v, t.hdr.phoff, EncodePhdrs(t.cfg.cls, t.phdrs));
    TablesStay(t, u, v, t.hdr.shoff + t.cfg.cls.ShdrSize(), EncodeShdrs(t.cfg.cls, t.shdrs[1..]));
    forall n | s.Backed(n)
      ensures v.Backed(n) && s.InBuffer(n) && v.InBuffer(n)
      ensures n == DYNAMIC ==> PatchDynamic(v, s.Content(n)).Some?
      ensures v.Content(n) == Repaired(v, n, s.Content(n))
    {
      RepairedBoth(s, t, u, v, n);
    }
  }

  lemma HeadersWritten(s: State, t: State, phdrAddress: nat)
    requires WellFormed(s) && TableRoom(s) && TablesWritten(s, t, phdrAddress)
    ensures t == s.(hdr := t.hdr, phdrs := t.phdrs, shdrs := t.shdrs, contents := t.contents)
    ensures t.hdr == s.hdr.(shstrndx := t.hdr.shstrndx) && |t.phdrs| == |s.phdrs| && S.SortedByOffset(t.shdrs)
    ensures t.hdr.shstrndx < |t.shdrs| && s.hdr.shstrndx < |s.shdrs|
    ensures S.NameOf(s.cfg.tab, t.shdrs[t.hdr.shstrndx]) == S.NameOf(s.cfg.tab, s.shdrs[s.hdr.shstrndx])
    ensures multiset(t.phdrs) == multiset(WithTableSegment(s.phdrs, s.hdr.phoff, phdrAddress, |s.phdrs| * s.cfg.cls.PhdrSize()))
  {
    hide EncodePhdrs, EncodeShdrs, Splice, S.NameOf, WithTableSegment;
  }

  lemma SortedAfter(s: State, t: State)
    requires S.Resorted(s.cfg.tab, s.shdrs, t.shdrs)
    ensures S.SortedByOffset(t.shdrs)
  {
  }

  lemma SameButContents(t: State, u: State, v: State)
    requires DynamicTerminated(t) && DynamicPatched(t, u)
    requires RangesApart(u) && |u.shdrs| >= 1 && v == u.(contents := v.contents) && SymtabsDone(u, v.contents, |u.shdrs|)
    ensures u == t.(contents := u.contents) && v == t.(contents := v.contents) && |v.contents| == |t.contents|
  {
    hide PatchDynamic, Splice;
  }

  /** What lies outside the sections stays. */
  lemma TablesStay(t: State, u: State, v: State, off: nat, d: seq<byte>)
    requires WellFormed(t) && DynamicTerminated(t) && DynamicPatched(t, u)
    requires RangesApart(u) && |u.shdrs| >= 1 && v == u.(contents := v.contents) && SymtabsDone(u, v.contents, |u.shdrs|)
    requires OutsideSections(t, off, |d|) && Holds(t.contents, off, d)
    ensures Holds(v.contents, off, d)
  {
    hide PatchDynamic, HasNull, Splice, Slice, S.Sortable;
    DynamicKeeps(t, u);
    assert OutsideSections(u, off, |d|) by {
      assert forall n :: u.Backed(n) ==> t.Backed(n) && u.Sec(n) == t.Sec(n);
    }
    assert Slice(v.contents, off, |d|) == Slice(u.contents, off, |d|) == Slice(t.contents, off, |d|);
  }

  lemma SameHeadersWellFormed(t: State, v: State)
    requires WellFormed(t) && v == t.(contents := v.contents) && |v.contents| == |t.contents|
    ensures WellFormed(v)
  {
    hide S.Sortable;
    assert forall n :: v.Has(n) ==> t.Has(n) && v.Sec(n) == t.Sec(n);
  }

  lemma SameHeadersMove(s: State, t: State, v: State)
    requires Moves(s, t, 0) && v == t.(contents := v.contents)
    ensures Moves(s, v, 0)
  {
    assert forall n :: v.Has(n) <==> t.Has(n);
    forall n | s.Has(n) && v.Has(n)
      ensures Core(v.Sec(n)) == Core(s.Sec(n)) && v.Sec(n).offset == s.Sec(n).offset && SameReferences(s, v, n)
    {
      assert t.Has(n) && t.Sec(n) == v.Sec(n) && SameReferences(s, t, n);
    }
  }

  lemma RepairedBoth(s: State, t: State, u: State, v: State, n: Name)
    requires WellFormed(t) && DynamicTerminated(t) && DynamicPatched(t, u) && Keeps(s, t, []) && s.Backed(n)
    requires RangesApart(u) && |u.shdrs| >= 1 && v == u.(contents := v.contents) && SymtabsDone(u, v.contents, |u.shdrs|)
    ensures v.Backed(n) && s.InBuffer(n) && v.InBuffer(n)
    ensures n == DYNAMIC ==> PatchDynamic(v, s.Content(n)).Some?
    ensures v.Content(n) == Repaired(v, n, s.Content(n))
  {
    hide S.Sortable, HasNull, Splice, Slice;
    DynamicKeeps(t, u);
    assert !Keyed([], n);
    assert t.Backed(n) && u.Backed(n) && v.Backed(n) && u.Sec(n) == t.Sec(n) && v.Sec(n) == t.Sec(n);
    PatchDependsOnHeaders(t, v, s.Content(n));
    if n != DYNAMIC {
      assert u.Content(n) == t.Content(n);
    }
    SymtabDependsOnHeaders(u, v, u.Content(n));
  }

  lemma {:induction false} PatchDependsOnHeaders(s: State, t: State, d: seq<byte>)
    requires s.cfg == t.cfg && s.shdrs == t.shdrs
    ensures PatchDynamic(s, d) == PatchDynamic(t, d)
    decreases |d|
  {
    if |d| >= s.cfg.cls.DynSize() {
      hide FixFor;
      FixDependsOnHeaders(s, t, DynTag(s.cfg.cls, d));
      PatchDependsOnHeaders(s, t, d[s.cfg.cls.DynSize()..]);
    }
  }

  lemma {:induction false} SymtabDependsOnHeaders(s: State, t: State, d: seq<byte>)
    requires s.cfg == t.cfg && s.shdrs == t.shdrs && |s.shdrs| >= 1
    ensures PatchSymtab(s, d) == PatchSymtab(t, d)
    decreases |d|
  {
    if |d| >= s.cfg.cls.SymSize() {
      SymtabDependsOnHeaders(s, t, d[s.cfg.cls.SymSize()..]);
    }
  }

  /** Which sections exist, and nothing else, decides whether the dynamic section can be repaired. */
  lemma {:induction false} MissingDependsOnNames(s: State, t: State, d: seq<byte>)
    requires s.cfg == t.cfg && forall n :: s.Has(n) <==> t.Has(n)
    ensures PatchDynamic(s, d).None? <==> PatchDynamic(t, d).None?
    decreases |d|
  {
    if |d| >= s.cfg.cls.DynSize() {
      var tag := DynTag(s.cfg.cls, d);
      FixMissing(s, t, tag);
      hide FixFor;
      MissingDependsOnNames(s, t, d[s.cfg.cls.DynSize()..]);
    }
  }

  lemma FixMissing(s: State, t: State, tag: nat)
    requires s.cfg == t.cfg && forall n :: s.Has(n) <==> t.Has(n)
    ensures FixFor(s, tag).NoSection? <==> FixFor(t, tag).NoSection?
  {
    FirstMissing(s, t, [REL_PLT, RELA_PLT, RELA_PLTOFF], NoSection);
    FirstMissing(s, t, [REL_DYN, REL_GOT], Unchanged);
    FirstMissing(s, t, [RELA_DYN], Unchanged);
  }

  lemma {:induction false} FirstMissing(s: State, t: State, ns: seq<Name>, otherwise: Fix)
    requires s.cfg == t.cfg && forall n :: s.Has(n) <==> t.Has(n)
    ensures FirstAddrOf(s, ns, otherwise).NoSection? <==> FirstAddrOf(t, ns, otherwise).NoSection?
    decreases |ns|
  {
    if ns != [] {
      FirstMissing(s, t, ns[1..], otherwise);
    }
  }

  /** If the repair fails after the tables have been arranged anew, it would have failed before. */
  lemma MissingBefore(s: State, t: State)
    requires Moves(s, t, 0) && Keeps(s, t, []) && DynamicTerminated(s) && DynamicTerminated(t)
    requires t.Has(DYNAMIC) && PatchDynamic(t, t.Content(DYNAMIC)).None?
    ensures s.Has(DYNAMIC) && s.InBuffer(DYNAMIC) && PatchDynamic(s, s.Content(DYNAMIC)).None?
  {
    hide PatchDynamic, HasNull, SameReferences;
    assert s.Has(DYNAMIC);
    MissingDependsOnNames(s, t, s.Content(DYNAMIC));
  }
}
