/** How the steps of a rewrite carry the sections of a file along. */
module Carrying {
  import opened Bytes
  import opened ElfTypes
  import opened Image
  import opened Layout
  import S = Sections

  /** A header apart from its place in the file and its references. */
  function Core(sh: Shdr): Shdr {
    sh.(offset := 0, link := 0, info := 0)
  }

  /** The references of `n` name the same sections in `t` as in `s`. */
  predicate SameReferences(s: State, t: State, n: Name)
    requires s.Has(n) && t.Has(n)
  {
    var a, b := s.Sec(n), t.Sec(n);
    && S.Target(s.cfg.tab, s.shdrs, a.link) == S.Target(t.cfg.tab, t.shdrs, b.link)
    && (if a.Relocations()
        then S.Target(s.cfg.tab, s.shdrs, a.info) == S.Target(t.cfg.tab, t.shdrs, b.info)
        else a.info == b.info)
  }

  /** `t` has the sections of `s`, all of them `shift` further on. */
  ghost predicate Moves(s: State, t: State, shift: nat) {
    && t.cfg == s.cfg
    && (forall n :: t.Has(n) <==> s.Has(n))
    && (forall n :: s.Has(n) && t.Has(n) ==>
          Core(t.Sec(n)) == Core(s.Sec(n)) && t.Sec(n).offset == s.Sec(n).offset + shift && SameReferences(s, t, n))
  }

  /** The sections that are not being replaced have the same bytes in `t` as in `s`. */
  ghost predicate Keeps(s: State, t: State, rs: seq<Replacement>) {
    forall n :: s.Backed(n) && !Keyed(rs, n) ==>
      s.InBuffer(n) && t.Backed(n) && t.InBuffer(n) && t.Content(n) == s.Content(n)
  }

  lemma MovesTwice(s: State, t: State, u: State, a: nat, b: nat)
    requires Moves(s, t, a) && Moves(t, u, b)
    ensures Moves(s, u, a + b)
  {
    forall n | s.Has(n) && u.Has(n)
      ensures Core(u.Sec(n)) == Core(s.Sec(n)) && u.Sec(n).offset == s.Sec(n).offset + a + b && SameReferences(s, u, n)
    {
      assert t.Has(n);
    }
  }

  lemma KeepsTwice(s: State, t: State, u: State, rs: seq<Replacement>)
    requires Keeps(s, t, rs) && Keeps(t, u, rs)
    ensures Keeps(s, u, rs)
  {
    forall n | s.Backed(n) && !Keyed(rs, n)
      ensures s.InBuffer(n) && u.Backed(n) && u.InBuffer(n) && u.Content(n) == s.Content(n)
    {
      assert t.Backed(n) && t.Content(n) == s.Content(n);
    }
  }

  /** The same headers, except for offsets: look-up gives the same index. */
  lemma SameNames(s: State, t: State)
    requires t.cfg == s.cfg && |t.shdrs| == |s.shdrs|
    requires forall i :: 0 <= i < |s.shdrs| ==> t.shdrs[i].name == s.shdrs[i].name
    ensures forall n :: S.Find(t.cfg.tab, t.shdrs, n) == S.Find(s.cfg.tab, s.shdrs, n)
    ensures forall n :: t.Has(n) <==> s.Has(n)
    ensures forall k :: S.Target(t.cfg.tab, t.shdrs, k) == S.Target(s.cfg.tab, s.shdrs, k)
    ensures S.DistinctNames(s.cfg.tab, s.shdrs) ==> S.DistinctNames(t.cfg.tab, t.shdrs)
  {
    forall n ensures S.Find(t.cfg.tab, t.shdrs, n) == S.Find(s.cfg.tab, s.shdrs, n) {
      S.FindDependsOnNames(s.cfg.tab, t.shdrs, s.shdrs, n, 1);
    }
    assert forall i :: 0 <= i < |s.shdrs| ==> S.NameOf(t.cfg.tab, t.shdrs[i]) == S.NameOf(s.cfg.tab, s.shdrs[i]);
  }

  /** A re-sorted table describes the same sections. */
  lemma ResortedMoves(s: State, t: State)
    requires t.cfg == s.cfg && S.Resorted(s.cfg.tab, s.shdrs, t.shdrs)
    ensures Moves(s, t, 0)
  {
    forall n | s.Has(n) && t.Has(n)
      ensures Core(t.Sec(n)) == Core(s.Sec(n)) && t.Sec(n).offset == s.Sec(n).offset && SameReferences(s, t, n)
    {
      assert S.SameSection(s.cfg.tab, s.shdrs, s.Sec(n), t.shdrs, t.Sec(n));
      assert S.Body(s.Sec(n)) == S.Body(t.Sec(n));
    }
  }

  /** A file whose sections have moved together, in a file grown by as much, is as well-formed as before. */
  lemma MovedIsWellFormed(s: State, t: State, shift: nat)
    requires WellFormed(s) && Moves(s, t, shift)
    requires Counts(t) && Sizes(t) && S.Sortable(t.cfg.tab, t.shdrs)
    requires t.fileSize >= s.fileSize + shift && t.hdr.shnum == s.hdr.shnum
    requires (t.hdr.shoff == s.hdr.shoff + shift) || (t.hdr.shoff == s.fileSize + shift)
    requires t.hdr.shoff + t.ShTableSize() <= t.fileSize
    ensures WellFormed(t)
  {
    hide S.Sortable;
    forall n | t.Has(n)
      ensures t.cfg.cls.EhdrSize() <= t.Sec(n).offset <= t.fileSize
      ensures t.Sec(n).FileBacked() ==> t.Sec(n).offset + t.Sec(n).size <= t.fileSize
      ensures t.Sec(n).FileBacked() ==> Apart(t.Sec(n).offset, t.Sec(n).size, t.hdr.shoff, t.ShTableSize())
    {
      assert s.Has(n);
      assert Core(t.Sec(n)) == Core(s.Sec(n));
      assert t.Sec(n).FileBacked() ==> s.Backed(n);
    }
    forall m, n | t.Backed(m) && t.Backed(n) && m != n
      ensures Apart(t.Sec(m).offset, t.Sec(m).size, t.Sec(n).offset, t.Sec(n).size)
    {
      assert Core(t.Sec(m)) == Core(s.Sec(m)) && Core(t.Sec(n)) == Core(s.Sec(n));
      assert s.Backed(m) && s.Backed(n);
    }
  }

  /** Moving the section header table away keeps the file well-formed and all sections intact. */
  lemma TableMovedCarries(s: State, t: State)
    requires WellFormed(s) && TableMoved(s, t) && t.fileSize <= s.cfg.maxSize
    ensures WellFormed(t) && Moves(s, t, 0) && Keeps(s, t, []) && t.hdr.shoff == s.fileSize
  {
    hide S.Sortable, S.Resorted, EncodeShdrs, Splice, Repeat, Slice;
    S.ResortedIsSortable(s.cfg.tab, s.shdrs, t.shdrs);
    SortedSize(s.cfg.tab, s.shdrs, t.shdrs);
    ResortedMoves(s, t);
    MovedIsWellFormed(s, t, 0);
    var size := t.fileSize;
    forall n | s.Backed(n)
      ensures s.InBuffer(n) && t.Backed(n) && t.InBuffer(n) && t.Content(n) == s.Content(n)
    {
      assert Core(t.Sec(n)) == Core(s.Sec(n));
      GrownKeeps(s, size, s.Sec(n).offset, s.Sec(n).size);
      SpliceFrame(Grown(s, size).contents, s.fileSize + s.cfg.cls.ShdrSize(), EncodeShdrs(s.cfg.cls, t.shdrs[1..]),
                  s.Sec(n).offset, s.Sec(n).size);
    }
  }

  /** Shifting the headers shifts every section, by name. */
  lemma ShiftMoves(s: State, t: State, shift: nat)
    requires t.cfg == s.cfg && t.shdrs == ShiftedShdrs(s.shdrs, shift)
    requires S.DistinctNames(s.cfg.tab, s.shdrs)
    ensures Moves(s, t, shift)
    ensures S.Sortable(s.cfg.tab, s.shdrs) ==> S.Sortable(t.cfg.tab, t.shdrs)
  {
    hide ShiftedShdrs;
    SameNames(s, t);
    forall n | s.Has(n) && t.Has(n)
      ensures Core(t.Sec(n)) == Core(s.Sec(n)) && t.Sec(n).offset == s.Sec(n).offset + shift && SameReferences(s, t, n)
    {
      assert t.Sec(n) == ShiftedShdr(s.Sec(n), shift);
    }
  }

  /** Shifting the file moves every section's header and bytes together. */
  lemma ShiftCarries(s: State, pages: nat, startPage: nat)
    requires WellFormed(s) && s.fileSize + pages * s.cfg.pageSize <= s.cfg.maxSize
    requires s.cfg.cls.EhdrSize() <= pages * s.cfg.pageSize
    ensures var t := Shifted(s, pages, startPage);
      && WellFormed(t) && Moves(s, t, pages * s.cfg.pageSize) && Keeps(s, t, [])
      && t.hdr.shoff == s.hdr.shoff + pages * s.cfg.pageSize && t.fileSize == s.fileSize + pages * s.cfg.pageSize
  {
    hide S.Sortable, ShiftedShdrs, ShiftedPhdrs, ShiftedContents, Repeat, Splice, Slice;
    var shift := pages * s.cfg.pageSize;
    var t := Shifted(s, pages, startPage);
    assert S.DistinctNames(s.cfg.tab, s.shdrs) by { SortableNames(s); }
    ShiftMoves(s, t, shift);
    MovedIsWellFormed(s, t, shift);
    var g := Grown(s, s.fileSize + shift);
    forall n | s.Backed(n)
      ensures s.InBuffer(n) && t.Backed(n) && t.InBuffer(n) && t.Content(n) == s.Content(n)
    {
      assert Core(t.Sec(n)) == Core(s.Sec(n));
      GrownKeeps(s, s.fileSize + shift, s.Sec(n).offset, s.Sec(n).size);
      ShiftMovesBytes(g.contents, s.fileSize, shift, s.cfg.cls.EhdrSize(), s.Sec(n).offset, s.Sec(n).size);
    }
  }

  lemma SortableNames(s: State)
    requires S.Sortable(s.cfg.tab, s.shdrs)
    ensures S.DistinctNames(s.cfg.tab, s.shdrs)
  {
  }

  // ---------------------------------------------------------------- writing the replacements

  /** The region `[a, b)` of the file is free for the replacements: no remaining section and no header lies there. */
  ghost predicate FreeRegion(s: State, a: nat, b: nat) {
    && s.cfg.cls.EhdrSize() <= a <= b <= s.fileSize
    && Apart(a, b - a, s.hdr.shoff, s.ShTableSize())
    && forall n :: s.Backed(n) && !Keyed(s.replaced, n) ==> Apart(s.Sec(n).offset, s.Sec(n).size, a, b - a)
  }

  /** The slot for the section called `n`. */
  function SlotOf(rs: seq<Replacement>, slots: seq<Slot>, n: Name): Slot
    requires Keyed(rs, n) && |slots| == |rs|
  {
    slots[IndexOf(rs, n)]
  }

  /** The headers, by name, after the replacements have been written. */
  ghost predicate HeadersReplaced(s: State, t: State, slots: seq<Slot>)
    requires |slots| == |s.replaced|
  {
    && t.cfg == s.cfg
    && (forall n :: t.Has(n) <==> s.Has(n))
    && (forall n :: s.Has(n) && t.Has(n) ==> SameReferences(s, t, n))
    && (forall n :: s.Has(n) && t.Has(n) && !Keyed(s.replaced, n) ==> t.Sec(n) == s.Sec(n))
    && (forall n :: s.Has(n) && t.Has(n) && Keyed(s.replaced, n) ==>
          t.Sec(n) == PlacedHeader(s.cfg.cls, s.Sec(n), SlotOf(s.replaced, slots, n), |Data(s.replaced, n)|))
  }

  lemma WrittenHeaderOf(s: State, t: State, slots: seq<Slot>, cur0: nat, end: nat, n: Name)
    requires Placeable(s) && |slots| == |s.replaced| && WrittenOut(s, t, slots, cur0, end)
    requires s.Has(n) && S.Find(t.cfg.tab, t.shdrs, n) == S.Find(s.cfg.tab, s.shdrs, n)
    ensures t.Has(n)
    ensures t.Sec(n) == if Keyed(s.replaced, n)
                        then PlacedHeader(s.cfg.cls, s.Sec(n), SlotOf(s.replaced, slots, n), |Data(s.replaced, n)|)
                        else s.Sec(n)
  {
    hide DataPlaced, InOld, Placeable;
    var i := S.Find(s.cfg.tab, s.shdrs, n);
    assert Which(s)[i] == IndexOf(s.replaced, n);
  }

  lemma WrittenHeaders(s: State, t: State, slots: seq<Slot>, cur0: nat, end: nat)
    requires Placeable(s) && |slots| == |s.replaced| && WrittenOut(s, t, slots, cur0, end)
    ensures HeadersReplaced(s, t, slots)
  {
    WrittenNames(s, t, slots, cur0, end);
    SameNames(s, t);
    hide WrittenOut, Placeable, S.NameOf, S.Target, Which;
    forall n | s.Has(n) && t.Has(n)
      ensures SameReferences(s, t, n)
      ensures t.Sec(n) == if Keyed(s.replaced, n)
                          then PlacedHeader(s.cfg.cls, s.Sec(n), SlotOf(s.replaced, slots, n), |Data(s.replaced, n)|)
                          else s.Sec(n)
    {
      WrittenHeaderOf(s, t, slots, cur0, end, n);
    }
  }

  lemma WrittenNames(s: State, t: State, slots: seq<Slot>, cur0: nat, end: nat)
    requires Placeable(s) && |slots| == |s.replaced| && WrittenOut(s, t, slots, cur0, end)
    ensures |t.shdrs| == |s.shdrs| && forall i :: 0 <= i < |s.shdrs| ==> t.shdrs[i].name == s.shdrs[i].name
    ensures S.Sortable(s.cfg.tab, s.shdrs) && (forall k :: 0 <= k < |slots| ==> slots[k].offset > 0)
            ==> S.Sortable(t.cfg.tab, t.shdrs)
  {
    hide DataPlaced, InOld, Placeable;
    assert forall i :: 0 <= i < |s.shdrs| ==> t.shdrs[i].name == s.shdrs[i].name;
    SameNames(s, t);
  }

  /** Every replacement lies where its header says. */
  lemma WrittenData(s: State, t: State, slots: seq<Slot>, cur0: nat, end: nat, n: Name)
    requires Placeable(s) && |slots| == |s.replaced| && WrittenOut(s, t, slots, cur0, end)
    requires HeadersReplaced(s, t, slots) && Keyed(s.replaced, n) && s.Has(n)
    ensures t.Has(n) && t.InBuffer(n) && t.Content(n) == Data(s.replaced, n)
  {
    hide HeadersPlaced, InOld, Placeable;
    var k := IndexOf(s.replaced, n);
    assert Holds(t.contents, slots[k].offset, s.replaced[k].data);
  }

  /** The sections that are not replaced keep their bytes. */
  lemma WrittenKeeps(s: State, t: State, slots: seq<Slot>, cur0: nat, end: nat, n: Name)
    requires Placeable(s) && |slots| == |s.replaced| && WrittenOut(s, t, slots, cur0, end)
    requires HeadersReplaced(s, t, slots) && WellFormed(s) && FreeRegion(s, cur0, end)
    requires (forall j :: 0 <= j < |s.replaced| ==> s.Backed(s.replaced[j].name)) && Ascending(s.replaced)
    requires s.Backed(n) && !Keyed(s.replaced, n)
    ensures s.InBuffer(n) && t.Backed(n) && t.InBuffer(n) && t.Content(n) == s.Content(n)
  {
    hide HeadersPlaced, DataPlaced, S.Sortable, TableApart;
    var h := s.Sec(n);
    assert t.Sec(n) == h;
    forall p | h.offset <= p < h.offset + h.size ensures t.contents[p] == s.contents[p] {
      assert !InOld(s, |s.replaced|, p);
    }
    assert t.Content(n) == s.Content(n);
  }

  /** Writing the replacements into a free region gives a well-formed file again. */
  lemma WrittenIsWellFormed(s: State, t: State, slots: seq<Slot>, cur0: nat, end: nat)
    requires Requested(s) && Placeable(s) && |slots| == |s.replaced| && WrittenOut(s, t, slots, cur0, end)
    requires WellFormed(s) && FreeRegion(s, cur0, end) && Spaced(s.replaced, slots, end)
    requires forall k :: 0 <= k < |slots| ==> cur0 <= slots[k].offset
    ensures WellFormed(t)
  {
    WrittenCounts(s, t, slots, cur0, end);
    WrittenHeaders(s, t, slots, cur0, end);
    hide HeadersPlaced, DataPlaced, InOld, Placeable, S.Sortable, WrittenOut, Requested, Counts, Sizes, HeadersReplaced, Spaced, FreeRegion;
    forall n | t.Has(n)
      ensures t.cfg.cls.EhdrSize() <= t.Sec(n).offset <= t.fileSize
      ensures t.Sec(n).FileBacked() ==> t.Sec(n).offset + t.Sec(n).size <= t.fileSize
      ensures t.Sec(n).FileBacked() ==> Apart(t.Sec(n).offset, t.Sec(n).size, t.hdr.shoff, t.ShTableSize())
    {
      PlacedInFile(s, t, slots, cur0, end, n);
    }
    forall m, n | t.Backed(m) && t.Backed(n) && m != n
      ensures Apart(t.Sec(m).offset, t.Sec(m).size, t.Sec(n).offset, t.Sec(n).size)
    {
      PlacedApart(s, t, slots, cur0, end, m, n);
    }
  }

  lemma WrittenCounts(s: State, t: State, slots: seq<Slot>, cur0: nat, end: nat)
    requires Placeable(s) && |slots| == |s.replaced| && WrittenOut(s, t, slots, cur0, end)
    requires WellFormed(s) && FreeRegion(s, cur0, end)
    requires forall k :: 0 <= k < |slots| ==> cur0 <= slots[k].offset
    ensures Counts(t) && Sizes(t) && S.Sortable(t.cfg.tab, t.shdrs)
    ensures t.hdr == s.hdr && t.fileSize == s.fileSize
  {
    WrittenNames(s, t, slots, cur0, end);
    hide DataPlaced, InOld, Placeable, S.Sortable, SectionsInFile, SectionsApart, TableApart, HeadersReplaced;
  }

  lemma PlacedInFile(s: State, t: State, slots: seq<Slot>, cur0: nat, end: nat, n: Name)
    requires |slots| == |s.replaced| && HeadersReplaced(s, t, slots)
    requires SectionsInFile(s) && TableApart(s) && FreeRegion(s, cur0, end) && Spaced(s.replaced, slots, end)
    requires t.hdr == s.hdr && t.fileSize == s.fileSize
    requires forall k :: 0 <= k < |slots| ==> cur0 <= slots[k].offset
    requires t.Has(n)
    ensures t.cfg.cls.EhdrSize() <= t.Sec(n).offset <= t.fileSize
    ensures t.Sec(n).FileBacked() ==> t.Sec(n).offset + t.Sec(n).size <= t.fileSize
    ensures t.Sec(n).FileBacked() ==> Apart(t.Sec(n).offset, t.Sec(n).size, t.hdr.shoff, t.ShTableSize())
  {
    assert s.Has(n);
    if Keyed(s.replaced, n) {
      var k := IndexOf(s.replaced, n);
      assert cur0 <= slots[k].offset && slots[k].offset + |s.replaced[k].data| <= end;
    } else {
      assert t.Sec(n) == s.Sec(n);
    }
  }

  lemma PlacedApart(s: State, t: State, slots: seq<Slot>, cur0: nat, end: nat, m: Name, n: Name)
    requires |slots| == |s.replaced| && HeadersReplaced(s, t, slots)
    requires SectionsApart(s) && FreeRegion(s, cur0, end) && Spaced(s.replaced, slots, end)
    requires forall k :: 0 <= k < |slots| ==> cur0 <= slots[k].offset
    requires t.Backed(m) && t.Backed(n) && m != n
    ensures Apart(t.Sec(m).offset, t.Sec(m).size, t.Sec(n).offset, t.Sec(n).size)
  {
    assert s.Backed(m) && s.Backed(n);
    var i, j := IndexOf(s.replaced, m), IndexOf(s.replaced, n);
    if Keyed(s.replaced, m) && Keyed(s.replaced, n) {
      assert i != j;
      if i < j {
        assert slots[i].offset + |s.replaced[i].data| <= slots[j].offset;
      } else {
        assert slots[j].offset + |s.replaced[j].data| <= slots[i].offset;
      }
    } else if Keyed(s.replaced, m) {
      assert slots[i].offset + |s.replaced[i].data| <= end;
      assert Apart(s.Sec(n).offset, s.Sec(n).size, cur0, end - cur0);
    } else if Keyed(s.replaced, n) {
      assert slots[j].offset + |s.replaced[j].data| <= end;
      assert Apart(s.Sec(m).offset, s.Sec(m).size, cur0, end - cur0);
    }
  }
}
