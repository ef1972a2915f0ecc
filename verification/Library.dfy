/** Placing the replacements behind everything else, in a segment of their own. */
module Library {
  import opened Bytes
  import opened ElfTypes
  import opened Rounding
  import opened Image
  import opened Layout
  import opened Carrying
  import opened Patching
  import opened Headers
  import opened Rewriting
  import opened Segments
  import S = Sections

  /** The page-rounded end of a segment, in the 32-bit arithmetic of `roundUp`. */
  function PageEnd(cfg: Config, p: Phdr): nat
    requires 0 < cfg.pageSize < UINT32_MODULUS
  {
    RoundUp(p.vaddr + p.memsz, cfg.pageSize)
  }

  /** The greatest of the page-rounded ends. */
  function LastPage(cfg: Config, ps: seq<Phdr>): nat
    requires 0 < cfg.pageSize < UINT32_MODULUS
  {
    if ps == [] then 0
    else
      var r := LastPage(cfg, ps[..|ps| - 1]);
      if PageEnd(cfg, ps[|ps| - 1]) > r then PageEnd(cfg, ps[|ps| - 1]) else r
  }

  /** Where in the file the replacements begin: on the page after its end, or further on when the addresses must not run ahead of the offsets. */
  function LibraryOffset(s: State): nat
    requires 0 < s.cfg.pageSize < UINT32_MODULUS
  {
    var o := RoundUp(s.fileSize, s.cfg.pageSize);
    if s.cfg.isExecutable && o < LastPage(s.cfg, s.phdrs) then LastPage(s.cfg, s.phdrs) else o
  }

  /** The address at which they are mapped. */
  function LibraryPage(s: State): nat
    requires 0 < s.cfg.pageSize < UINT32_MODULUS
  {
    if s.cfg.isExecutable then LibraryOffset(s) else LastPage(s.cfg, s.phdrs)
  }

  /** The room for the program header table, which gains an entry, and the replacements. */
  function LibraryNeeded(s: State): nat {
    (|s.phdrs| + 1) * s.cfg.cls.PhdrSize() + TotalAll(s.cfg.cls, s.replaced)
  }

  /** Where the replacements begin, behind the program header table. */
  function LibraryRoom(s: State): nat
    requires 0 < s.cfg.pageSize < UINT32_MODULUS
  {
    LibraryOffset(s) + (|s.phdrs| + 1) * s.cfg.cls.PhdrSize()
  }

  /** The segment that maps them. */
  function LibrarySegment(s: State): Phdr
    requires 0 < s.cfg.pageSize < UINT32_MODULUS
  {
    NewSegment(s.cfg, LibraryOffset(s), LibraryPage(s), LibraryNeeded(s))
  }

  // ---------------------------------------------------------------- addresses

  lemma {:induction false} LastPageIsPage(cfg: Config, ps: seq<Phdr>)
    requires PowerOfTwo(cfg.pageSize) && cfg.pageSize < UINT32_MODULUS
    ensures LastPage(cfg, ps) % cfg.pageSize == 0 && LastPage(cfg, ps) + cfg.pageSize <= UINT32_MODULUS
    ensures forall i :: 0 <= i < |ps| ==> PageEnd(cfg, ps[i]) <= LastPage(cfg, ps)
  {
    hide RoundUp, PowerOfTwo;
    if ps != [] {
      LastPageIsPage(cfg, ps[..|ps| - 1]);
      RoundUpCovers(ps[|ps| - 1].vaddr + ps[|ps| - 1].memsz, cfg.pageSize);
      forall i | 0 <= i < |ps| ensures PageEnd(cfg, ps[i]) <= LastPage(cfg, ps) {
        if i < |ps| - 1 {
          assert ps[..|ps| - 1][i] == ps[i];
        }
      }
    }
  }

  /** The new segment lies on a page boundary, in the file and in memory. */
  lemma LibraryPlaceIsPage(s: State)
    requires Sizes(s)
    ensures LibraryOffset(s) % s.cfg.pageSize == 0 && LibraryPage(s) % s.cfg.pageSize == 0
    ensures s.fileSize <= RoundUp(s.fileSize, s.cfg.pageSize) < s.fileSize + s.cfg.pageSize
    ensures RoundUp(s.fileSize, s.cfg.pageSize) <= LibraryOffset(s)
  {
    hide RoundUp, PowerOfTwo;
    RoundUpIsCeiling(s.fileSize, s.cfg.pageSize);
    LastPageIsPage(s.cfg, s.phdrs);
  }

  /**
   The new segment begins at or above the end of every other one exactly when all of them end at
   least a page below 4 GiB: `roundUp` works on 32-bit integers.
   */
  lemma NewSegmentAboveOthers(s: State)
    requires Sizes(s)
    ensures (forall i :: 0 <= i < |s.phdrs| ==> s.phdrs[i].vaddr + s.phdrs[i].memsz <= LibraryPage(s))
       <==> (forall i :: 0 <= i < |s.phdrs| ==> s.phdrs[i].vaddr + s.phdrs[i].memsz + s.cfg.pageSize <= UINT32_MODULUS)
  {
    hide RoundUp, PowerOfTwo;
    LastPageIsPage(s.cfg, s.phdrs);
    LibraryPlaceIsPage(s);
    forall i | 0 <= i < |s.phdrs|
      ensures s.phdrs[i].vaddr + s.phdrs[i].memsz <= LibraryPage(s)
         <==> s.phdrs[i].vaddr + s.phdrs[i].memsz + s.cfg.pageSize <= UINT32_MODULUS
    {
      RoundUpCovers(s.phdrs[i].vaddr + s.phdrs[i].memsz, s.cfg.pageSize);
    }
  }

  /** The hole that keeps addresses and offsets together consists of whole pages. */
  lemma HoleIsPages(s: State)
    requires Sizes(s) && RoundUp(s.fileSize, s.cfg.pageSize) < LastPage(s.cfg, s.phdrs)
    ensures (LastPage(s.cfg, s.phdrs) - RoundUp(s.fileSize, s.cfg.pageSize)) % s.cfg.pageSize == 0
  {
    hide RoundUp, PowerOfTwo;
    RoundUpIsCeiling(s.fileSize, s.cfg.pageSize);
    LastPageIsPage(s.cfg, s.phdrs);
    ResidueOfDifference(LastPage(s.cfg, s.phdrs), RoundUp(s.fileSize, s.cfg.pageSize), s.cfg.pageSize);
  }

  // ---------------------------------------------------------------- steps

  /** Growing the file leaves it well-formed and its sections intact. */
  lemma GrownCarries(s: State, newSize: nat)
    requires WellFormed(s) && s.fileSize <= newSize <= s.cfg.maxSize
    ensures var t := Grown(s, newSize);
      WellFormed(t) && Moves(s, t, 0) && Keeps(s, t, []) && t == s.(contents := t.contents, fileSize := newSize)
  {
    hide S.Sortable, Splice, Repeat, Slice;
    var t := Grown(s, newSize);
    SameHeadersMove0(s, t);
    MovedIsWellFormed(s, t, 0);
    forall n | s.Backed(n)
      ensures s.InBuffer(n) && t.Backed(n) && t.InBuffer(n) && t.Content(n) == s.Content(n)
    {
      assert t.Has(n) && t.Sec(n) == s.Sec(n);
      GrownKeeps(s, newSize, s.Sec(n).offset, s.Sec(n).size);
    }
  }

  lemma SameHeadersMove0(t: State, u: State)
    requires u.cfg == t.cfg && u.shdrs == t.shdrs
    ensures Moves(t, u, 0)
    ensures forall n :: t.Has(n) ==> u.Sec(n) == t.Sec(n)
  {
    assert forall n :: u.Has(n) <==> t.Has(n);
  }

  /** A change to the program headers alone moves nothing. */
  lemma SegmentsOnly(t: State, u: State)
    requires WellFormed(t) && u == t.(hdr := u.hdr, phdrs := u.phdrs)
    requires u.hdr == t.hdr.(phoff := u.hdr.phoff, phnum := |u.phdrs|)
    ensures WellFormed(u) && Moves(t, u, 0) && Keeps(t, u, [])
  {
    hide S.Sortable, Slice;
    SameHeadersMove0(t, u);
    MovedIsWellFormed(t, u, 0);
    assert forall n :: t.Backed(n) ==> t.InBuffer(n);
  }

  /** Behind the end of the original file there is nothing. */
  ghost predicate Appended(s: State, t: State, from: nat) {
    && UnderWay(s, t, 0) && s.fileSize <= from && t.replaced == s.replaced
    && (forall n :: t.Backed(n) ==> t.Sec(n).offset + t.Sec(n).size <= from)
    && t.hdr.shoff + t.ShTableSize() <= from
  }

  /** The file, grown up to `end`, with its new segment. */
  lemma AppendedIntro(s: State, g: State, t: State, from: nat)
    requires Rewritable(s) && UnderWay(s, g, 0) && g.replaced == s.replaced && s.fileSize <= from
    requires g.hdr == s.hdr && t == g.(hdr := t.hdr, phdrs := t.phdrs)
    requires t.hdr == g.hdr.(phoff := t.hdr.phoff, phnum := |t.phdrs|)
    ensures Appended(s, t, from)
  {
    hide S.Sortable, S.NameOf, Slice, SameReferences;
    SegmentsOnly(g, t);
    KeepsFewer(g, t, g.replaced);
    UnderWayStep(s, g, t, 0, 0);
    forall n | t.Backed(n) ensures t.Sec(n).offset + t.Sec(n).size <= from {
      assert s.Has(n) && Core(t.Sec(n)) == Core(s.Sec(n));
      assert s.Backed(n);
    }
  }

  lemma AppendedIsFree(s: State, t: State, from: nat, cur0: nat, end: nat)
    requires Appended(s, t, from) && from <= cur0 <= end <= t.fileSize && t.cfg.cls.EhdrSize() <= from
    ensures FreeRegion(t, cur0, end) && Placeable(t) && WellFormed(t) && Requested(t) && t.fileSize <= |t.contents|
  {
    hide S.Sortable;
    assert S.DistinctNames(t.cfg.tab, t.shdrs) by { SortableNames(t); }
    RequestedPlaceable(t);
  }

  /** Where the program header table lies has no influence on where the replacements go. */
  lemma WrittenElsewhere(t: State, u: State, slots: seq<Slot>, cur0: nat, end: nat, hdr: Ehdr)
    requires Placeable(t) && |slots| == |t.replaced| && WrittenOut(t, u, slots, cur0, end)
    ensures Placeable(t.(hdr := hdr)) && WrittenOut(t.(hdr := hdr), u.(hdr := hdr), slots, cur0, end)
  {
    hide DataPlaced, PlacedShdr, PlacedPhdr;
    var t' := t.(hdr := hdr);
    assert forall n :: t'.Has(n) <==> t.Has(n);
    forall p: nat ensures InOld(t', |t.replaced|, p) <==> InOld(t, |t.replaced|, p) {
      assert forall j :: 0 <= j < |t.replaced| ==> t.Has(t.replaced[j].name) && t'.Sec(t.replaced[j].name) == t.Sec(t.replaced[j].name);
    }
    assert Which(t') == Which(t);
  }

  /** The new area begins with room for the program header table. */
  lemma LibraryTableRoom(s: State, t: State, u: State, slots: seq<Slot>, from: nat, cur0: nat, end: nat)
    requires Appended(s, t, from) && Placeable(t) && |slots| == |t.replaced|
    requires WrittenOut(t, u, slots, cur0, end) && HeadersReplaced(t, u, slots)
    requires t.hdr.phoff == from && cur0 == from + |t.phdrs| * t.cfg.cls.PhdrSize() <= end <= t.fileSize
    requires forall k :: 0 <= k < |slots| ==> cur0 <= slots[k].offset
    ensures TableRoom(u)
  {
    hide WrittenOut, Placeable, UnderWay;
    WrittenShape(t, u, slots, cur0, end);
    var n := |u.phdrs| * u.cfg.cls.PhdrSize();
    forall m | u.Backed(m) ensures Apart(u.hdr.phoff, n, u.Sec(m).offset, u.Sec(m).size) {
      assert t.Has(m);
      if Keyed(t.replaced, m) {
        assert cur0 <= slots[IndexOf(t.replaced, m)].offset;
      } else {
        assert u.Sec(m) == t.Sec(m);
      }
    }
  }

  lemma LibraryStart(s: State, g: State)
    requires Rewritable(s) && UnderWay(s, g, 0)
    ensures Sizes(s) && Counts(s) && g.cfg == s.cfg && s.cfg.cls.EhdrSize() <= s.cfg.pageSize <= LibraryOffset(s) && s.fileSize <= LibraryOffset(s)
  {
    hide S.Sortable, PowerOfTwo, RoundUp, S.NameOf, LastPage;
    LibraryPlaceIsPage(s);
    assert s.fileSize > 0;
    WholePages(RoundUp(s.fileSize, s.cfg.pageSize), s.cfg.pageSize) by {
      RoundUpIsCeiling(s.fileSize, s.cfg.pageSize);
    }
  }

  lemma AppendedParts(s: State, t: State, from: nat)
    requires Appended(s, t, from)
    ensures UnderWay(s, t, 0)
  {
  }

  lemma RewrittenPlacesOf(s: State, t: State, rs: seq<Replacement>, shift: nat, a: nat, b: nat, startAddr: nat, startOffset: nat)
    requires Rewritten(s, t, rs, shift, a, b, startAddr, startOffset)
    ensures ReplacedLieIn(t, rs, a, b, startAddr, startOffset)
  {
    hide WellFormed, TablesInFile, ContentsPreserved, ReferencesPreserved, OthersMove, ReplacedLieIn;
  }

  // ---------------------------------------------------------------- the new segment

  /** A loadable segment is among the segments at the end. */
  lemma SegmentSurvives(v: State, rs: seq<Replacement>, ps: seq<Phdr>, phdrAddress: nat, p: Phdr)
    requires SegmentsFollow(v, rs, ps + [p], phdrAddress) && p.ptype == PT_LOAD
    ensures p in v.phdrs && |v.phdrs| == |ps| + 1
  {
    var all := AllFollowed(v, rs, ps + [p]);
    assert all[|ps|] == p;
    var w := WithTableSegment(all, v.hdr.phoff, phdrAddress, |ps + [p]| * v.cfg.cls.PhdrSize());
    assert w[|ps|] == p;
    assert p in multiset(w) && |multiset(v.phdrs)| == |multiset(w)|;
  }

  /** The new segment maps the program header table and every replaced section, and System V gABI, chapter 5, lets it be loaded. */
  ghost predicate MappedBySegment(t: State, rs: seq<Replacement>, p: Phdr) {
    && p in t.phdrs && p.ptype == PT_LOAD && p.filesz == p.memsz && Loadable(p)
    && p.offset + p.filesz <= t.fileSize
    && t.hdr.phoff == p.offset && |t.phdrs| * t.cfg.cls.PhdrSize() <= p.filesz
    && forall n :: Keyed(rs, n) ==>
         && t.Backed(n)
         && p.offset <= t.Sec(n).offset && t.Sec(n).offset + t.Sec(n).size <= p.offset + p.filesz
         && t.Sec(n).addr == AddressAt(t.cfg.cls, p.vaddr, p.offset, t.Sec(n).offset)
  }

  /** `t` is the library `s` rewritten: the replacements lie behind the end of the file, in a segment of their own, and nothing else has moved. */
  ghost predicate RewrittenLibrary(s: State, t: State) {
    && 0 < s.cfg.pageSize < UINT32_MODULUS
    && Rewritten(s, t, s.replaced, 0, LibraryRoom(s), LibraryOffset(s) + LibraryNeeded(s), LibraryPage(s), LibraryOffset(s))
    && MappedBySegment(t, s.replaced, LibrarySegment(s))
    && SegmentsFollow(t, s.replaced, s.phdrs + [LibrarySegment(s)], LibraryPage(s))
    && LibrarySegments(s, t, LibraryOffset(s), LibraryPage(s), LibraryNeeded(s))
  }

  lemma LibrarySegmentsIntro(s: State, t: State)
    requires Sizes(s) && 0 < s.cfg.pageSize < UINT32_MODULUS
    requires Rewritten(s, t, s.replaced, 0, LibraryRoom(s), LibraryOffset(s) + LibraryNeeded(s), LibraryPage(s), LibraryOffset(s))
    requires SegmentsFollow(t, s.replaced, s.phdrs + [LibrarySegment(s)], LibraryPage(s))
    ensures LibrarySegments(s, t, LibraryOffset(s), LibraryPage(s), LibraryNeeded(s))
  {
    hide LibraryOffset, LibraryPage, LibraryNeeded, LibraryRoom, Rewritten, SegmentsFollow, LibrarySegments, Keyed;
    ReplacedExist(s, t, s.replaced, 0, LibraryRoom(s), LibraryOffset(s) + LibraryNeeded(s), LibraryPage(s), LibraryOffset(s));
    LibraryIsSaid(s, t, LibraryOffset(s), LibraryPage(s), LibraryNeeded(s));
  }

  lemma MappedIntro(s: State, t: State, cur0: nat)
    requires Sizes(s) && t.cfg == s.cfg
    requires ReplacedLieIn(t, s.replaced, cur0, LibraryOffset(s) + LibraryNeeded(s), LibraryPage(s), LibraryOffset(s))
    requires LibrarySegment(s) in t.phdrs && LibraryOffset(s) + LibraryNeeded(s) <= t.fileSize
    requires t.hdr.phoff == LibraryOffset(s) <= cur0 && |t.phdrs| == |s.phdrs| + 1
    ensures MappedBySegment(t, s.replaced, LibrarySegment(s))
  {
    hide TotalAll, PowerOfTwo, RoundUp, AddressAt;
    LibraryPlaceIsPage(s);
    ResidueOfDifference(LibraryPage(s), LibraryOffset(s), s.cfg.pageSize);
  }

  /** The replaced sections of a library are mapped by its new segment. */
  lemma LibraryMapped(s: State, v: State)
    requires Sizes(s) && 0 < s.cfg.pageSize < UINT32_MODULUS && v.cfg == s.cfg && v.hdr.phoff == LibraryOffset(s)
    requires LibraryOffset(s) + LibraryNeeded(s) <= v.fileSize
    requires Rewritten(s, v, s.replaced, 0, LibraryRoom(s), LibraryOffset(s) + LibraryNeeded(s), LibraryPage(s), LibraryOffset(s))
    requires SegmentsFollow(v, s.replaced, s.phdrs + [LibrarySegment(s)], LibraryPage(s))
    ensures MappedBySegment(v, s.replaced, LibrarySegment(s))
  {
    hide TotalAll, Rewritten, LibraryOffset, LibraryPage, LibraryNeeded, MappedBySegment, ReplacedLieIn, Sizes, SegmentsFollow,
         LibrarySegment, LibraryRoom;
    RoomIsBehind(s);
    LibrarySegmentLoads(s);
    SegmentSurvives(v, s.replaced, s.phdrs, LibraryPage(s), LibrarySegment(s));
    RewrittenPlacesOf(s, v, s.replaced, 0, LibraryRoom(s), LibraryOffset(s) + LibraryNeeded(s), LibraryPage(s), LibraryOffset(s));
    MappedIntro(s, v, LibraryRoom(s));
  }

  lemma RoomIsBehind(s: State)
    requires 0 < s.cfg.pageSize < UINT32_MODULUS
    ensures LibraryOffset(s) <= LibraryRoom(s)
  {
    hide LibraryOffset;
  }

  lemma LibrarySegmentLoads(s: State)
    requires 0 < s.cfg.pageSize < UINT32_MODULUS
    ensures LibrarySegment(s).ptype == PT_LOAD
  {
  }
}
