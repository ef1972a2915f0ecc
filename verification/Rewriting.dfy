/** What a whole rewrite promises, and how its steps add up to it. */
module Rewriting {
  import opened Bytes
  import opened ElfTypes
  import opened Rounding
  import opened Image
  import opened Layout
  import opened Carrying
  import opened Patching
  import opened Headers
  import S = Sections

  /**
   The ways in which a rewrite can end: normally; at an error exit, because the file would become
   too large, because there is no address space below the file, because a section is missing that the
   dynamic section refers to, or because the file is of another type; or at a failed assertion about the input.
   */
  datatype Ending = Done | TooLarge | AddressUnderrun | MissingSection | NothingFollows | NotCongruent | UnknownType

  /**
   What the rewrite of an executable settles on: the replacements `rs` are those asked for and, with their old contents, some
   movable sections; the room for them ends where some section begins in the file and in memory, and all others begin behind it.
   No section is pulled in from behind code or data, or from behind .dynstr.
   */
  ghost predicate Chosen(s: State, rs: seq<Replacement>, startOffset: nat, startAddr: nat) {
    && (exists n :: s.Has(n) && s.Sec(n).offset == startOffset && s.Sec(n).addr == startAddr)
    && (forall n :: s.Has(n) && !Keyed(rs, n) ==> s.Sec(n).offset >= startOffset)
    && (forall n :: Keyed(s.replaced, n) ==> Keyed(rs, n) && Data(rs, n) == Data(s.replaced, n))
    && (forall n :: Keyed(rs, n) && !Keyed(s.replaced, n) ==>
          s.Backed(n) && s.InBuffer(n) && !(s.Sec(n).stype == 1 && n != INTERP) && Data(rs, n) == s.Content(n))
    && (forall n, m :: Keyed(rs, n) && !Keyed(s.replaced, n) && s.Has(n) && s.Has(m) ==>
          ((s.Sec(m).stype == 1 && m != INTERP) || m == DYNSTR ==> s.Sec(n).offset <= s.Sec(m).offset))
    && (forall m :: s.Has(m) && s.Sec(m).stype == 1 && m != INTERP ==> startOffset <= s.Sec(m).offset)
    && TotalAll(s.cfg.cls, rs) <= TotalAll(s.cfg.cls, s.replaced) + s.fileSize + 8 * |s.shdrs|
  }

  /** The size of the file once its section header table is out of the way. */
  function SizeWithTable(s: State, startOffset: nat): nat {
    s.fileSize + if s.hdr.shoff < startOffset then s.hdr.shoff + s.ShTableSize() else 0
  }

  /** The space that the headers and the replacements need and do not have, with the header of one more segment, in whole pages. */
  function MissingSpace(s: State, rs: seq<Replacement>, startOffset: nat): nat
    requires 0 < s.cfg.pageSize < 0x1_0000_0000
  {
    var needed := s.HeadersSize() + TotalAll(s.cfg.cls, rs);
    if needed <= startOffset then 0 else RoundUp(needed + s.cfg.cls.PhdrSize() - startOffset, s.cfg.pageSize)
  }

  lemma SameMissing(s: State, t: State, rs: seq<Replacement>, startOffset: nat)
    requires 0 < s.cfg.pageSize < 0x1_0000_0000 && t.cfg == s.cfg && t.phdrs == s.phdrs
    ensures MissingSpace(t, rs, startOffset) == MissingSpace(s, rs, startOffset)
  {
    hide RoundUp, TotalAll;
  }

  /** The address of the beginning of the file. */
  function FrontAddress(cfg: Config, startOffset: nat, startAddr: nat): nat {
    cfg.cls.Wrap(startAddr as int - startOffset)
  }

  /** Exactly when the rewrite fails for what it has settled on. */
  ghost predicate FailsExactly(s: State, r: Ending, rs: seq<Replacement>, startOffset: nat, startAddr: nat)
    requires 0 < s.cfg.pageSize < 0x1_0000_0000
  {
    var size, missing := SizeWithTable(s, startOffset), MissingSpace(s, rs, startOffset);
    if startAddr % s.cfg.pageSize != startOffset % s.cfg.pageSize then r.NotCongruent?
    else
      && !r.NotCongruent?
      && (r.AddressUnderrun? <==> size <= s.cfg.maxSize && FrontAddress(s.cfg, startOffset, startAddr) < missing)
      && (r.TooLarge? <==> size > s.cfg.maxSize
                           || (missing <= FrontAddress(s.cfg, startOffset, startAddr) && size + missing > s.cfg.maxSize))
  }

  /** What must be wrong with the input for a rewrite of an executable to end as it does. */
  ghost predicate Explained(s: State, r: Ending) {
    match r
    case Done => true
    case TooLarge => Sizes(s) && exists rs, o, a :: Chosen(s, rs, o, a) && FailsExactly(s, r, rs, o, a)
    case AddressUnderrun => Sizes(s) && exists rs, o, a :: Chosen(s, rs, o, a) && FailsExactly(s, r, rs, o, a)
    case MissingSection => s.Backed(DYNAMIC) && s.InBuffer(DYNAMIC) && PatchDynamic(s, Current(s, DYNAMIC)).None?
    case UnknownType => false
    case NothingFollows =>
      forall n :: s.Has(n) ==> exists m :: Keyed(s.replaced, m) && s.Has(m) && s.Sec(n).offset <= s.Sec(m).offset
    case NotCongruent => s.cfg.pageSize > 0 && exists n :: s.Has(n) && s.Sec(n).addr % s.cfg.pageSize != s.Sec(n).offset % s.cfg.pageSize
  }

  /** The input of a rewrite: a well-formed file with replacements for some of its sections, all small enough for 32-bit sizes. */
  ghost predicate Rewritable(s: State) {
    && WellFormed(s) && Requested(s) && s.replaced != []
    && |s.phdrs| < 0xFFFF && TotalAll(s.cfg.cls, s.replaced) <= 0x4000_0000
    && DynamicReady(s)
  }

  /** The dynamic section, as it is going to be, has a terminating entry. */
  ghost predicate DynamicReady(s: State) {
    s.Has(DYNAMIC) ==> s.Backed(DYNAMIC) && s.InBuffer(DYNAMIC) && HasNull(s.cfg.cls, Current(s, DYNAMIC))
  }

  /** Every section holds what it held or was given, with only the references inside repaired. */
  ghost predicate ContentsPreserved(s: State, t: State) {
    forall n :: s.Backed(n) ==>
      && s.InBuffer(n) && t.Backed(n) && t.InBuffer(n)
      && (n == DYNAMIC ==> PatchDynamic(t, Current(s, n)).Some?)
      && t.Content(n) == Repaired(t, n, Current(s, n))
  }

  /** The same sections, each of the same kind, and every reference from a header names the same section. */
  ghost predicate ReferencesPreserved(s: State, t: State) {
    && t.cfg == s.cfg
    && (forall n :: t.Has(n) <==> s.Has(n))
    && (forall n :: s.Has(n) && t.Has(n) ==> t.Sec(n).stype == s.Sec(n).stype && SameReferences(s, t, n))
    && s.hdr.shstrndx < |s.shdrs| && t.hdr.shstrndx < |t.shdrs|
    && S.NameOf(s.cfg.tab, t.shdrs[t.hdr.shstrndx]) == S.NameOf(s.cfg.tab, s.shdrs[s.hdr.shstrndx])
  }

  /** `t` is `s` after `rewriteSections`: contents and references are preserved, and nothing at all happens if nothing is to be replaced. */
  ghost predicate Preserved(s: State, t: State) {
    if s.replaced == [] then t == s
    else ContentsPreserved(s, t) && ReferencesPreserved(s, t)
  }

  /** What is not in `rs` moves with the file: `shift` further on, at the same address. */
  ghost predicate OthersMove(s: State, t: State, rs: seq<Replacement>, shift: nat) {
    forall n :: s.Has(n) && t.Has(n) && !Keyed(rs, n) ==>
      Core(t.Sec(n)) == Core(s.Sec(n)) && t.Sec(n).offset == s.Sec(n).offset + shift
  }

  /** The sections in `rs` lie between `a` and `b`, all at the same distance from their addresses. */
  ghost predicate ReplacedLieIn(t: State, rs: seq<Replacement>, a: nat, b: nat, startAddr: nat, startOffset: nat) {
    forall n :: Keyed(rs, n) ==>
      && t.Backed(n)
      && t.Sec(n).size == |Data(rs, n)|
      && a <= t.Sec(n).offset && t.Sec(n).offset + t.Sec(n).size <= b
      && t.Sec(n).addr == AddressAt(t.cfg.cls, startAddr, startOffset, t.Sec(n).offset)
  }

  /** The header tables in the file say what the headers are, in places of their own. */
  ghost predicate TablesInFile(t: State) {
    && TableRoom(t)
    && S.SortedByOffset(t.shdrs) && |t.shdrs| >= 1
    && Holds(t.contents, t.hdr.phoff, EncodePhdrs(t.cfg.cls, t.phdrs))
    && Holds(t.contents, t.hdr.shoff + t.cfg.cls.ShdrSize(), EncodeShdrs(t.cfg.cls, t.shdrs[1..]))
  }

  /** A segment of the interpreter or of the dynamic section follows its section when that is replaced. */
  function Followed(t: State, rs: seq<Replacement>, p: Phdr): Phdr {
    if p.ptype == PT_INTERP && Keyed(rs, INTERP) && t.Has(INTERP) then
      Synced(p, t.Sec(INTERP).offset, t.Sec(INTERP).addr, t.Sec(INTERP).size)
    else if p.ptype == PT_DYNAMIC && Keyed(rs, DYNAMIC) && t.Has(DYNAMIC) then
      Synced(p, t.Sec(DYNAMIC).offset, t.Sec(DYNAMIC).addr, t.Sec(DYNAMIC).size)
    else p
  }

  function AllFollowed(t: State, rs: seq<Replacement>, ps: seq<Phdr>): (r: seq<Phdr>)
    ensures |r| == |ps| && forall i :: 0 <= i < |ps| ==> r[i] == Followed(t, rs, ps[i])
  {
    if ps == [] then [] else AllFollowed(t, rs, ps[..|ps| - 1]) + [Followed(t, rs, ps[|ps| - 1])]
  }

  /** The segments are those of `ps`, rearranged; the ones that describe moved things say where these are now. */
  ghost predicate SegmentsFollow(t: State, rs: seq<Replacement>, ps: seq<Phdr>, phdrAddress: nat) {
    multiset(t.phdrs)
    == multiset(WithTableSegment(AllFollowed(t, rs, ps), t.hdr.phoff, phdrAddress, |ps| * t.cfg.cls.PhdrSize()))
  }

  /** The header `b` is `a` after a rewrite: a replaced section has a new place and size, and the alignment of a word; any other keeps all but its place in the file. */
  predicate FieldsKept(cls: ElfClass, a: Shdr, b: Shdr, replaced: bool, size: nat, shift: nat) {
    && b.name == a.name && b.stype == a.stype && b.flags == a.flags && b.entsize == a.entsize
    && if replaced then b.size == size && b.addralign == (if cls.Elf32? then 4 else 8)
       else b.size == a.size && b.addr == a.addr && b.addralign == a.addralign && b.offset == a.offset + shift
  }

  /** The index `j` of `t` means what the index `i` of `s` means: nothing if it is 0, or else the section of the same name. */
  predicate SameMeaning(s: State, i: nat, t: State, j: nat) {
    if i == 0 then j == 0
    else i < |s.shdrs| && 1 <= j < |t.shdrs| && S.NameOf(t.cfg.tab, t.shdrs[j]) == S.NameOf(s.cfg.tab, s.shdrs[i])
  }

  /** All section headers of `t`, field by field; `sh_info` is an index for SHT_RELA (4) and SHT_REL (9). */
  ghost predicate HeadersSay(s: State, t: State, rs: seq<Replacement>, shift: nat) {
    forall n :: s.Has(n) ==>
      && t.Has(n)
      && FieldsKept(s.cfg.cls, s.Sec(n), t.Sec(n), Keyed(rs, n), if Keyed(rs, n) then |Data(rs, n)| else 0, shift)
      && SameMeaning(s, s.Sec(n).link, t, t.Sec(n).link)
      && (if s.Sec(n).stype == 4 || s.Sec(n).stype == 9 then SameMeaning(s, s.Sec(n).info, t, t.Sec(n).info)
          else t.Sec(n).info == s.Sec(n).info)
  }

  /** `t` is `s` rewritten: the sections in `rs` in a free region, all others where they were but `shift` further on. */
  ghost predicate Rewritten(s: State, t: State, rs: seq<Replacement>, shift: nat, a: nat, b: nat, startAddr: nat, startOffset: nat) {
    && WellFormed(t) && TablesInFile(t)
    && ContentsPreserved(s, t) && ReferencesPreserved(s, t)
    && OthersMove(s, t, rs, shift)
    && HeadersSay(s, t, rs, shift)
    && ReplacedLieIn(t, rs, a, b, startAddr, startOffset)
    && (forall n :: Keyed(s.replaced, n) ==> Keyed(rs, n))
    && (forall n :: Keyed(rs, n) && !Keyed(s.replaced, n) ==> s.Has(n) && !Immovable(n, s.Sec(n)))
  }

  // ---------------------------------------------------------------- before the replacements are written

  /** `t` is `s` on the way: the replacements are settled, and the sections that are not replaced are intact, `shift` further on. */
  ghost predicate UnderWay(s: State, t: State, shift: nat) {
    && WellFormed(t) && Requested(t)
    && Moves(s, t, shift) && Keeps(s, t, t.replaced)
    && s.hdr.shstrndx < |s.shdrs|
    && S.NameOf(s.cfg.tab, t.shdrs[t.hdr.shstrndx]) == S.NameOf(s.cfg.tab, s.shdrs[s.hdr.shstrndx])
    && (forall n :: Keyed(s.replaced, n) ==> Keyed(t.replaced, n) && Data(t.replaced, n) == Data(s.replaced, n))
    && (forall n :: Keyed(t.replaced, n) && !Keyed(s.replaced, n) ==>
          s.Backed(n) && s.InBuffer(n) && !Immovable(n, s.Sec(n)) && Data(t.replaced, n) == s.Content(n))
  }

  lemma UnderWayStart(s: State)
    requires Rewritable(s)
    ensures UnderWay(s, s, 0)
  {
    hide S.Sortable;
  }

  /** A step that moves sections and leaves the replacements alone. */
  lemma UnderWayStep(s: State, t: State, u: State, a: nat, b: nat)
    requires UnderWay(s, t, a) && WellFormed(u) && Moves(t, u, b) && Keeps(t, u, t.replaced) && u.replaced == t.replaced
    requires S.NameOf(s.cfg.tab, u.shdrs[u.hdr.shstrndx]) == S.NameOf(s.cfg.tab, t.shdrs[t.hdr.shstrndx])
    ensures UnderWay(s, u, a + b)
  {
    hide S.Sortable, SectionsInFile, SectionsApart, TableApart, S.NameOf;
    MovesTwice(s, t, u, a, b);
    KeepsTwice(s, t, u, t.replaced);
    StillRequested(t, u, b);
  }

  lemma StillRequested(t: State, u: State, shift: nat)
    requires Requested(t) && Moves(t, u, shift) && u.replaced == t.replaced
    ensures Requested(u)
  {
    forall j | 0 <= j < |u.replaced| ensures u.Backed(u.replaced[j].name) {
      assert t.Backed(t.replaced[j].name);
      assert Core(u.Sec(u.replaced[j].name)) == Core(t.Sec(u.replaced[j].name));
    }
  }

  lemma KeepsFewer(s: State, t: State, rs: seq<Replacement>)
    requires Keeps(s, t, [])
    ensures Keeps(s, t, rs)
  {
  }

  // ---------------------------------------------------------------- from the free region to the end

  /** Writing the replacements and then the headers completes the rewrite. */
  lemma RewrittenIntro(s: State, t: State, u: State, v: State, slots: seq<Slot>, shift: nat,
                       cur0: nat, end: nat, startAddr: nat, startOffset: nat, phdrAddress: nat)
    requires Rewritable(s) && UnderWay(s, t, shift) && Placeable(t)
    requires |slots| == |t.replaced| && WrittenOut(t, u, slots, cur0, end) && FreeRegion(t, cur0, end)
    requires Spaced(t.replaced, slots, end) && SameSlide(t.cfg.cls, slots, startAddr, startOffset)
    requires forall k :: 0 <= k < |slots| ==> cur0 <= slots[k].offset
    requires TableRoom(u) && HeadersRewritten(u, v, phdrAddress)
    ensures Rewritten(s, v, t.replaced, shift, cur0, end, startAddr, startOffset)
  {
    WrittenHeaders(t, u, slots, cur0, end);
    RewrittenReferences(s, t, u, v, slots, shift, cur0, end, phdrAddress);
    RewrittenPlaces(s, t, u, v, slots, shift, cur0, end, startAddr, startOffset, phdrAddress);
    RewrittenContents(s, t, u, v, slots, shift, cur0, end, phdrAddress);
    RewrittenTables(u, v, phdrAddress);
    RewrittenHeaders(s, t, u, v, slots, shift, cur0, end, phdrAddress);
  }

  lemma RewrittenHeaders(s: State, t: State, u: State, v: State, slots: seq<Slot>, shift: nat, cur0: nat, end: nat, phdrAddress: nat)
    requires Rewritable(s) && UnderWay(s, t, shift) && Placeable(t) && |slots| == |t.replaced|
    requires WrittenOut(t, u, slots, cur0, end) && HeadersReplaced(t, u, slots) && HeadersRewritten(u, v, phdrAddress)
    ensures HeadersSay(s, v, t.replaced, shift)
  {
    hide UnderWay, HeadersReplaced, HeadersRewritten, WrittenOut, Moves, S.NameOf, FieldsKept, SameMeaning;
    UnderWayMoves(s, t, shift);
    RewrittenMoves(u, v, phdrAddress);
    SameSections(s, t, u, v, slots, shift);
    LinksOfInput(s);
    LinksOfOutput(u, v, phdrAddress);
    forall n | s.Has(n)
      ensures v.Has(n)
      ensures FieldsKept(s.cfg.cls, s.Sec(n), v.Sec(n), Keyed(t.replaced, n), if Keyed(t.replaced, n) then |Data(t.replaced, n)| else 0, shift)
      ensures SameMeaning(s, s.Sec(n).link, v, v.Sec(n).link)
      ensures if s.Sec(n).stype == 4 || s.Sec(n).stype == 9 then SameMeaning(s, s.Sec(n).info, v, v.Sec(n).info)
              else v.Sec(n).info == s.Sec(n).info
    {
      ReferencesThrough(s, t, u, v, slots, shift, n);
      FieldsThrough(s, t, u, v, slots, shift, n);
      MeaningKept(s, v, n);
    }
  }

  lemma LinksOfInput(s: State)
    requires Rewritable(s)
    ensures S.LinksInRange(s.shdrs)
  {
  }

  lemma LinksOfOutput(u: State, v: State, phdrAddress: nat)
    requires HeadersRewritten(u, v, phdrAddress)
    ensures S.LinksInRange(v.shdrs)
  {
    hide Repaired, EncodePhdrs, EncodeShdrs;
  }

  lemma FieldsThrough(s: State, t: State, u: State, v: State, slots: seq<Slot>, shift: nat, n: Name)
    requires Moves(s, t, shift) && |slots| == |t.replaced| && HeadersReplaced(t, u, slots) && Moves(u, v, 0)
    requires s.Has(n) && v.Has(n)
    ensures FieldsKept(s.cfg.cls, s.Sec(n), v.Sec(n), Keyed(t.replaced, n), if Keyed(t.replaced, n) then |Data(t.replaced, n)| else 0, shift)
  {
    assert t.Has(n) && u.Has(n);
    assert Core(t.Sec(n)) == Core(s.Sec(n)) && Core(v.Sec(n)) == Core(u.Sec(n));
  }

  lemma MeaningKept(s: State, v: State, n: Name)
    requires s.Has(n) && v.Has(n) && SameReferences(s, v, n) && v.Sec(n).stype == s.Sec(n).stype
    requires S.LinksInRange(s.shdrs) && S.LinksInRange(v.shdrs)
    ensures SameMeaning(s, s.Sec(n).link, v, v.Sec(n).link)
    ensures if s.Sec(n).stype == 4 || s.Sec(n).stype == 9 then SameMeaning(s, s.Sec(n).info, v, v.Sec(n).info)
            else v.Sec(n).info == s.Sec(n).info
  {
    hide S.NameOf;
  }

  lemma WrittenStringTable(t: State, u: State, slots: seq<Slot>, cur0: nat, end: nat)
    requires Counts(t) && Placeable(t) && |slots| == |t.replaced| && WrittenOut(t, u, slots, cur0, end)
    ensures u.hdr == t.hdr && u.cfg == t.cfg && |u.shdrs| == |t.shdrs|
    ensures S.NameOf(t.cfg.tab, u.shdrs[u.hdr.shstrndx]) == S.NameOf(t.cfg.tab, t.shdrs[t.hdr.shstrndx])
  {
    WrittenNames(t, u, slots, cur0, end);
  }

  lemma RewrittenReferences(s: State, t: State, u: State, v: State, slots: seq<Slot>, shift: nat, cur0: nat, end: nat, phdrAddress: nat)
    requires UnderWay(s, t, shift) && Placeable(t) && |slots| == |t.replaced|
    requires WrittenOut(t, u, slots, cur0, end) && HeadersReplaced(t, u, slots) && HeadersRewritten(u, v, phdrAddress)
    ensures ReferencesPreserved(s, v)
  {
    hide WrittenOut, Placeable, S.NameOf, Moves, HeadersReplaced, HeadersRewritten, UnderWay, SameReferences;
    UnderWayMoves(s, t, shift);
    RewrittenMoves(u, v, phdrAddress);
    WrittenStringTable(t, u, slots, cur0, end);
    SameSections(s, t, u, v, slots, shift);
    forall n | s.Has(n) && v.Has(n)
      ensures v.Sec(n).stype == s.Sec(n).stype && SameReferences(s, v, n)
    {
      ReferencesThrough(s, t, u, v, slots, shift, n);
    }
  }

  lemma UnderWayMoves(s: State, t: State, shift: nat)
    requires UnderWay(s, t, shift)
    ensures Moves(s, t, shift) && Counts(t) && s.hdr.shstrndx < |s.shdrs| && t.cfg == s.cfg
    ensures S.NameOf(s.cfg.tab, t.shdrs[t.hdr.shstrndx]) == S.NameOf(s.cfg.tab, s.shdrs[s.hdr.shstrndx])
  {
    hide S.Sortable;
  }

  lemma RewrittenMoves(u: State, v: State, phdrAddress: nat)
    requires HeadersRewritten(u, v, phdrAddress)
    ensures Moves(u, v, 0) && v.hdr.shstrndx < |v.shdrs| && u.hdr.shstrndx < |u.shdrs| && v.cfg == u.cfg
    ensures S.NameOf(u.cfg.tab, v.shdrs[v.hdr.shstrndx]) == S.NameOf(u.cfg.tab, u.shdrs[u.hdr.shstrndx])
  {
    hide S.Sortable, Repaired, PatchDynamic;
  }

  lemma SameSections(s: State, t: State, u: State, v: State, slots: seq<Slot>, shift: nat)
    requires Moves(s, t, shift) && |slots| == |t.replaced| && HeadersReplaced(t, u, slots) && Moves(u, v, 0)
    ensures v.cfg == s.cfg && forall n :: v.Has(n) <==> s.Has(n)
  {
    hide SameReferences;
    forall n ensures v.Has(n) <==> s.Has(n) {
      assert v.Has(n) <==> u.Has(n);
      assert u.Has(n) <==> t.Has(n);
    }
  }

  lemma ReferencesThrough(s: State, t: State, u: State, v: State, slots: seq<Slot>, shift: nat, n: Name)
    requires Moves(s, t, shift) && |slots| == |t.replaced| && HeadersReplaced(t, u, slots) && Moves(u, v, 0)
    requires s.Has(n) && v.Has(n)
    ensures v.Sec(n).stype == s.Sec(n).stype && SameReferences(s, v, n)
  {
    assert t.Has(n) && u.Has(n);
    assert Core(t.Sec(n)) == Core(s.Sec(n)) && Core(v.Sec(n)) == Core(u.Sec(n));
    assert SameReferences(s, t, n) && SameReferences(t, u, n) && SameReferences(u, v, n);
  }

  lemma RewrittenPlaces(s: State, t: State, u: State, v: State, slots: seq<Slot>, shift: nat, cur0: nat, end: nat,
                        startAddr: nat, startOffset: nat, phdrAddress: nat)
    requires UnderWay(s, t, shift) && |slots| == |t.replaced|
    requires HeadersReplaced(t, u, slots) && HeadersRewritten(u, v, phdrAddress)
    requires Spaced(t.replaced, slots, end) && SameSlide(t.cfg.cls, slots, startAddr, startOffset)
    requires forall k :: 0 <= k < |slots| ==> cur0 <= slots[k].offset
    ensures OthersMove(s, v, t.replaced, shift)
    ensures ReplacedLieIn(v, t.replaced, cur0, end, startAddr, startOffset)
  {
    hide UnderWay, HeadersReplaced, HeadersRewritten, Spaced, SameSlide, Moves, Requested, OthersMove, ReplacedLieIn, S.NameOf;
    UnderWayMoves(s, t, shift);
    UnderWayParts(s, t, shift);
    RewrittenMoves(u, v, phdrAddress);
    OthersPlaced(s, t, u, v, slots, shift);
    ReplacedPlaced(t, u, v, slots, cur0, end, startAddr, startOffset);
  }

  lemma OthersPlaced(s: State, t: State, u: State, v: State, slots: seq<Slot>, shift: nat)
    requires Moves(s, t, shift) && |slots| == |t.replaced| && HeadersReplaced(t, u, slots) && Moves(u, v, 0)
    ensures OthersMove(s, v, t.replaced, shift)
  {
    hide Moves, HeadersReplaced;
    forall n | s.Has(n) && v.Has(n) && !Keyed(t.replaced, n)
      ensures Core(v.Sec(n)) == Core(s.Sec(n)) && v.Sec(n).offset == s.Sec(n).offset + shift
    {
      OtherThrough(s, t, u, v, slots, shift, n);
    }
  }

  lemma ReplacedPlaced(t: State, u: State, v: State, slots: seq<Slot>, cur0: nat, end: nat, startAddr: nat, startOffset: nat)
    requires Requested(t) && |slots| == |t.replaced| && HeadersReplaced(t, u, slots) && Moves(u, v, 0)
    requires Spaced(t.replaced, slots, end) && SameSlide(t.cfg.cls, slots, startAddr, startOffset)
    requires forall k :: 0 <= k < |slots| ==> cur0 <= slots[k].offset
    ensures ReplacedLieIn(v, t.replaced, cur0, end, startAddr, startOffset)
  {
    hide Moves, HeadersReplaced, Requested, Spaced, SameSlide, AddressAt;
    forall n | Keyed(t.replaced, n)
      ensures v.Backed(n) && v.Sec(n).size == |Data(t.replaced, n)|
      ensures cur0 <= v.Sec(n).offset && v.Sec(n).offset + v.Sec(n).size <= end
      ensures v.Sec(n).addr == AddressAt(v.cfg.cls, startAddr, startOffset, v.Sec(n).offset)
    {
      RequestedBacked(t, n);
      ReplacedThrough(t, u, v, slots, end, startAddr, startOffset, n);
    }
  }

  lemma OtherThrough(s: State, t: State, u: State, v: State, slots: seq<Slot>, shift: nat, n: Name)
    requires Moves(s, t, shift) && |slots| == |t.replaced| && HeadersReplaced(t, u, slots) && Moves(u, v, 0)
    requires s.Has(n) && !Keyed(t.replaced, n)
    ensures v.Has(n) && Core(v.Sec(n)) == Core(s.Sec(n)) && v.Sec(n).offset == s.Sec(n).offset + shift
  {
    assert t.Has(n) && u.Has(n) && v.Has(n);
    assert Core(t.Sec(n)) == Core(s.Sec(n)) && Core(v.Sec(n)) == Core(u.Sec(n));
    assert u.Sec(n) == t.Sec(n);
  }

  lemma ReplacedThrough(t: State, u: State, v: State, slots: seq<Slot>, end: nat, startAddr: nat, startOffset: nat, n: Name)
    requires |slots| == |t.replaced| && HeadersReplaced(t, u, slots) && Moves(u, v, 0)
    requires Spaced(t.replaced, slots, end) && SameSlide(t.cfg.cls, slots, startAddr, startOffset)
    requires t.Backed(n) && Keyed(t.replaced, n)
    ensures v.Backed(n) && v.Sec(n).size == |Data(t.replaced, n)|
    ensures v.Sec(n).offset == SlotOf(t.replaced, slots, n).offset && v.Sec(n).offset + v.Sec(n).size <= end
    ensures v.Sec(n).addr == AddressAt(v.cfg.cls, startAddr, startOffset, v.Sec(n).offset)
  {
    hide AddressAt;
    assert u.Has(n) && v.Has(n);
    assert Core(v.Sec(n)) == Core(u.Sec(n));
    var k := IndexOf(t.replaced, n);
    assert slots[k].offset + |t.replaced[k].data| <= end;
    assert slots[k].addr == AddressAt(t.cfg.cls, startAddr, startOffset, slots[k].offset);
  }

  lemma RewrittenContents(s: State, t: State, u: State, v: State, slots: seq<Slot>, shift: nat, cur0: nat, end: nat, phdrAddress: nat)
    requires Rewritable(s) && UnderWay(s, t, shift) && Placeable(t) && |slots| == |t.replaced|
    requires WrittenOut(t, u, slots, cur0, end) && HeadersReplaced(t, u, slots) && FreeRegion(t, cur0, end)
    requires HeadersRewritten(u, v, phdrAddress)
    ensures ContentsPreserved(s, v)
  {
    hide S.Sortable, S.NameOf, S.Target, Repaired, PatchDynamic, WrittenOut, Holds, S.SortedByOffset, SameReferences,
         Placeable, UnderWay, FreeRegion, HeadersReplaced, HasNull, Moves, Keeps;
    forall n | s.Backed(n)
      ensures s.InBuffer(n) && v.Backed(n) && v.InBuffer(n)
      ensures n == DYNAMIC ==> PatchDynamic(v, Current(s, n)).Some?
      ensures v.Content(n) == Repaired(v, n, Current(s, n))
    {
      WrittenContent(s, t, u, slots, shift, cur0, end, n);
    }
  }

  /** After the replacements have been written, every section holds what it should. */
  lemma WrittenContent(s: State, t: State, u: State, slots: seq<Slot>, shift: nat, cur0: nat, end: nat, n: Name)
    requires WellFormed(s) && UnderWay(s, t, shift) && Placeable(t) && |slots| == |t.replaced|
    requires WrittenOut(t, u, slots, cur0, end) && HeadersReplaced(t, u, slots) && FreeRegion(t, cur0, end)
    requires s.Backed(n)
    ensures s.InBuffer(n) && u.Backed(n) && u.InBuffer(n) && u.Content(n) == Current(s, n)
  {
    hide S.Sortable, S.NameOf, S.Target, WrittenOut, Placeable;
    assert s.InBuffer(n);
    assert t.Has(n) && Core(t.Sec(n)) == Core(s.Sec(n));
    if Keyed(t.replaced, n) {
      WrittenData(t, u, slots, cur0, end, n);
    } else {
      WrittenKeeps(t, u, slots, cur0, end, n);
    }
  }

  lemma RewrittenTables(u: State, v: State, phdrAddress: nat)
    requires TableRoom(u) && HeadersRewritten(u, v, phdrAddress)
    ensures TablesInFile(v)
  {
    hide S.Sortable, S.NameOf, Repaired, PatchDynamic;
    var n := |v.phdrs| * v.cfg.cls.PhdrSize();
    forall m | v.Backed(m) ensures Apart(v.hdr.phoff, n, v.Sec(m).offset, v.Sec(m).size) {
      assert u.Has(m) && Core(v.Sec(m)) == Core(u.Sec(m));
    }
  }

  // ---------------------------------------------------------------- segments

  /** The headers and the replaced sections are at the front, and everything else begins behind them. */
  ghost predicate FrontRoom(t: State, rs: seq<Replacement>, room: nat, roomEnd: nat) {
    && t.hdr.phoff == t.cfg.cls.EhdrSize() && room == t.HeadersSize() && roomEnd <= t.hdr.shoff
    && forall n :: t.Has(n) && !Keyed(rs, n) ==> roomEnd <= t.Sec(n).offset
  }

  lemma FrontRoomIntro(s: State, t: State, u: State, v: State, slots: seq<Slot>, shift: nat, startOffset: nat, cur0: nat, end: nat, phdrAddress: nat)
    requires Cleared(s, t, shift, startOffset) && Placeable(t) && |slots| == |t.replaced|
    requires WrittenOut(t, u, slots, cur0, end) && HeadersReplaced(t, u, slots) && HeadersRewritten(u, v, phdrAddress)
    requires t.hdr.phoff == t.cfg.cls.EhdrSize() && cur0 == t.HeadersSize() <= end <= startOffset
    ensures FrontRoom(v, t.replaced, cur0, end)
  {
    hide UnderWay, HeadersReplaced, HeadersRewritten, WrittenOut, Placeable;
    WrittenShape(t, u, slots, cur0, end);
    RewrittenMoves(u, v, phdrAddress);
    HeadersRewrittenShape(u, v, phdrAddress);
    forall n | v.Has(n) && !Keyed(t.replaced, n) ensures end <= v.Sec(n).offset {
      UnkeyedThrough(t, u, v, slots, n);
    }
  }

  lemma UnkeyedThrough(t: State, u: State, v: State, slots: seq<Slot>, n: Name)
    requires |slots| == |t.replaced| && HeadersReplaced(t, u, slots) && Moves(u, v, 0)
    requires v.Has(n) && !Keyed(t.replaced, n)
    ensures t.Has(n) && v.Sec(n).offset == t.Sec(n).offset
  {
    assert u.Has(n) && t.Has(n);
  }

  /** Only the replacement of its own section changes a segment. */
  lemma {:induction false} PlacedSegment(rs: seq<Replacement>, slots: seq<Slot>, k: nat, p: Phdr)
    requires Ascending(rs) && k <= |rs| == |slots|
    ensures var i, d := IndexOf(rs, INTERP), IndexOf(rs, DYNAMIC);
      PlacedPhdr(rs, slots, k, p)
      == if p.ptype == PT_INTERP && i < k then Synced(p, slots[i].offset, slots[i].addr, |rs[i].data|)
         else if p.ptype == PT_DYNAMIC && d < k then Synced(p, slots[d].offset, slots[d].addr, |rs[d].data|)
         else p
  {
    hide IndexOf, Less;
    if k > 0 {
      PlacedSegment(rs, slots, k - 1, p);
      KeyedIff(rs, k - 1);
    }
  }

  lemma PlaceOfReplaced(t: State, u: State, v: State, slots: seq<Slot>, n: Name)
    requires |slots| == |t.replaced| && HeadersReplaced(t, u, slots) && Moves(u, v, 0)
    requires t.Has(n) && Keyed(t.replaced, n)
    ensures v.Has(n)
    ensures var k := IndexOf(t.replaced, n);
      v.Sec(n).offset == slots[k].offset && v.Sec(n).addr == slots[k].addr && v.Sec(n).size == |t.replaced[k].data|
  {
    assert u.Has(n) && v.Has(n);
    assert Core(v.Sec(n)) == Core(u.Sec(n));
  }

  lemma SegmentFollows(t: State, u: State, v: State, slots: seq<Slot>, p: Phdr)
    requires Placeable(t) && |slots| == |t.replaced| && HeadersReplaced(t, u, slots) && Moves(u, v, 0)
    ensures PlacedPhdr(t.replaced, slots, |t.replaced|, p) == Followed(v, t.replaced, p)
  {
    hide HeadersReplaced, Moves, PlacedPhdr;
    PlacedSegment(t.replaced, slots, |t.replaced|, p);
    if Keyed(t.replaced, INTERP) {
      assert t.Has(t.replaced[IndexOf(t.replaced, INTERP)].name);
      PlaceOfReplaced(t, u, v, slots, INTERP);
    }
    if Keyed(t.replaced, DYNAMIC) {
      assert t.Has(t.replaced[IndexOf(t.replaced, DYNAMIC)].name);
      PlaceOfReplaced(t, u, v, slots, DYNAMIC);
    }
  }

  lemma HeadersRewrittenShape(u: State, v: State, phdrAddress: nat)
    requires HeadersRewritten(u, v, phdrAddress)
    ensures v.cfg == u.cfg && v.hdr.phoff == u.hdr.phoff && v.hdr.shoff == u.hdr.shoff && v.fileSize == u.fileSize && |v.phdrs| == |u.phdrs|
  {
    hide WellFormed, Repaired, PatchDynamic, S.NameOf, EncodePhdrs, EncodeShdrs;
  }

  /** After the replacements and the headers have been written, the segments describe the file. */
  lemma SegmentsFollowIntro(t: State, u: State, v: State, slots: seq<Slot>, cur0: nat, end: nat, phdrAddress: nat)
    requires Placeable(t) && |slots| == |t.replaced| && WrittenOut(t, u, slots, cur0, end)
    requires HeadersReplaced(t, u, slots) && HeadersRewritten(u, v, phdrAddress)
    ensures SegmentsFollow(v, t.replaced, t.phdrs, phdrAddress)
  {
    hide Placeable, DataPlaced, InOld, WellFormed, Moves, Repaired, EncodePhdrs, EncodeShdrs, S.NameOf, PatchDynamic,
         HeadersReplaced, WithTableSegment, PlacedPhdr, Followed;
    HeadersRewrittenShape(u, v, phdrAddress);
    RewrittenMoves(u, v, phdrAddress);
    forall i | 0 <= i < |t.phdrs| ensures u.phdrs[i] == Followed(v, t.replaced, t.phdrs[i]) {
      SegmentFollows(t, u, v, slots, t.phdrs[i]);
    }
    assert u.phdrs == AllFollowed(v, t.replaced, t.phdrs);
  }

  // ---------------------------------------------------------------- making room at the front of an executable

  /** The first address is on a page boundary. */
  lemma FirstPageIsPage(cfg: Config, startAddr: nat, startOffset: nat, firstPage: nat, shift: nat)
    requires PowerOfTwo(cfg.pageSize) && cfg.pageSize <= 0x4000_0000
    requires startAddr % cfg.pageSize == startOffset % cfg.pageSize && shift % cfg.pageSize == 0
    requires firstPage + shift == cfg.cls.Wrap(startAddr as int - startOffset)
    ensures firstPage % cfg.pageSize == 0
  {
    hide PowerOfTwo, ElfClass.Wrap;
    var m := cfg.pageSize;
    WrapResidue(cfg.cls, startAddr as int - startOffset, m);
    DifferenceOfCongruent(startAddr, startOffset, m);
    ResidueOfDifference(firstPage + shift, shift, m);
  }

  lemma DifferenceOfCongruent(x: nat, y: nat, m: nat)
    requires m > 0 && x % m == y % m
    ensures (x as int - y) % m == 0
  {
    var q := x / m - y / m;
    assert x as int - y == q * m by {
      assert x == x / m * m + x % m && y == y / m * m + y % m;
      Distribute(x / m, y / m, m);
    }
    IntMultiple(q, m);
  }

  /** `t` is under way, and everything that is not being replaced, and the section header table, begins at or after `startOffset`. */
  ghost predicate Cleared(s: State, t: State, shift: nat, startOffset: nat) {
    && UnderWay(s, t, shift)
    && t.cfg.cls.EhdrSize() <= startOffset <= t.fileSize
    && startOffset <= t.hdr.shoff
    && Behind(t, startOffset)
  }

  ghost predicate Behind(t: State, startOffset: nat) {
    forall n :: t.Has(n) && !Keyed(t.replaced, n) ==> t.Sec(n).offset >= startOffset
  }

  /** Sorting the section headers changes nothing that matters. */
  lemma SortUnderWay(s: State, t: State)
    requires Rewritable(s) && NobitsAfterCode(s)
    requires t == s.(hdr := t.hdr, shdrs := t.shdrs) && S.Resorted(s.cfg.tab, s.shdrs, t.shdrs)
    requires t.hdr == s.hdr.(shstrndx := t.hdr.shstrndx) && 1 <= t.hdr.shstrndx < |t.shdrs|
    requires S.NameOf(s.cfg.tab, t.shdrs[t.hdr.shstrndx]) == S.NameOf(s.cfg.tab, s.shdrs[s.hdr.shstrndx])
    ensures UnderWay(s, t, 0) && NobitsAfterCode(t) && S.SortedByOffset(t.shdrs)
  {
    hide S.Sortable, S.Resorted, S.NameOf, DynamicReady;
    UnderWayStart(s);
    S.ResortedIsSortable(s.cfg.tab, s.shdrs, t.shdrs);
    SortedSize(s.cfg.tab, s.shdrs, t.shdrs);
    SortedAfter(s, t);
    ResortedMoves(s, t);
    MovedIsWellFormed(s, t, 0);
    MovedInPlace(s, t);
    UnderWayStep(s, s, t, 0, 0);
  }

  /** Moving nothing keeps everything. */
  lemma MovedInPlace(s: State, t: State)
    requires WellFormed(s) && Moves(s, t, 0) && t.contents == s.contents
    ensures Keeps(s, t, s.replaced)
    ensures NobitsAfterCode(s) ==> NobitsAfterCode(t)
  {
    hide S.Sortable, SameReferences;
    forall n | s.Backed(n) ensures s.InBuffer(n) && t.Backed(n) && t.InBuffer(n) && t.Content(n) == s.Content(n) {
      assert Core(t.Sec(n)) == Core(s.Sec(n));
    }
    if NobitsAfterCode(s) {
      forall n | t.Has(n) && !t.Sec(n).FileBacked()
        ensures exists m :: t.Has(m) && Immovable(m, t.Sec(m)) && t.Sec(m).offset < t.Sec(n).offset
      {
        assert s.Has(n) && Core(t.Sec(n)) == Core(s.Sec(n));
        var m :| s.Has(m) && Immovable(m, s.Sec(m)) && s.Sec(m).offset < s.Sec(n).offset;
        assert t.Has(m) && Core(t.Sec(m)) == Core(s.Sec(m));
      }
    }
  }

  /** Changing only the replacements leaves the file as it is. */
  lemma OnlyReplacements(s: State, t: State, u: State)
    requires u == t.(replaced := u.replaced)
    ensures WellFormed(t) ==> WellFormed(u)
    ensures Moves(s, t, 0) ==> Moves(s, u, 0)
    ensures forall n :: u.Has(n) <==> t.Has(n)
    ensures forall n :: t.Has(n) ==> u.Sec(n) == t.Sec(n)
  {
    hide S.Sortable;
    if Moves(s, t, 0) {
      forall n | s.Has(n) && u.Has(n)
        ensures Core(u.Sec(n)) == Core(s.Sec(n)) && u.Sec(n).offset == s.Sec(n).offset && SameReferences(s, u, n)
      {
        assert t.Has(n) && t.Sec(n) == u.Sec(n) && SameReferences(s, t, n);
      }
      assert forall n :: u.Has(n) <==> t.Has(n);
    }
    if WellFormed(t) {
      assert forall n :: u.Has(n) ==> t.Has(n) && u.Sec(n) == t.Sec(n);
    }
  }

  lemma PulledInData(s: State, t: State, u: State, startOffset: nat, startAddr: nat, n: Name)
    requires Moves(s, t, 0) && Keeps(s, t, s.replaced) && t.replaced == s.replaced && PulledIn(t, u, startOffset, startAddr)
    requires Keyed(u.replaced, n) && !Keyed(s.replaced, n)
    ensures s.Backed(n) && s.InBuffer(n) && !Immovable(n, s.Sec(n)) && Data(u.replaced, n) == s.Content(n)
  {
    hide Requested;
    assert Movable(t, n, LastKeyed(t, |t.shdrs|) + 1);
    assert Core(t.Sec(n)) == Core(s.Sec(n));
    assert s.Backed(n) && t.Content(n) == s.Content(n);
  }

  lemma PulledInKeeps(s: State, t: State, u: State, startOffset: nat, startAddr: nat)
    requires Keeps(s, t, s.replaced) && t.replaced == s.replaced && PulledIn(t, u, startOffset, startAddr)
    ensures Keeps(s, u, u.replaced)
  {
    hide Requested;
    OnlyReplacements(s, t, u);
    forall n | s.Backed(n) && !Keyed(u.replaced, n)
      ensures s.InBuffer(n) && u.Backed(n) && u.InBuffer(n) && u.Content(n) == s.Content(n)
    {
      assert !Keyed(s.replaced, n) && t.Content(n) == s.Content(n);
    }
  }

  lemma PulledInBehind(t: State, u: State, startOffset: nat, startAddr: nat)
    requires WellFormed(t) && PulledIn(t, u, startOffset, startAddr)
    ensures Behind(u, startOffset) && Requested(u)
    ensures t.cfg.cls.EhdrSize() <= startOffset <= u.fileSize
  {
    hide S.Sortable, Requested;
    OnlyReplacements(t, t, u);
  }

  /** Pulling in the sections in the way leaves the others behind the room. */
  lemma PullUnderWay(s: State, t: State, u: State, startOffset: nat, startAddr: nat)
    requires UnderWay(s, t, 0) && t.replaced == s.replaced && PulledIn(t, u, startOffset, startAddr)
    ensures UnderWay(s, u, 0) && Behind(u, startOffset)
    ensures t.cfg.cls.EhdrSize() <= startOffset <= u.fileSize
  {
    hide WellFormed, S.NameOf, Moves, Keeps, Requested;
    OnlyReplacements(s, t, u);
    PulledInBehind(t, u, startOffset, startAddr);
    PulledInKeeps(s, t, u, startOffset, startAddr);
    forall n | Keyed(u.replaced, n) && !Keyed(s.replaced, n)
      ensures s.Backed(n) && s.InBuffer(n) && !Immovable(n, s.Sec(n)) && Data(u.replaced, n) == s.Content(n)
    {
      PulledInData(s, t, u, startOffset, startAddr, n);
    }
  }

  /** Steps that only move sections keep the room clear. */
  lemma ClearedStep(s: State, t: State, u: State, a: nat, b: nat, startOffset: nat)
    requires UnderWay(s, t, a) && Behind(t, startOffset) && t.cfg.cls.EhdrSize() <= startOffset <= t.fileSize
    requires WellFormed(u) && Moves(t, u, b) && Keeps(t, u, []) && u.replaced == t.replaced
    requires S.NameOf(s.cfg.tab, u.shdrs[u.hdr.shstrndx]) == S.NameOf(s.cfg.tab, t.shdrs[t.hdr.shstrndx])
    requires u.hdr.shoff >= startOffset + b && u.fileSize >= t.fileSize + b
    ensures Cleared(s, u, a + b, startOffset + b)
  {
    hide S.Sortable, S.NameOf, SameReferences;
    KeepsFewer(t, u, t.replaced);
    UnderWayStep(s, t, u, a, b);
    forall n | u.Has(n) && !Keyed(u.replaced, n) ensures u.Sec(n).offset >= startOffset + b {
      assert t.Has(n);
    }
  }

  lemma SameHeadersMoveNot(t: State, u: State)
    requires u == t.(contents := u.contents)
    ensures Moves(t, u, 0)
  {
    assert forall n :: u.Has(n) <==> t.Has(n);
  }

  /** Clearing the room leaves everything behind it. */
  lemma ClearedFill(s: State, t: State, u: State, shift: nat, cur0: nat, startOffset: nat)
    requires Cleared(s, t, shift, startOffset) && cur0 <= startOffset
    requires u == t.(contents := u.contents) && u.contents == Splice(t.contents, cur0, Repeat(0, startOffset - cur0))
    ensures Cleared(s, u, shift, startOffset)
  {
    hide S.NameOf, Splice, Slice, S.Sortable, SameReferences;
    SameHeadersWellFormed(t, u);
    SameHeadersMoveNot(t, u);
    assert Keeps(t, u, t.replaced) by {
      forall n | t.Backed(n) && !Keyed(t.replaced, n)
        ensures t.InBuffer(n) && u.Backed(n) && u.InBuffer(n) && u.Content(n) == t.Content(n)
      {
        SpliceFrame(t.contents, cur0, Repeat(0, startOffset - cur0), t.Sec(n).offset, t.Sec(n).size);
      }
    }
    UnderWayStep(s, t, u, shift, 0);
    assert Behind(u, startOffset) by {
      assert forall n :: u.Has(n) ==> t.Has(n) && u.Sec(n) == t.Sec(n);
    }
  }

  /** The room at the front of a cleared file is free for the replacements. */
  lemma ClearedIsFree(s: State, t: State, shift: nat, startOffset: nat, cur0: nat, end: nat)
    requires Cleared(s, t, shift, startOffset) && t.cfg.cls.EhdrSize() <= cur0 <= end <= startOffset
    ensures FreeRegion(t, cur0, end) && Placeable(t)
  {
    RequestedPlaceable(t);
  }

  lemma WrittenShape(t: State, u: State, slots: seq<Slot>, cur0: nat, end: nat)
    requires Placeable(t) && |slots| == |t.replaced| && WrittenOut(t, u, slots, cur0, end)
    ensures u.cfg == t.cfg && u.hdr == t.hdr && u.fileSize == t.fileSize && |u.phdrs| == |t.phdrs|
  {
    hide InOld, DataPlaced;
  }

  /** After the replacements have been written, there is room in front of them for the program header table. */
  lemma RoomForTable(s: State, t: State, u: State, slots: seq<Slot>, shift: nat, startOffset: nat, cur0: nat, end: nat)
    requires Cleared(s, t, shift, startOffset) && Placeable(t) && |slots| == |t.replaced|
    requires WrittenOut(t, u, slots, cur0, end) && HeadersReplaced(t, u, slots)
    requires t.hdr.phoff == t.cfg.cls.EhdrSize() && cur0 == t.HeadersSize() <= end <= startOffset
    requires forall k :: 0 <= k < |slots| ==> cur0 <= slots[k].offset
    ensures TableRoom(u)
  {
    hide WrittenOut, Placeable, UnderWay;
    WrittenShape(t, u, slots, cur0, end);
    var n := |u.phdrs| * u.cfg.cls.PhdrSize();
    forall m | u.Backed(m) ensures Apart(u.hdr.phoff, n, u.Sec(m).offset, u.Sec(m).size) {
      assert t.Has(m);
      if Keyed(t.replaced, m) {
        assert cur0 <= slots[IndexOf(t.replaced, m)].offset;
      } else {
        assert u.Sec(m) == t.Sec(m);
      }
    }
  }

  /** The dynamic section is still terminated when the headers are rewritten. */
  lemma DynamicStillReady(s: State, t: State, u: State, slots: seq<Slot>, shift: nat, cur0: nat, end: nat)
    requires Rewritable(s) && UnderWay(s, t, shift) && Placeable(t) && |slots| == |t.replaced|
    requires WrittenOut(t, u, slots, cur0, end) && HeadersReplaced(t, u, slots) && FreeRegion(t, cur0, end)
    ensures DynamicTerminated(u)
  {
    hide HasNull, S.Sortable, WrittenOut, Placeable, Keeps, SameReferences;
    if u.Has(DYNAMIC) {
      assert t.Has(DYNAMIC) && s.Has(DYNAMIC);
      WrittenContent(s, t, u, slots, shift, cur0, end, DYNAMIC);
    }
  }

  lemma RewritableSorts(s: State)
    requires Rewritable(s)
    ensures S.Sortable(s.cfg.tab, s.shdrs) && Counts(s) && s.cfg.pageSize > 0 && Requested(s)
    ensures TotalAll(s.cfg.cls, s.replaced) <= 0x4000_0000
  {
  }

  lemma UnderWayParts(s: State, t: State, shift: nat)
    requires UnderWay(s, t, shift)
    ensures WellFormed(t) && Requested(t)
  {
  }

  lemma PulledInFits(t: State, u: State, startOffset: nat, startAddr: nat)
    requires WellFormed(t) && TotalAll(t.cfg.cls, t.replaced) <= 0x4000_0000 && PulledIn(t, u, startOffset, startAddr)
    ensures TotalAll(u.cfg.cls, u.replaced) <= 0x8000_0000 + 8 * |u.shdrs|
    ensures TotalAll(u.cfg.cls, u.replaced) <= TotalAll(t.cfg.cls, t.replaced) + t.fileSize + 8 * |u.shdrs|
  {
    hide Extended, TotalAll, S.Sortable;
  }

  /** Once the section header table has been moved, if it had to be, the way is clear. */
  lemma TableMoveClears(s: State, t: State, u: State, startOffset: nat)
    requires UnderWay(s, t, 0) && Behind(t, startOffset) && t.cfg.cls.EhdrSize() <= startOffset <= t.fileSize
    requires WellFormed(t)
    requires if t.hdr.shoff >= startOffset then u == t else TableMoved(t, u) && u.fileSize <= t.cfg.maxSize
    ensures Cleared(s, u, 0, startOffset)
    ensures u.hdr.phoff == t.hdr.phoff && |u.shdrs| == |t.shdrs| && u.replaced == t.replaced && u.phdrs == t.phdrs
    ensures u.fileSize == SizeWithTable(t, startOffset)
  {
    hide WellFormed, S.NameOf, UnderWay, Moves, Keeps, Behind, TableMoved;
    UnderWayMoves(s, t, 0);
    if t.hdr.shoff < startOffset {
      TableMovedShape(t, u);
      TableMovedCarries(t, u);
      ClearedStep(s, t, u, 0, 0, startOffset);
    }
  }

  lemma TableMovedShape(t: State, u: State)
    requires WellFormed(t) && TableMoved(t, u)
    ensures u.hdr.shoff == t.fileSize && u.fileSize == t.fileSize + t.hdr.shoff + t.ShTableSize()
    ensures u.hdr.phoff == t.hdr.phoff && |u.shdrs| == |t.shdrs| && u.replaced == t.replaced && u.phdrs == t.phdrs && u.cfg == t.cfg
    ensures u.hdr.shstrndx < |u.shdrs| && t.hdr.shstrndx < |t.shdrs|
    ensures S.NameOf(t.cfg.tab, u.shdrs[u.hdr.shstrndx]) == S.NameOf(t.cfg.tab, t.shdrs[t.hdr.shstrndx])
  {
    hide S.Sortable, S.NameOf, Splice, Grown, EncodeShdrs, S.Resorted, SectionsInFile, SectionsApart, TableApart;
    SortedSize(t.cfg.tab, t.shdrs, u.shdrs);
  }

  /** Shifting the file by the pages that are missing makes the room large enough. */
  lemma ShiftClears(s: State, t: State, startOffset: nat, pages: nat, startPage: nat)
    requires Cleared(s, t, 0, startOffset) && t.fileSize + pages * t.cfg.pageSize <= t.cfg.maxSize
    requires t.cfg.cls.EhdrSize() <= pages * t.cfg.pageSize
    ensures WellFormed(t)
    ensures Cleared(s, Shifted(t, pages, startPage), pages * t.cfg.pageSize, startOffset + pages * t.cfg.pageSize)
  {
    hide S.Sortable, ShiftedShdrs, ShiftedPhdrs, ShiftedContents, Repeat, Splice, Slice, SameReferences, Moves, Keeps, S.CString;
    var u := Shifted(t, pages, startPage);
    ShiftCarries(t, pages, startPage);
    assert S.NameOf(s.cfg.tab, u.shdrs[u.hdr.shstrndx]) == S.NameOf(s.cfg.tab, t.shdrs[t.hdr.shstrndx]) by {
      assert s.cfg == t.cfg by { MovesConfig(s, t); }
    }
    ClearedStep(s, t, u, 0, pages * t.cfg.pageSize, startOffset);
  }

  lemma MovesConfig(s: State, t: State)
    requires Moves(s, t, 0)
    ensures s.cfg == t.cfg
  {
  }

  lemma ClearedParts(s: State, t: State, shift: nat, startOffset: nat)
    requires Cleared(s, t, shift, startOffset)
    ensures WellFormed(t) && Sizes(t) && Counts(t) && Requested(t) && UnderWay(s, t, shift)
    ensures t.cfg.cls.EhdrSize() <= startOffset <= t.fileSize <= t.cfg.maxSize <= |t.contents|
  {
    hide S.Sortable;
  }

  lemma RewritableSizes(s: State)
    requires Rewritable(s)
    ensures |s.phdrs| < 0xFFFF && Counts(s) && Sizes(s) && TotalAll(s.cfg.cls, s.replaced) <= 0x4000_0000
  {
    hide S.Sortable;
  }

  // ---------------------------------------------------------------- why a rewrite fails

  /** If the last section of a sorted table is being replaced, none begins behind all replaced ones. */
  lemma NothingFollowsExplained(s: State, t: State)
    requires Rewritable(s) && UnderWay(s, t, 0) && t.replaced == s.replaced
    requires S.SortedByOffset(t.shdrs) && LastKeyed(t, |t.shdrs|) + 1 >= |t.shdrs|
    ensures Explained(s, NothingFollows)
  {
    hide UnderWay, Moves, WellFormed, S.SortedByOffset, LastKeyed, DynamicReady;
    UnderWayMoves(s, t, 0);
    UnderWayParts(s, t, 0);
    var m := LastSection(t);
    SectionsCorrespond(s, t, m);
    forall n | s.Has(n) ensures s.Sec(n).offset <= s.Sec(m).offset {
      SectionsCorrespond(s, t, n);
    }
  }

  lemma SectionsCorrespond(s: State, t: State, n: Name)
    requires Moves(s, t, 0)
    ensures s.Has(n) <==> t.Has(n)
    ensures s.Has(n) ==> t.Sec(n).offset == s.Sec(n).offset && t.Sec(n).stype == s.Sec(n).stype
  {
    hide SameReferences;
  }

  lemma LastSection(t: State) returns (m: Name)
    requires WellFormed(t) && Requested(t) && t.replaced != []
    requires S.SortedByOffset(t.shdrs) && LastKeyed(t, |t.shdrs|) + 1 >= |t.shdrs|
    ensures Keyed(t.replaced, m) && t.Has(m) && forall n :: t.Has(n) ==> t.Sec(n).offset <= t.Sec(m).offset
  {
    hide Requested, SectionsInFile, SectionsApart, TableApart;
    var last := LastKeyed(t, |t.shdrs|);
    LastKeyedPositive(t);
    LastIsKeyed(t, |t.shdrs|);
    m := S.NameOf(t.cfg.tab, t.shdrs[last]);
    S.FindOwnName(t.cfg.tab, t.shdrs, last);
  }

  lemma {:induction false} LastIsKeyed(s: State, k: nat)
    requires k <= |s.shdrs| && LastKeyed(s, k) != 0
    ensures Keyed(s.replaced, S.NameOf(s.cfg.tab, s.shdrs[LastKeyed(s, k)]))
  {
    if k > 1 && !Keyed(s.replaced, S.NameOf(s.cfg.tab, s.shdrs[k - 1])) {
      LastIsKeyed(s, k - 1);
    }
  }

  /** The section at which the room for the replacements ends, in the input file. */
  lemma AnchorInInput(s: State, t: State, u: State, startOffset: nat, startAddr: nat) returns (n: Name)
    requires UnderWay(s, t, 0) && PulledIn(t, u, startOffset, startAddr)
    ensures s.Has(n) && s.Sec(n).offset == startOffset && s.Sec(n).addr == startAddr
  {
    hide Extended, WellFormed, Requested, Keeps, SameReferences, S.NameOf;
    n :| t.Has(n) && t.Sec(n).offset == startOffset && t.Sec(n).addr == startAddr;
    assert s.Has(n);
    assert Core(t.Sec(n)) == Core(s.Sec(n));
  }

  /** What is being replaced once the sections in the way have been pulled in. */
  lemma ChosenIntro(s: State, t: State, u: State, startOffset: nat, startAddr: nat, stop: nat)
    requires UnderWay(s, t, 0) && t.replaced == s.replaced && PulledIn(t, u, startOffset, startAddr) && UnderWay(s, u, 0)
    requires t.fileSize == s.fileSize && |t.shdrs| == |s.shdrs| && S.SortedByOffset(t.shdrs)
    requires StopsAt(t, u.replaced, stop) && startOffset == t.shdrs[stop].offset
    ensures Chosen(s, u.replaced, startOffset, startAddr)
  {
    hide Extended, WellFormed, Requested, Keeps, SameReferences, S.NameOf, TotalAll, StopsAt, S.SortedByOffset, Stopper, S.Has, S.Sec;
    var anchor := AnchorInInput(s, t, u, startOffset, startAddr);
    forall n | s.Has(n) && !Keyed(u.replaced, n) ensures s.Sec(n).offset >= startOffset {
      SectionsCorrespond(s, t, n);
    }
    forall n, m | Keyed(u.replaced, n) && !Keyed(s.replaced, n) && s.Has(n) && s.Has(m)
                  && ((s.Sec(m).stype == 1 && m != INTERP) || m == DYNSTR)
      ensures s.Sec(n).offset <= s.Sec(m).offset
    {
      SectionsCorrespond(s, t, n);
      SectionsCorrespond(s, t, m);
      PulledInFromFront(t, u.replaced, stop, n, m);
    }
    forall m | s.Has(m) && s.Sec(m).stype == 1 && m != INTERP ensures startOffset <= s.Sec(m).offset {
      SectionsCorrespond(s, t, m);
      CodeIsBehind(t, u.replaced, stop, m);
    }
  }

  /** What is pulled in comes before all code and data, and not behind .dynstr. */
  lemma PulledInFromFront(t: State, rs: seq<Replacement>, stop: nat, n: Name, m: Name)
    requires S.SortedByOffset(t.shdrs) && StopsAt(t, rs, stop) && Keyed(rs, n) && !Keyed(t.replaced, n) && t.Has(n) && t.Has(m)
    requires (t.Sec(m).stype == 1 && m != INTERP) || m == DYNSTR
    ensures t.Sec(n).offset <= t.Sec(m).offset
  {
    hide S.NameOf;
    var i, j := S.Find(t.cfg.tab, t.shdrs, n), S.Find(t.cfg.tab, t.shdrs, m);
    assert 1 <= i < stop && 1 <= j < |t.shdrs|;
    assert j + 1 < |t.shdrs| ==> Stopper(t, j) || Stopper(t, j + 1);
    assert i <= j;
  }

  lemma CodeIsBehind(t: State, rs: seq<Replacement>, stop: nat, m: Name)
    requires S.SortedByOffset(t.shdrs) && StopsAt(t, rs, stop) && t.Has(m) && t.Sec(m).stype == 1 && m != INTERP
    ensures t.shdrs[stop].offset <= t.Sec(m).offset
  {
    hide S.NameOf;
    var j := S.Find(t.cfg.tab, t.shdrs, m);
    assert Stopper(t, j);
    assert stop <= j;
  }

  /** Code and data (PROGBITS, 1) that were not asked for stay where they are in memory, and only move in the file with everything else. */
  lemma CodeStays(s: State, t: State, rs: seq<Replacement>, shift: nat, a: nat, b: nat, startAddr: nat, startOffset: nat,
                  from: nat, fromAddr: nat, n: Name)
    requires Rewritten(s, t, rs, shift, a, b, startAddr, startOffset) && Chosen(s, rs, from, fromAddr)
    requires s.Has(n) && !Keyed(s.replaced, n) && s.Sec(n).stype == 1 && n != INTERP
    ensures t.Has(n) && t.Sec(n).addr == s.Sec(n).addr && t.Sec(n).size == s.Sec(n).size && t.Sec(n).stype == 1
    ensures t.Sec(n).offset == s.Sec(n).offset + shift && from <= s.Sec(n).offset
  {
    hide WellFormed, TablesInFile, ContentsPreserved, HeadersSay, ReplacedLieIn, SameReferences, TotalAll;
    assert Core(t.Sec(n)) == Core(s.Sec(n));
  }

  /** The failures before any room is made. */
  lemma FailsEarly(s: State, r: Ending, rs: seq<Replacement>, startOffset: nat, startAddr: nat)
    requires Sizes(s) && Chosen(s, rs, startOffset, startAddr)
    requires r.NotCongruent? <==> startAddr % s.cfg.pageSize != startOffset % s.cfg.pageSize
    requires r.NotCongruent? || (r.TooLarge? && SizeWithTable(s, startOffset) > s.cfg.maxSize)
    ensures FailsExactly(s, r, rs, startOffset, startAddr)
    ensures r.TooLarge? ==> Explained(s, r)
  {
    hide Chosen, RoundUp, TotalAll;
  }

  /** The failures when room is made. */
  lemma FailsForRoom(s: State, r: Ending, rs: seq<Replacement>, startOffset: nat, startAddr: nat)
    requires Sizes(s) && Chosen(s, rs, startOffset, startAddr)
    requires startAddr % s.cfg.pageSize == startOffset % s.cfg.pageSize && !r.NotCongruent?
    requires SizeWithTable(s, startOffset) <= s.cfg.maxSize
    requires var missing, front := MissingSpace(s, rs, startOffset), FrontAddress(s.cfg, startOffset, startAddr);
      && (r.AddressUnderrun? <==> front < missing)
      && (r.TooLarge? <==> missing <= front && SizeWithTable(s, startOffset) + missing > s.cfg.maxSize)
    ensures FailsExactly(s, r, rs, startOffset, startAddr)
    ensures r.TooLarge? || r.AddressUnderrun? || r.Done? ==> Explained(s, r)
  {
    hide Chosen, MissingSpace, SizeWithTable, FrontAddress;
  }

  /** A section that does not begin on its page. */
  lemma NotCongruentExplained(s: State, rs: seq<Replacement>, startOffset: nat, startAddr: nat)
    requires Sizes(s) && Chosen(s, rs, startOffset, startAddr)
    requires startAddr % s.cfg.pageSize != startOffset % s.cfg.pageSize
    ensures Explained(s, NotCongruent)
  {
    hide TotalAll;
  }

  lemma MissingExplained(s: State, t: State, u: State, slots: seq<Slot>, shift: nat, cur0: nat, end: nat)
    requires Rewritable(s) && UnderWay(s, t, shift) && Placeable(t) && |slots| == |t.replaced|
    requires WrittenOut(t, u, slots, cur0, end) && HeadersReplaced(t, u, slots) && FreeRegion(t, cur0, end)
    requires u.Has(DYNAMIC) && u.InBuffer(DYNAMIC) && PatchDynamic(u, u.Content(DYNAMIC)).None?
    ensures Explained(s, MissingSection)
  {
    hide HasNull, PatchDynamic, S.Sortable, WrittenOut, Placeable, Keeps, SameReferences;
    assert t.Has(DYNAMIC) && s.Has(DYNAMIC);
    WrittenContent(s, t, u, slots, shift, cur0, end, DYNAMIC);
    forall n ensures s.Has(n) <==> u.Has(n) {
      assert s.Has(n) <==> t.Has(n);
    }
    MissingDependsOnNames(s, u, Current(s, DYNAMIC));
  }
}
