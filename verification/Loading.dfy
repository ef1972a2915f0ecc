/** What the loader makes of a rewritten executable. */
module Loading {
  import opened ElfTypes
  import opened Rounding
  import opened Image
  import opened Layout
  import opened Patching
  import opened Rewriting

  /** A segment that a file may have: its alignment is a power of two, or none, and System V gABI, chapter 5, lets it be loaded. */
  ghost predicate Proper(cfg: Config, p: Phdr) {
    (p.align == 0 || PowerOfTwo(p.align)) && p.align < cfg.cls.AddrModulus() && Loadable(p)
  }

  /** The byte of the file at `x` is loaded at `addr`. */
  ghost predicate LoadedAt(phdrs: seq<Phdr>, x: nat, addr: nat) {
    exists p :: p in phdrs && p.ptype == PT_LOAD && p.offset <= x < p.offset + p.filesz && p.vaddr + (x - p.offset) == addr
  }

  /** The file is loaded at `front` from its beginning up to `n`, in one segment. */
  ghost predicate FrontLoaded(phdrs: seq<Phdr>, n: nat, front: nat) {
    exists p :: p in phdrs && p.ptype == PT_LOAD && p.offset == 0 && p.vaddr == front && n <= p.filesz
  }

  /** Bringing the segments up to date changes none that is loaded. */
  lemma LoadsStay(t: State, rs: seq<Replacement>, ps: seq<Phdr>, phdrAddress: nat, p: Phdr)
    requires SegmentsFollow(t, rs, ps, phdrAddress) && p.ptype == PT_LOAD
    ensures p in t.phdrs <==> p in ps
  {
    var qs := AllFollowed(t, rs, ps);
    var ws := WithTableSegment(qs, t.hdr.phoff, phdrAddress, |ps| * t.cfg.cls.PhdrSize());
    assert p in t.phdrs <==> p in multiset(t.phdrs);
    assert p in ws <==> p in multiset(ws);
    forall i | 0 <= i < |ps| ensures ws[i] == p <==> ps[i] == p {
      assert qs[i] == Followed(t, rs, ps[i]);
    }
    if p in ps {
      var i :| 0 <= i < |ps| && ps[i] == p;
      assert ws[i] == p;
    }
  }

  /** After the rewrite of an executable all segments can be loaded, if they could before. */
  lemma SegmentsStayLoadable(s: State, t: State, rs: seq<Replacement>, shift: nat, firstPage: nat, phdrAddress: nat)
    requires PowerOfTwo(s.cfg.pageSize) && shift % s.cfg.pageSize == 0 && firstPage % s.cfg.pageSize == 0
    requires SegmentsFollow(t, rs, ShiftedSegments(s.cfg, s.phdrs, shift, firstPage), phdrAddress)
    requires forall p :: p in s.phdrs && p.ptype == PT_LOAD ==> Proper(s.cfg, p)
    ensures forall p :: p in t.phdrs && p.ptype == PT_LOAD ==> Loadable(p)
  {
    hide PowerOfTwo, Loadable, SegmentsFollow, ShiftedPhdr;
    var pages := Pages(shift, s.cfg.pageSize);
    var ps := ShiftedSegments(s.cfg, s.phdrs, shift, firstPage);
    forall p | p in t.phdrs && p.ptype == PT_LOAD ensures Loadable(p) {
      LoadsStay(t, rs, ps, phdrAddress, p);
      var i :| 0 <= i < |ps| && ps[i] == p;
      if i < |s.phdrs| {
        if shift > 0 {
          ShiftedKind(s.cfg, s.phdrs[i], shift);
          ShiftKeepsLoadable(s.cfg, s.phdrs[i], pages);
        }
      } else {
        NewSegmentLoadable(s.cfg, firstPage, shift);
      }
    }
  }

  lemma Pages(n: nat, page: nat) returns (pages: nat)
    requires page > 0 && n % page == 0
    ensures pages * page == n
  {
    pages := n / page;
    if n > 0 {
      WholePages(n, page);
    } else {
      assert pages == 0;
    }
  }

  lemma ShiftedKind(cfg: Config, p: Phdr, shift: nat)
    requires cfg.pageSize > 0
    ensures var q := ShiftedPhdr(cfg, p, shift);
      q.ptype == p.ptype && q.offset == p.offset + shift && q.vaddr == p.vaddr && q.filesz == p.filesz
  {
  }

  /** The headers and the replaced sections at the front of a rewritten executable are loaded, in the segment that was added and in the one that began the file before. */
  lemma FrontIsLoaded(s: State, t: State, rs: seq<Replacement>, shift: nat, firstPage: nat, startOffset: nat, phdrAddress: nat, x: nat)
    requires s.cfg.pageSize > 0 && SegmentsFollow(t, rs, ShiftedSegments(s.cfg, s.phdrs, shift, firstPage), phdrAddress)
    requires x < startOffset + shift && (x < shift || FrontLoaded(s.phdrs, startOffset, firstPage + shift))
    ensures LoadedAt(t.phdrs, x, firstPage + x)
  {
    hide SegmentsFollow, ShiftedPhdr;
    var ps := ShiftedSegments(s.cfg, s.phdrs, shift, firstPage);
    if x < shift {
      var p := NewSegment(s.cfg, 0, firstPage, shift);
      assert ps[|ps| - 1] == p;
      LoadsStay(t, rs, ps, phdrAddress, p);
    } else {
      var p :| p in s.phdrs && p.ptype == PT_LOAD && p.offset == 0 && p.vaddr == firstPage + shift && startOffset <= p.filesz;
      var i :| 0 <= i < |s.phdrs| && s.phdrs[i] == p;
      ShiftedKind(s.cfg, p, shift);
      LoadsStay(t, rs, ps, phdrAddress, ps[i]);
    }
  }

  /** Every byte of a replaced section is loaded where the header of the section says. */
  lemma ReplacedAreLoaded(s: State, t: State, rs: seq<Replacement>, shift: nat, room: nat, roomEnd: nat, firstPage: nat, startOffset: nat,
                          phdrAddress: nat, n: Name, k: nat)
    requires Rewritten(s, t, rs, shift, room, roomEnd, firstPage, 0) && roomEnd <= startOffset + shift && s.cfg.pageSize > 0
    requires SegmentsFollow(t, rs, ShiftedSegments(s.cfg, s.phdrs, shift, firstPage), phdrAddress)
    requires FrontLoaded(s.phdrs, startOffset, firstPage + shift)
    requires Keyed(rs, n) && k < |Data(rs, n)|
    ensures t.Has(n) && k < t.Sec(n).size && t.Sec(n).addr == t.cfg.cls.Wrap(firstPage + t.Sec(n).offset)
    ensures LoadedAt(t.phdrs, t.Sec(n).offset + k, firstPage + t.Sec(n).offset + k)
  {
    hide SegmentsFollow, WellFormed, TablesInFile, ContentsPreserved, ReferencesPreserved, OthersMove, FrontLoaded, ShiftedSegments, LoadedAt,
         Immovable;
    FrontIsLoaded(s, t, rs, shift, firstPage, startOffset, phdrAddress, t.Sec(n).offset + k);
  }
}
