/** The program headers of a rewritten file, field by field. */
module Segments {
  import opened ElfTypes
  import opened Image
  import opened Layout
  import opened Patching
  import opened Rewriting
  import S = Sections

  /** The segment `q` covers `size` bytes at `offset`, at the address `addr`. */
  predicate Covers(q: Phdr, offset: nat, addr: nat, size: nat) {
    q.offset == offset && q.vaddr == addr && q.paddr == addr && q.filesz == size && q.memsz == size
  }

  /** The segment `q` covers the section called `n`. */
  predicate CoversSection(q: Phdr, t: State, n: Name) {
    t.Has(n) && Covers(q, t.Sec(n).offset, t.Sec(n).addr, t.Sec(n).size)
  }

  /** What has become of the segment `p`: PT_INTERP (3) and PT_DYNAMIC (2) cover their sections if these are in `rs`; the first PT_PHDR (6) covers the table of the program headers, which is `n` entries long. */
  predicate Became(t: State, rs: seq<Replacement>, p: Phdr, q: Phdr, first: bool, tableAddr: nat, n: nat) {
    && q.ptype == p.ptype && q.flags == p.flags && q.align == p.align
    && if p.ptype == 3 && Keyed(rs, INTERP) then CoversSection(q, t, INTERP)
       else if p.ptype == 2 && Keyed(rs, DYNAMIC) then CoversSection(q, t, DYNAMIC)
       else if p.ptype == 6 && first then Covers(q, t.hdr.phoff, tableAddr, n * (if t.cfg.cls.Elf32? then 32 else 56))
       else q == p
  }

  /** The segment `p` may stand in front of `q`. */
  predicate MayPrecede(p: Phdr, q: Phdr) {
    p.ptype == 6 || (q.ptype != 6 && p.paddr <= q.paddr)
  }

  /** PT_PHDR (6) comes first, and the others by physical address. */
  predicate InOrder(ps: seq<Phdr>) {
    forall i, j :: 0 <= i < j < |ps| ==> MayPrecede(ps[i], ps[j])
  }

  lemma NothingInOrder()
    ensures InOrder([])
  {
  }

  lemma InsertKeepsInOrder(r: seq<Phdr>, pos: nat, x: Phdr)
    requires pos <= |r| && InOrder(r)
    requires pos > 0 ==> MayPrecede(r[pos - 1], x)
    requires pos < |r| ==> MayPrecede(x, r[pos])
    ensures InOrder(S.Insert(r, pos, x))
  {
    var q := S.Insert(r, pos, x);
    forall i, j | 0 <= i < j < |q| ensures MayPrecede(q[i], q[j]) {
      assert q[i] == if i < pos then r[i] else if i == pos then x else r[i - 1];
      assert q[j] == if j < pos then r[j] else if j == pos then x else r[j - 1];
    }
  }

  /** No segment before `i` is for the program header table. */
  predicate FirstTable(ps: seq<Phdr>, i: nat) {
    forall j :: 0 <= j < i && j < |ps| ==> ps[j].ptype != 6
  }

  /** The segments of `t` are, in some order, what has become of those in `ps`. */
  ghost predicate SegmentsSay(t: State, rs: seq<Replacement>, ps: seq<Phdr>, tableAddr: nat) {
    exists qs: seq<Phdr> ::
      && multiset(t.phdrs) == multiset(qs) && |qs| == |ps|
      && forall i :: 0 <= i < |ps| ==> Became(t, rs, ps[i], qs[i], FirstTable(ps, i), tableAddr, |ps|)
  }

  /** The segment `p`, `shift` further on in the file; an alignment that does not fit any more becomes the page size. */
  predicate ShiftedSegment(cfg: Config, p: Phdr, q: Phdr, shift: nat) {
    && q.ptype == p.ptype && q.offset == p.offset + shift && q.vaddr == p.vaddr && q.paddr == p.paddr
    && q.filesz == p.filesz && q.memsz == p.memsz && q.flags == p.flags
    && (p.align == 0 || (PowerOfTwo(p.align) && p.align < (if cfg.cls.Elf32? then 0x1_0000_0000 else 0x1_0000_0000_0000_0000)) ==>
          q.align == if p.align == 0 || (p.vaddr - (p.offset + shift)) % p.align == 0 then p.align else cfg.pageSize)
  }

  /** The segment for what is written to `size` bytes at `offset`: PT_LOAD (1), readable and writable (4 and 2), on a page. */
  predicate Added(cfg: Config, q: Phdr, offset: nat, addr: nat, size: nat) {
    q.ptype == 1 && Covers(q, offset, addr, size) && q.flags == 6 && q.align == cfg.pageSize
  }

  /** The segments of an executable that has been shifted: those it had, and one for its new front. */
  predicate ShiftedSay(cfg: Config, ps: seq<Phdr>, qs: seq<Phdr>, shift: nat, firstPage: nat) {
    if shift == 0 then qs == ps
    else
      && |qs| == |ps| + 1
      && (forall i :: 0 <= i < |ps| ==> ShiftedSegment(cfg, ps[i], qs[i], shift))
      && Added(cfg, qs[|ps|], 0, firstPage, shift)
  }

  /** The segments of the rewritten executable `t`. */
  ghost predicate ExecutableSegments(s: State, t: State, rs: seq<Replacement>, shift: nat, firstPage: nat, tableAddr: nat) {
    exists ps :: ShiftedSay(s.cfg, s.phdrs, ps, shift, firstPage) && SegmentsSay(t, rs, ps, tableAddr)
  }

  /** The segments of the rewritten library `t`, one of which covers what has been added. */
  ghost predicate LibrarySegments(s: State, t: State, offset: nat, addr: nat, size: nat) {
    exists q :: Added(s.cfg, q, offset, addr, size) && SegmentsSay(t, s.replaced, s.phdrs + [q], addr)
  }

  // ---------------------------------------------------------------- proofs

  lemma SegmentsAreSaid(t: State, rs: seq<Replacement>, ps: seq<Phdr>, tableAddr: nat)
    requires SegmentsFollow(t, rs, ps, tableAddr)
    requires (Keyed(rs, INTERP) ==> t.Has(INTERP)) && (Keyed(rs, DYNAMIC) ==> t.Has(DYNAMIC))
    ensures SegmentsSay(t, rs, ps, tableAddr)
  {
    var fs := AllFollowed(t, rs, ps);
    var qs := WithTableSegment(fs, t.hdr.phoff, tableAddr, |ps| * t.cfg.cls.PhdrSize());
    forall i | 0 <= i < |ps| ensures Became(t, rs, ps[i], qs[i], FirstTable(ps, i), tableAddr, |ps|) {
      SegmentIsSaid(t, rs, ps, fs, qs, tableAddr, i);
    }
  }

  lemma SegmentIsSaid(t: State, rs: seq<Replacement>, ps: seq<Phdr>, fs: seq<Phdr>, qs: seq<Phdr>, tableAddr: nat, i: nat)
    requires (Keyed(rs, INTERP) ==> t.Has(INTERP)) && (Keyed(rs, DYNAMIC) ==> t.Has(DYNAMIC))
    requires fs == AllFollowed(t, rs, ps) && i < |ps|
    requires qs == WithTableSegment(fs, t.hdr.phoff, tableAddr, |ps| * t.cfg.cls.PhdrSize())
    ensures Became(t, rs, ps[i], qs[i], FirstTable(ps, i), tableAddr, |ps|)
  {
    hide Keyed, AllFollowed;
    assert fs[i] == Followed(t, rs, ps[i]);
    assert forall j :: 0 <= j < |ps| ==> fs[j] == Followed(t, rs, ps[j]);
    assert forall j :: 0 <= j < |ps| ==> fs[j].ptype == ps[j].ptype;
    var k := TableSegment(fs);
    if i == k {
      assert FirstTable(ps, i);
    } else if i > k {
      assert !FirstTable(ps, i);
    }
  }

  lemma ShiftedIsSaid(cfg: Config, ps: seq<Phdr>, shift: nat, firstPage: nat)
    requires 0 < cfg.pageSize
    ensures ShiftedSay(cfg, ps, ShiftedSegments(cfg, ps, shift, firstPage), shift, firstPage)
  {
    hide ShiftedPhdr, ShiftedSegment;
    forall i | 0 <= i < |ps| ensures ShiftedSegment(cfg, ps[i], ShiftedPhdr(cfg, ps[i], shift), shift) {
      ShiftedOne(cfg, ps[i], shift);
    }
  }

  lemma ShiftedOne(cfg: Config, p: Phdr, shift: nat)
    requires 0 < cfg.pageSize
    ensures ShiftedSegment(cfg, p, ShiftedPhdr(cfg, p, shift), shift)
  {
    hide PowerOfTwo, ElfClass.Wrap;
    if p.align != 0 && PowerOfTwo(p.align) && p.align < cfg.cls.AddrModulus() {
      WrapResidue(cfg.cls, p.vaddr as int - (p.offset + shift), p.align);
    }
  }

  lemma ExecutableIsSaid(s: State, t: State, rs: seq<Replacement>, shift: nat, firstPage: nat, tableAddr: nat)
    requires 0 < s.cfg.pageSize && SegmentsFollow(t, rs, ShiftedSegments(s.cfg, s.phdrs, shift, firstPage), tableAddr)
    requires (Keyed(rs, INTERP) ==> t.Has(INTERP)) && (Keyed(rs, DYNAMIC) ==> t.Has(DYNAMIC))
    ensures ExecutableSegments(s, t, rs, shift, firstPage, tableAddr)
  {
    hide SegmentsFollow, SegmentsSay, ShiftedSay, ShiftedSegments, Keyed;
    ShiftedIsSaid(s.cfg, s.phdrs, shift, firstPage);
    SegmentsAreSaid(t, rs, ShiftedSegments(s.cfg, s.phdrs, shift, firstPage), tableAddr);
  }

  lemma LibraryIsSaid(s: State, t: State, offset: nat, addr: nat, size: nat)
    requires SegmentsFollow(t, s.replaced, s.phdrs + [NewSegment(s.cfg, offset, addr, size)], addr)
    requires (Keyed(s.replaced, INTERP) ==> t.Has(INTERP)) && (Keyed(s.replaced, DYNAMIC) ==> t.Has(DYNAMIC))
    ensures LibrarySegments(s, t, offset, addr, size)
  {
    hide SegmentsFollow, SegmentsSay, Keyed;
    var q := NewSegment(s.cfg, offset, addr, size);
    assert Added(s.cfg, q, offset, addr, size);
    SegmentsAreSaid(t, s.replaced, s.phdrs + [q], addr);
  }

  /** Sections that have been replaced are still there. */
  lemma ReplacedExist(s: State, t: State, rs: seq<Replacement>, shift: nat, a: nat, b: nat, startAddr: nat, startOffset: nat)
    requires Rewritten(s, t, rs, shift, a, b, startAddr, startOffset)
    ensures (Keyed(rs, INTERP) ==> t.Has(INTERP)) && (Keyed(rs, DYNAMIC) ==> t.Has(DYNAMIC))
  {
    hide WellFormed, TablesInFile, ContentsPreserved, ReferencesPreserved, OthersMove, AddressAt;
    assert Keyed(rs, INTERP) ==> t.Backed(INTERP);
    assert Keyed(rs, DYNAMIC) ==> t.Backed(DYNAMIC);
  }
}
