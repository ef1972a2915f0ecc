/** What the steps of a rewrite do to the file, on values, and what they preserve. */
module Layout {
  import opened Bytes
  import opened ElfTypes
  import opened Rounding
  import opened Image
  import S = Sections

  // ---------------------------------------------------------------- room

  /** The space that the first `k` replacements take up, each rounded up to the section alignment. */
  function Total(cls: ElfClass, rs: seq<Replacement>, k: nat): nat
    requires k <= |rs|
  {
    if k == 0 then 0 else Total(cls, rs, k - 1) + cls.Align(|rs[k - 1].data|)
  }

  function TotalAll(cls: ElfClass, rs: seq<Replacement>): nat {
    Total(cls, rs, |rs|)
  }

  /** The replacements are small enough for 32-bit rounding. */
  predicate Small(rs: seq<Replacement>) {
    forall i :: 0 <= i < |rs| ==> |rs[i].data| <= 0x8000_0000
  }

  lemma RoundedCovers(cls: ElfClass, n: nat)
    requires n <= 0x8000_0000
    ensures n <= cls.Align(n) < n + cls.OffSize()
    ensures cls.Align(n) % cls.OffSize() == 0
  {
    assert PowerOfTwo(4) && PowerOfTwo(8);
    RoundUpIsCeiling(n, cls.OffSize());
  }

  lemma {:induction false} TotalMonotone(cls: ElfClass, rs: seq<Replacement>, j: nat, k: nat)
    requires Small(rs) && j < k <= |rs|
    ensures Total(cls, rs, j) + |rs[j].data| <= Total(cls, rs, k)
    decreases k
  {
    RoundedCovers(cls, |rs[k - 1].data|);
    if j < k - 1 {
      TotalMonotone(cls, rs, j, k - 1);
    }
  }

  lemma {:induction false} TotalSplit(cls: ElfClass, rs: seq<Replacement>, k: nat)
    requires 1 <= k <= |rs|
    ensures Total(cls, rs, k) == cls.Align(|rs[0].data|) + Total(cls, rs[1..], k - 1)
  {
    if k > 1 {
      TotalSplit(cls, rs, k - 1);
      assert rs[1..][k - 2] == rs[k - 1];
    }
  }

  /** A new key adds its own rounded size to the total. */
  lemma {:induction false} TotalOfPut(cls: ElfClass, rs: seq<Replacement>, n: Name, d: seq<byte>)
    requires Ascending(rs) && !Keyed(rs, n)
    ensures |Put(rs, n, d)| == |rs| + 1
    ensures TotalAll(cls, Put(rs, n, d)) == TotalAll(cls, rs) + cls.Align(|d|)
    decreases |rs|
  {
    hide ElfClass.Align;
    var r := Put(rs, n, d);
    FirstOfTotal(cls, r);
    if rs == [] {
      assert r[1..] == [];
    } else if Less(n, rs[0].name) {
      assert r[1..] == rs;
    } else {
      FirstOfTotal(cls, rs);
      TotalOfPut(cls, rs[1..], n, d);
      assert r[1..] == Put(rs[1..], n, d);
    }
  }

  lemma FirstOfTotal(cls: ElfClass, rs: seq<Replacement>)
    requires rs != []
    ensures TotalAll(cls, rs) == cls.Align(|rs[0].data|) + TotalAll(cls, rs[1..])
  {
    hide ElfClass.Align;
    TotalSplit(cls, rs, |rs|);
  }

  // ---------------------------------------------------------------- growing and shifting

  function Grown(s: State, newSize: nat): (r: State)
    requires s.fileSize <= |s.contents| && newSize <= |s.contents|
  {
    if newSize <= s.fileSize then s
    else s.(contents := Splice(s.contents, s.fileSize, Repeat(0, newSize - s.fileSize)), fileSize := newSize)
  }

  function ShiftedShdr(sh: Shdr, shift: nat): Shdr {
    sh.(offset := sh.offset + shift)
  }

  function ShiftedPhdr(cfg: Config, p: Phdr, shift: nat): Phdr
    requires cfg.pageSize > 0
  {
    var q := p.(offset := p.offset + shift);
    if q.align != 0 && cfg.cls.Wrap(q.vaddr - q.offset) % q.align != 0
    then q.(align := cfg.pageSize)
    else q
  }

  /** The segment that maps the headers and the replaced sections. */
  function NewSegment(cfg: Config, offset: nat, addr: nat, size: nat): Phdr {
    Phdr(PT_LOAD, offset, addr, addr, size, size, PF_R_PF_W, cfg.pageSize)
  }

  /** The bytes of a file moved up by `shift`, with room for the ELF header left at the front. */
  function ShiftedContents(c: seq<byte>, oldSize: nat, shift: nat, ehdrSize: nat): (r: seq<byte>)
    requires oldSize + shift <= |c| && ehdrSize <= shift
    ensures |r| == |c|
  {
    Splice(Splice(c, shift, c[..oldSize]), ehdrSize, Repeat(0, shift - ehdrSize))
  }

  /** All section headers but the first, moved. */
  function ShiftedShdrs(ss: seq<Shdr>, shift: nat): (r: seq<Shdr>)
    ensures |r| == |ss|
    ensures |ss| > 0 ==> r[0] == ss[0]
    ensures forall i :: 1 <= i < |ss| ==> r[i] == ShiftedShdr(ss[i], shift)
  {
    seq(|ss|, i requires 0 <= i < |ss| => if i == 0 then ss[0] else ShiftedShdr(ss[i], shift))
  }

  function ShiftedPhdrs(cfg: Config, ps: seq<Phdr>, shift: nat): (r: seq<Phdr>)
    requires cfg.pageSize > 0
    ensures |r| == |ps|
    ensures forall i :: 0 <= i < |ps| ==> r[i] == ShiftedPhdr(cfg, ps[i], shift)
  {
    seq(|ps|, i requires 0 <= i < |ps| => ShiftedPhdr(cfg, ps[i], shift))
  }

  /** The segments after a shift, of which there is one more if anything was shifted. */
  function ShiftedSegments(cfg: Config, ps: seq<Phdr>, shift: nat, startPage: nat): seq<Phdr>
    requires cfg.pageSize > 0
  {
    if shift == 0 then ps else ShiftedPhdrs(cfg, ps, shift) + [NewSegment(cfg, 0, startPage, shift)]
  }

  /** `shiftFile`. */
  function Shifted(s: State, extraPages: nat, startPage: nat): State
    requires |s.shdrs| >= 1 && s.cfg.pageSize > 0
    requires s.fileSize + extraPages * s.cfg.pageSize <= |s.contents|
    requires s.cfg.cls.EhdrSize() <= extraPages * s.cfg.pageSize
  {
    var shift := extraPages * s.cfg.pageSize;
    var g := Grown(s, s.fileSize + shift);
    g.(contents := ShiftedContents(g.contents, s.fileSize, shift, s.cfg.cls.EhdrSize()),
       hdr := s.hdr.(phoff := s.cfg.cls.EhdrSize(), shoff := s.hdr.shoff + shift, phnum := s.hdr.phnum + 1),
       shdrs := ShiftedShdrs(s.shdrs, shift),
       phdrs := ShiftedPhdrs(s.cfg, s.phdrs, shift) + [NewSegment(s.cfg, 0, startPage, shift)])
  }

  /** Shifting moves every byte of the file by the shift. */
  lemma ShiftMovesBytes(c: seq<byte>, oldSize: nat, shift: nat, ehdrSize: nat, a: nat, n: nat)
    requires oldSize + shift <= |c| && ehdrSize <= shift && a + n <= oldSize
    ensures Slice(ShiftedContents(c, oldSize, shift, ehdrSize), a + shift, n) == Slice(c, a, n)
  {
    var c1 := Splice(c, shift, c[..oldSize]);
    SpliceFrame(c1, ehdrSize, Repeat(0, shift - ehdrSize), a + shift, n);
    assert Slice(c1, a + shift, n) == Slice(c, a, n);
  }

  /** Growing the file leaves what was in it. */
  lemma GrownKeeps(s: State, newSize: nat, a: nat, n: nat)
    requires s.fileSize <= |s.contents| && newSize <= |s.contents| && a + n <= s.fileSize
    ensures Slice(Grown(s, newSize).contents, a, n) == Slice(s.contents, a, n)
  {
    if newSize > s.fileSize {
      SpliceFrame(s.contents, s.fileSize, Repeat(0, newSize - s.fileSize), a, n);
    }
  }

  // ---------------------------------------------------------------- segments stay loadable

  /** System V gABI, chapter 5, "Program Header": loadable addresses are congruent to file offsets modulo the alignment. */
  predicate Loadable(p: Phdr) {
    p.align != 0 ==> (p.vaddr - p.offset) % p.align == 0
  }

  /** Wrap-around does not change the residue modulo an alignment. */
  lemma WrapResidue(cls: ElfClass, x: int, a: nat)
    requires PowerOfTwo(a) && a < cls.AddrModulus()
    ensures cls.Wrap(x) % a == x % a
  {
    hide PowerOfTwo;
    ReduceIsMod(x, cls.AddrModulus());
    AddrModulusIsPower(cls);
    PowersDivide(a, cls.AddrModulus());
    ModOfMod(x, cls.AddrModulus(), a);
  }

  /** A distance that is a multiple of `a` stays one when whole pages are taken off, if `a` divides the page size. */
  lemma PagesOff(x: int, pages: nat, page: nat, a: nat)
    requires a > 0 && page > 0 && page % a == 0 && x % a == 0
    ensures (x - pages * page) % a == 0
  {
    DivisorDivides(pages * page, page, a, pages);
    ResidueOfDifference(x, pages * page, a);
  }

  /** Shifting the file by whole pages keeps every segment loadable, changing the alignment where it must. */
  lemma ShiftKeepsLoadable(cfg: Config, p: Phdr, pages: nat)
    requires PowerOfTwo(cfg.pageSize) && (p.align == 0 || PowerOfTwo(p.align)) && p.align < cfg.cls.AddrModulus()
    requires Loadable(p)
    ensures Loadable(ShiftedPhdr(cfg, p, pages * cfg.pageSize))
    ensures var q := ShiftedPhdr(cfg, p, pages * cfg.pageSize);
      q.align == p.align || (q.align == cfg.pageSize && q.align < p.align)
  {
    hide PowerOfTwo, Reduce, ElfClass.Wrap, ElfClass.AddrModulus;
    if p.align != 0 {
      var x, page := p.vaddr - p.offset, cfg.pageSize;
      WrapResidue(cfg.cls, x - pages * page, p.align);
      if p.align <= page {
        PowersDivide(p.align, page);
        PagesOff(x, pages, page, p.align);
      } else {
        PowersDivide(page, p.align);
        ModOfMod(x, p.align, page);
        PagesOff(x, pages, page, page);
      }
    }
  }

  /** The segments after a shift are all loadable, the new one included. */
  lemma ShiftedSegmentsLoadable(cfg: Config, ps: seq<Phdr>, pages: nat, startPage: nat)
    requires PowerOfTwo(cfg.pageSize) && startPage % cfg.pageSize == 0
    requires forall i :: 0 <= i < |ps| ==>
      (ps[i].align == 0 || PowerOfTwo(ps[i].align)) && ps[i].align < cfg.cls.AddrModulus() && Loadable(ps[i])
    ensures forall p :: p in ShiftedSegments(cfg, ps, pages * cfg.pageSize, startPage) ==> Loadable(p)
  {
    hide PowerOfTwo, ShiftedPhdr, Loadable;
    var qs := ShiftedSegments(cfg, ps, pages * cfg.pageSize, startPage);
    forall i | 0 <= i < |qs| ensures Loadable(qs[i]) {
      if i < |ps| {
        ShiftKeepsLoadable(cfg, ps[i], pages);
      } else {
        NewSegmentLoadable(cfg, startPage, pages * cfg.pageSize);
      }
    }
  }

  lemma NewSegmentLoadable(cfg: Config, startPage: nat, size: nat)
    requires cfg.pageSize > 0 && startPage % cfg.pageSize == 0
    ensures Loadable(NewSegment(cfg, 0, startPage, size))
  {
  }

  lemma AddrModulusIsPower(cls: ElfClass)
    ensures PowerOfTwo(cls.AddrModulus())
  {
    Uint32ModulusIsPower();
    if cls.Elf64? {
      Doubled(0x1_0000_0000, 32);
      assert Times(0x1_0000_0000, 32) == 0x1_0000_0000_0000_0000 by {
        assert Times(0x1_0000_0000, 8) == 0x100_0000_0000;
        assert Times(0x1_0000_0000, 16) == 0x1_0000_0000_0000;
        assert Times(0x1_0000_0000, 20) == 0x10_0000_0000_0000;
        assert Times(0x1_0000_0000, 24) == 0x100_0000_0000_0000;
      }
    }
    Pow256Values();
  }

  /** `m` doubled `n` times. */
  function Times(m: nat, n: nat): nat {
    if n == 0 then m else 2 * Times(m, n - 1)
  }

  lemma {:induction false} Doubled(m: nat, n: nat)
    requires PowerOfTwo(m)
    ensures PowerOfTwo(Times(m, n)) && Times(m, n) >= 1
  {
    if n > 0 {
      Doubled(m, n - 1);
      TwiceAPower(Times(m, n - 1));
    }
  }

  lemma TwiceAPower(k: nat)
    requires PowerOfTwo(k)
    ensures PowerOfTwo(2 * k)
  {
  }

  // ---------------------------------------------------------------- writing the replaced sections

  /** Every replacement is for a section of the file whose range lies in the buffer. */
  predicate Placeable(s: State) {
    && S.DistinctNames(s.cfg.tab, s.shdrs)
    && Ascending(s.replaced) && Small(s.replaced)
    && forall j :: 0 <= j < |s.replaced| ==> s.Has(s.replaced[j].name) && s.InBuffer(s.replaced[j].name)
  }

  /** Where a replaced section goes. */
  datatype Slot = Slot(offset: nat, addr: nat)

  /** The address at which the file offset `off` is mapped. */
  function AddressAt(cls: ElfClass, startAddr: nat, startOffset: nat, off: nat): nat {
    cls.Wrap(startAddr + (off - startOffset))
  }

  /** The places of the first `k` replacements, one after the other from `cur0` on. */
  function SlotsUpTo(cls: ElfClass, rs: seq<Replacement>, k: nat, cur0: nat, startAddr: nat, startOffset: nat): (r: seq<Slot>)
    requires k <= |rs|
    ensures |r| == k
  {
    if k == 0 then []
    else
      var off := cur0 + Total(cls, rs, k - 1);
      SlotsUpTo(cls, rs, k - 1, cur0, startAddr, startOffset) + [Slot(off, AddressAt(cls, startAddr, startOffset, off))]
  }

  lemma {:induction false} SlotMeaning(cls: ElfClass, rs: seq<Replacement>, k: nat, cur0: nat, startAddr: nat, startOffset: nat, j: nat)
    requires j < k <= |rs|
    ensures var slots := SlotsUpTo(cls, rs, k, cur0, startAddr, startOffset);
      && slots[j].offset == cur0 + Total(cls, rs, j)
      && slots[j].addr == AddressAt(cls, startAddr, startOffset, slots[j].offset)
    decreases k
  {
    if j < k - 1 {
      SlotMeaning(cls, rs, k - 1, cur0, startAddr, startOffset, j);
    }
  }

  /** The replacements fit in their slots without touching each other, and before `end`. */
  predicate Spaced(rs: seq<Replacement>, slots: seq<Slot>, end: nat) {
    && |slots| == |rs|
    && (forall i, j :: 0 <= i < j < |rs| ==> slots[i].offset + |rs[i].data| <= slots[j].offset)
    && (forall i :: 0 <= i < |rs| ==> slots[i].offset + |rs[i].data| <= end)
  }

  lemma SpacedFromTotals(cls: ElfClass, rs: seq<Replacement>, slots: seq<Slot>, cur0: nat)
    requires Small(rs) && |slots| == |rs|
    requires forall j :: 0 <= j < |rs| ==> slots[j].offset == cur0 + Total(cls, rs, j)
    ensures Spaced(rs, slots, cur0 + TotalAll(cls, rs))
  {
    forall i, j | 0 <= i < j < |rs| ensures slots[i].offset + |rs[i].data| <= slots[j].offset {
      TotalMonotone(cls, rs, i, j);
    }
    forall i | 0 <= i < |rs| ensures slots[i].offset + |rs[i].data| <= cur0 + TotalAll(cls, rs) {
      TotalMonotone(cls, rs, i, |rs|);
    }
  }

  /** The slots follow one another from `cur0` on. */
  predicate InSequence(cls: ElfClass, rs: seq<Replacement>, slots: seq<Slot>, cur0: nat) {
    && |slots| == |rs|
    && forall j :: 0 <= j < |rs| ==> slots[j].offset == cur0 + Total(cls, rs, j)
  }

  lemma SlotsCount(cls: ElfClass, rs: seq<Replacement>, slots: seq<Slot>, cur0: nat)
    requires InSequence(cls, rs, slots, cur0)
    ensures |slots| == |rs| && Total(cls, rs, 0) == 0
  {
  }

  lemma SlotInSequence(cls: ElfClass, rs: seq<Replacement>, slots: seq<Slot>, cur0: nat, k: nat)
    requires InSequence(cls, rs, slots, cur0) && k < |rs|
    ensures |slots| == |rs| && slots[k].offset == cur0 + Total(cls, rs, k)
    ensures Total(cls, rs, k + 1) == Total(cls, rs, k) + cls.Align(|rs[k].data|)
  {
  }

  lemma SlotsBegin(cls: ElfClass, rs: seq<Replacement>, slots: seq<Slot>, cur0: nat)
    requires InSequence(cls, rs, slots, cur0)
    ensures forall k :: 0 <= k < |slots| ==> cur0 <= slots[k].offset
  {
  }

  /** Every slot is mapped at the same distance from its offset. */
  predicate SameSlide(cls: ElfClass, slots: seq<Slot>, startAddr: nat, startOffset: nat) {
    forall j :: 0 <= j < |slots| ==> slots[j].addr == AddressAt(cls, startAddr, startOffset, slots[j].offset)
  }

  lemma MakeSlots(cls: ElfClass, rs: seq<Replacement>, cur0: nat, startAddr: nat, startOffset: nat) returns (slots: seq<Slot>)
    requires Small(rs)
    ensures InSequence(cls, rs, slots, cur0)
    ensures SameSlide(cls, slots, startAddr, startOffset)
    ensures Spaced(rs, slots, cur0 + TotalAll(cls, rs))
  {
    slots := SlotsUpTo(cls, rs, |rs|, cur0, startAddr, startOffset);
    forall j | 0 <= j < |rs|
      ensures slots[j].offset == cur0 + Total(cls, rs, j)
      ensures slots[j].addr == AddressAt(cls, startAddr, startOffset, slots[j].offset)
    {
      SlotMeaning(cls, rs, |rs|, cur0, startAddr, startOffset, j);
    }
    SpacedFromTotals(cls, rs, slots, cur0);
  }

  /** Which replacement, if any, each header is for. */
  function Which(s: State): (w: seq<nat>)
    ensures |w| == |s.shdrs|
    ensures forall i :: 0 <= i < |w| ==> w[i] <= |s.replaced|
  {
    seq(|s.shdrs|, i requires 0 <= i < |s.shdrs| => IndexOf(s.replaced, S.NameOf(s.cfg.tab, s.shdrs[i])))
  }

  /** A section header once its replacement lies in its slot. */
  function PlacedHeader(cls: ElfClass, sh: Shdr, slot: Slot, size: nat): Shdr {
    sh.(offset := slot.offset, addr := slot.addr, size := size, addralign := cls.OffSize())
  }

  /** The header for replacement `w` after the first `k` have been placed. */
  function PlacedShdr(cls: ElfClass, rs: seq<Replacement>, slots: seq<Slot>, k: nat, w: nat, sh: Shdr): Shdr
    requires k <= |rs| == |slots|
  {
    if w < k then PlacedHeader(cls, sh, slots[w], |rs[w].data|) else sh
  }

  /** A segment that must coincide with a section. */
  function Synced(p: Phdr, offset: nat, addr: nat, size: nat): Phdr {
    p.(offset := offset, vaddr := addr, paddr := addr, filesz := size, memsz := size)
  }

  /** A program header once replacement `r` lies in `slot`: PT_INTERP and PT_DYNAMIC follow their sections. */
  function SyncedFor(r: Replacement, slot: Slot, p: Phdr): Phdr {
    if (r.name == INTERP && p.ptype == PT_INTERP) || (r.name == DYNAMIC && p.ptype == PT_DYNAMIC)
    then Synced(p, slot.offset, slot.addr, |r.data|)
    else p
  }

  /** A program header after the first `k` replacements have been placed. */
  function PlacedPhdr(rs: seq<Replacement>, slots: seq<Slot>, k: nat, p: Phdr): Phdr
    requires k <= |rs| == |slots|
  {
    if k == 0 then p else SyncedFor(rs[k - 1], slots[k - 1], PlacedPhdr(rs, slots, k - 1, p))
  }

  /** The byte at `p` belonged to one of the first `k` replaced sections. */
  predicate InOld(s: State, k: nat, p: nat)
    requires k <= |s.replaced| && Placeable(s)
  {
    exists j :: 0 <= j < k && s.Sec(s.replaced[j].name).offset <= p
                && p < s.Sec(s.replaced[j].name).offset + s.Sec(s.replaced[j].name).size
  }

  /** `x` is the buffer after the first `k` replaced sections have been overwritten. */
  ghost predicate XedOut(s: State, k: nat, x: seq<byte>)
    requires k <= |s.replaced| && Placeable(s)
  {
    && |x| == |s.contents|
    && forall p :: 0 <= p < |x| ==> x[p] == if InOld(s, k, p) then FILL else s.contents[p]
  }

  lemma XOutStep(s: State, k: nat, x: seq<byte>)
    requires k < |s.replaced| && Placeable(s) && XedOut(s, k, x)
    ensures var sh := s.Sec(s.replaced[k].name);
      sh.offset + sh.size <= |x| && XedOut(s, k + 1, Splice(x, sh.offset, Repeat(FILL, sh.size)))
  {
    assert s.Has(s.replaced[k].name) && s.InBuffer(s.replaced[k].name);
    var sh := s.Sec(s.replaced[k].name);
    var y := Splice(x, sh.offset, Repeat(FILL, sh.size));
    forall p | 0 <= p < |x| ensures y[p] == if InOld(s, k + 1, p) then FILL else s.contents[p] {
      assert InOld(s, k + 1, p) <==> InOld(s, k, p) || sh.offset <= p < sh.offset + sh.size;
    }
  }

  /** `d` lies at `off` in `c`. */
  predicate Holds(c: seq<byte>, off: nat, d: seq<byte>) {
    off + |d| <= |c| && Slice(c, off, |d|) == d
  }

  /** The headers after the first `k` replacements have been placed. */
  ghost predicate HeadersPlaced(s: State, slots: seq<Slot>, w: seq<nat>, k: nat, hs: seq<Shdr>, ps: seq<Phdr>)
    requires k <= |s.replaced| == |slots| && |w| == |s.shdrs|
  {
    && |hs| == |s.shdrs| && |ps| == |s.phdrs|
    && (|hs| > 0 ==> hs[0] == s.shdrs[0])
    && (forall i :: 1 <= i < |hs| ==> hs[i] == PlacedShdr(s.cfg.cls, s.replaced, slots, k, w[i], s.shdrs[i]))
    && (forall i :: 0 <= i < |ps| ==> ps[i] == PlacedPhdr(s.replaced, slots, k, s.phdrs[i]))
  }

  /** The first `k` replacements lie in their slots. */
  predicate DataPlaced(c: seq<byte>, rs: seq<Replacement>, slots: seq<Slot>, k: nat)
    requires k <= |rs| == |slots|
  {
    forall j :: 0 <= j < k ==> Holds(c, slots[j].offset, rs[j].data)
  }

  /** `t` is `s` with its replacements written into `slots`, between `cur0` and `end`, and their old places filled with 'X'. */
  ghost predicate WrittenOut(s: State, t: State, slots: seq<Slot>, cur0: nat, end: nat)
    requires Placeable(s) && |slots| == |s.replaced|
  {
    && t.cfg == s.cfg && t.fileSize == s.fileSize && t.hdr == s.hdr && t.replaced == []
    && |t.contents| == |s.contents|
    && HeadersPlaced(s, slots, Which(s), |s.replaced|, t.shdrs, t.phdrs)
    && DataPlaced(t.contents, s.replaced, slots, |s.replaced|)
    && (forall p :: 0 <= p < |s.contents| && !(cur0 <= p < end) ==>
          t.contents[p] == if InOld(s, |s.replaced|, p) then FILL else s.contents[p])
  }

  /** Writing one replacement leaves those before it alone. */
  lemma WriteKeepsEarlier(c: seq<byte>, rs: seq<Replacement>, slots: seq<Slot>, end: nat, k: nat)
    requires Spaced(rs, slots, end) && k < |rs| && end <= |c|
    requires DataPlaced(c, rs, slots, k)
    ensures DataPlaced(Splice(c, slots[k].offset, rs[k].data), rs, slots, k + 1)
  {
    SpliceRead(c, slots[k].offset, rs[k].data);
    forall j | 0 <= j < k ensures Holds(Splice(c, slots[k].offset, rs[k].data), slots[j].offset, rs[j].data) {
      assert Holds(c, slots[j].offset, rs[j].data);
      SpliceFrame(c, slots[k].offset, rs[k].data, slots[j].offset, |rs[j].data|);
    }
  }

  /** The headers for replacement `k`: exactly one, found by name. */
  lemma WhichOf(s: State, k: nat)
    requires Placeable(s) && k < |s.replaced|
    ensures var i := S.Find(s.cfg.tab, s.shdrs, s.replaced[k].name);
      1 <= i < |s.shdrs| && Which(s)[i] == k && forall j :: 1 <= j < |s.shdrs| && j != i ==> Which(s)[j] != k
  {
    var n := s.replaced[k].name;
    KeyedIff(s.replaced, k);
    assert s.Has(n);
    var i := S.Find(s.cfg.tab, s.shdrs, n);
    forall j | 1 <= j < |s.shdrs| && j != i ensures Which(s)[j] != k {
      S.FindOwnName(s.cfg.tab, s.shdrs, j);
    }
  }

  /** `c` and `c'` agree but between `a` and `b`. */
  predicate SameOutside(c: seq<byte>, c': seq<byte>, a: nat, b: nat) {
    |c'| == |c| && forall p :: 0 <= p < |c| && !(a <= p < b) ==> c'[p] == c[p]
  }

  lemma NothingInside(c: seq<byte>, a: nat, b: nat)
    ensures SameOutside(c, c, a, b)
  {
  }

  lemma SpliceOutside(x: seq<byte>, c: seq<byte>, off: nat, d: seq<byte>, a: nat, b: nat)
    requires SameOutside(x, c, a, b) && a <= off && off + |d| <= b && off + |d| <= |c|
    ensures SameOutside(x, Splice(c, off, d), a, b)
  {
  }

  /** Placing replacement `k` changes its header and the segments that follow it. */
  lemma HeadersStep(s: State, slots: seq<Slot>, k: nat, i: nat, hs: seq<Shdr>, ps: seq<Phdr>, hs': seq<Shdr>, ps': seq<Phdr>)
    requires Placeable(s) && k < |s.replaced| == |slots|
    requires HeadersPlaced(s, slots, Which(s), k, hs, ps)
    requires i == S.Find(s.cfg.tab, s.shdrs, s.replaced[k].name) && 1 <= i < |hs|
    requires hs' == hs[i := PlacedHeader(s.cfg.cls, hs[i], slots[k], |s.replaced[k].data|)]
    requires |ps'| == |ps|
    requires forall j :: 0 <= j < |ps| ==> ps'[j] == SyncedFor(s.replaced[k], slots[k], ps[j])
    ensures HeadersPlaced(s, slots, Which(s), k + 1, hs', ps')
  {
    WhichOf(s, k);
  }

  /** The two passes of `writeReplacedSections` together. */
  lemma WrittenOutIntro(s: State, x: seq<byte>, t: State, slots: seq<Slot>, cur0: nat, end: nat)
    requires Placeable(s) && |slots| == |s.replaced|
    requires t.cfg == s.cfg && t.fileSize == s.fileSize && t.hdr == s.hdr && t.replaced == []
    requires |t.contents| == |s.contents|
    requires HeadersPlaced(s, slots, Which(s), |s.replaced|, t.shdrs, t.phdrs)
    requires DataPlaced(t.contents, s.replaced, slots, |s.replaced|)
    requires XedOut(s, |s.replaced|, x)
    requires forall p :: 0 <= p < |s.contents| && !(cur0 <= p < end) ==> t.contents[p] == x[p]
    ensures WrittenOut(s, t, slots, cur0, end)
  {
  }

  lemma NothingPlaced(s: State, slots: seq<Slot>, c: seq<byte>)
    requires |s.replaced| == |slots|
    ensures HeadersPlaced(s, slots, Which(s), 0, s.shdrs, s.phdrs)
    ensures DataPlaced(c, s.replaced, slots, 0)
  {
  }

  // ---------------------------------------------------------------- what the rewriter is given

  /** No recorded section name is empty. */
  predicate Named(cfg: Config) {
    forall k :: 1 <= k < |cfg.oldNames| ==> cfg.oldNames[k] != []
  }

  /** The counts in the ELF header are those of the tables. */
  predicate Counts(s: State) {
    && Named(s.cfg)
    && |s.shdrs| == s.hdr.shnum && |s.phdrs| == s.hdr.phnum
    && s.hdr.shentsize == s.cfg.cls.ShdrSize()
    && 1 <= s.hdr.shstrndx < |s.shdrs| < 0x1_0000
  }

  /** The page size is a power of two that holds an ELF header, and the file stays small enough for 32-bit sizes. */
  predicate Sizes(s: State) {
    && PowerOfTwo(s.cfg.pageSize) && s.cfg.cls.EhdrSize() <= s.cfg.pageSize <= 0x4000_0000
    && s.fileSize <= s.cfg.maxSize <= |s.contents| && s.cfg.maxSize <= 0x4000_0000
  }

  /** Every section begins in the file behind the ELF header, and its bytes, if any, lie in the file. */
  ghost predicate SectionsInFile(s: State) {
    forall n :: s.Has(n) ==>
      && s.cfg.cls.EhdrSize() <= s.Sec(n).offset <= s.fileSize
      && (s.Sec(n).FileBacked() ==> s.Sec(n).offset + s.Sec(n).size <= s.fileSize)
  }

  /** No two sections share a byte of the file. */
  ghost predicate SectionsApart(s: State) {
    forall m, n :: s.Backed(m) && s.Backed(n) && m != n ==>
      Apart(s.Sec(m).offset, s.Sec(m).size, s.Sec(n).offset, s.Sec(n).size)
  }

  /** The section header table lies in the file, behind the ELF header, and shares no byte with a section. */
  ghost predicate TableApart(s: State) {
    && s.cfg.cls.EhdrSize() <= s.hdr.shoff && s.hdr.shoff + s.ShTableSize() <= s.fileSize
    && forall n :: s.Backed(n) ==> Apart(s.Sec(n).offset, s.Sec(n).size, s.hdr.shoff, s.ShTableSize())
  }

  /** A file that the rewriter can work on. */
  ghost predicate WellFormed(s: State) {
    && Counts(s) && Sizes(s) && S.Sortable(s.cfg.tab, s.shdrs)
    && SectionsInFile(s) && SectionsApart(s) && TableApart(s)
  }

  /** The sections to be replaced are sections of the file with bytes in it. */
  predicate Requested(s: State) {
    && Ascending(s.replaced) && Small(s.replaced)
    && forall j :: 0 <= j < |s.replaced| ==> s.Backed(s.replaced[j].name)
  }

  /** Sections without bytes in the file, such as .bss, come after some section of code or data. */
  ghost predicate NobitsAfterCode(s: State) {
    forall n :: s.Has(n) && !s.Sec(n).FileBacked() ==>
      exists m :: s.Has(m) && Immovable(m, s.Sec(m)) && s.Sec(m).offset < s.Sec(n).offset
  }

  /** A section whose address the code may refer to, so that it cannot be moved. */
  predicate Immovable(n: Name, sh: Shdr) {
    sh.stype == SHT_PROGBITS && n != INTERP
  }

  lemma RequestedBacked(s: State, n: Name)
    requires Requested(s) && Keyed(s.replaced, n)
    ensures s.Backed(n)
  {
    assert s.replaced[IndexOf(s.replaced, n)].name == n;
  }

  lemma RequestedPlaceable(s: State)
    requires Requested(s) && Sizes(s) && SectionsInFile(s) && S.DistinctNames(s.cfg.tab, s.shdrs)
    ensures Placeable(s)
  {
    forall j | 0 <= j < |s.replaced| ensures s.Has(s.replaced[j].name) && s.InBuffer(s.replaced[j].name) {
      assert s.Backed(s.replaced[j].name);
    }
  }

  // ---------------------------------------------------------------- sections in the way

  /** The greatest index below `k` whose section is being replaced, or 0. */
  function LastKeyed(s: State, k: nat): (r: nat)
    requires k <= |s.shdrs|
    ensures r < k || r == 0
  {
    if k <= 1 then 0
    else if Keyed(s.replaced, S.NameOf(s.cfg.tab, s.shdrs[k - 1])) then k - 1
    else LastKeyed(s, k - 1)
  }

  /** Some section is being replaced, and section 0 is not. */
  lemma LastKeyedPositive(s: State)
    requires Requested(s) && s.replaced != []
    ensures LastKeyed(s, |s.shdrs|) != 0
  {
    assert s.Backed(s.replaced[0].name);
    var i := S.Find(s.cfg.tab, s.shdrs, s.replaced[0].name);
    LastKeyedAtLeast(s, |s.shdrs|, i);
  }

  lemma {:induction false} LastKeyedAtLeast(s: State, k: nat, i: nat)
    requires 1 <= i < k <= |s.shdrs| && Keyed(s.replaced, S.NameOf(s.cfg.tab, s.shdrs[i]))
    ensures LastKeyed(s, k) >= i
    decreases k
  {
    if i < k - 1 {
      LastKeyedAtLeast(s, k - 1, i);
    }
  }

  /** The space that the sections before the one at `i` take up, each rounded up. */
  function SectionBudget(cls: ElfClass, ss: seq<Shdr>, i: nat): nat
    requires i <= |ss|
  {
    if i <= 1 then 0 else SectionBudget(cls, ss, i - 1) + cls.Align(ss[i - 1].size)
  }

  /** `n` has been pulled in: it is one of the sections before the one at `i`, and it may be moved. */
  predicate Movable(s: State, n: Name, i: nat) {
    && s.Backed(n) && s.InBuffer(n)
    && S.Find(s.cfg.tab, s.shdrs, n) < i
    && !Immovable(n, s.Sec(n))
  }

  /** The replacements `rs` are those of `s` and, with their old contents, some movable sections before the one at `i`. */
  ghost predicate Extended(s: State, rs: seq<Replacement>, i: nat) {
    && Requested(s.(replaced := rs))
    && (forall n :: Keyed(s.replaced, n) ==> Keyed(rs, n) && Data(rs, n) == Data(s.replaced, n))
    && (forall n :: Keyed(rs, n) && !Keyed(s.replaced, n) ==> Movable(s, n, i) && Data(rs, n) == s.Content(n))
  }

  /** All sections before the one at `i` are being replaced. */
  ghost predicate PrefixKeyed(s: State, rs: seq<Replacement>, i: nat) {
    forall j :: 1 <= j < i && j < |s.shdrs| ==> Keyed(rs, S.NameOf(s.cfg.tab, s.shdrs[j]))
  }

  /** No section before the one at `i` is immovable. */
  ghost predicate PrefixMovable(s: State, i: nat) {
    forall j :: 1 <= j < i && j < |s.shdrs| ==> !Immovable(S.NameOf(s.cfg.tab, s.shdrs[j]), s.shdrs[j])
  }

  /** In a sorted table a section before the first immovable one has bytes in the file. */
  lemma PrefixIsBacked(s: State, i: nat)
    requires WellFormed(s) && NobitsAfterCode(s) && S.SortedByOffset(s.shdrs)
    requires 1 <= i < |s.shdrs| && PrefixMovable(s, i + 1)
    ensures s.Backed(S.NameOf(s.cfg.tab, s.shdrs[i])) && s.InBuffer(S.NameOf(s.cfg.tab, s.shdrs[i]))
  {
    var n := S.NameOf(s.cfg.tab, s.shdrs[i]);
    S.FindOwnName(s.cfg.tab, s.shdrs, i);
    assert s.Has(n) && s.Sec(n) == s.shdrs[i];
  }

  lemma PutRequested(s: State, rs: seq<Replacement>, n: Name, d: seq<byte>)
    requires Requested(s.(replaced := rs)) && s.Backed(n) && |d| <= 0x8000_0000
    ensures Requested(s.(replaced := Put(rs, n, d)))
  {
    var r := Put(rs, n, d);
    PutAscending(rs, n, d);
    var t, u := s.(replaced := rs), s.(replaced := r);
    forall j | 0 <= j < |r| ensures |r[j].data| <= 0x8000_0000 && u.Backed(r[j].name) {
      PutElements(rs, n, d, j);
      if r[j] in rs {
        var k :| 0 <= k < |rs| && rs[k] == r[j];
        assert t.Backed(rs[k].name);
      }
    }
  }

  /** Pulling in the section at `i`. */
  lemma ExtendStep(s: State, rs: seq<Replacement>, i: nat, n: Name)
    requires WellFormed(s) && Extended(s, rs, i) && 1 <= i < |s.shdrs| && n == S.NameOf(s.cfg.tab, s.shdrs[i])
    requires s.Backed(n) && s.InBuffer(n) && !Immovable(n, s.shdrs[i]) && !Keyed(rs, n)
    requires PrefixKeyed(s, rs, i)
    ensures Extended(s, Put(rs, n, s.Content(n)), i + 1)
    ensures PrefixKeyed(s, Put(rs, n, s.Content(n)), i + 1)
  {
    hide Requested;
    var d := s.Content(n);
    var r := Put(rs, n, d);
    S.FindOwnName(s.cfg.tab, s.shdrs, i);
    assert s.Sec(n) == s.shdrs[i];
    PutRequested(s, rs, n, d);
    forall m ensures Keyed(r, m) <==> m == n || Keyed(rs, m)
             ensures m == n ==> Data(r, m) == d
             ensures m != n && Keyed(rs, m) ==> Data(r, m) == Data(rs, m)
    {
      PutLookup(rs, n, d, m);
    }
  }

  /** `string::resize`. */
  function Resized(d: seq<byte>, n: nat): (r: seq<byte>)
    ensures |r| == n
  {
    if n <= |d| then d[..n] else d + Repeat(0, n - |d|)
  }

  lemma ResizedToSelf(d: seq<byte>)
    ensures Resized(d, |d|) == d
  {
  }

  /** What the section called `n` holds so far: its replacement, or its bytes in the file. */
  function Current(s: State, n: Name): seq<byte>
    requires s.Has(n) && s.InBuffer(n)
  {
    if Keyed(s.replaced, n) then Data(s.replaced, n) else s.Content(n)
  }

  /** The scan over the sections before the last replaced one has come to `i`. */
  ghost predicate Scanned(s: State, rs: seq<Replacement>, i: nat) {
    && 1 <= i <= |s.shdrs|
    && Extended(s, rs, i) && PrefixKeyed(s, rs, i) && PrefixMovable(s, i)
    && TotalAll(s.cfg.cls, rs) <= TotalAll(s.cfg.cls, s.replaced) + SectionBudget(s.cfg.cls, s.shdrs, i)
  }

  /** The scan stops at the section `i`: it is of type SHT_PROGBITS (1) and not .interp, or it comes right after .dynstr. */
  predicate Stopper(s: State, i: nat)
    requires 1 <= i < |s.shdrs|
  {
    || (s.shdrs[i].stype == 1 && S.NameOf(s.cfg.tab, s.shdrs[i]) != INTERP)
    || (i > 1 && S.NameOf(s.cfg.tab, s.shdrs[i - 1]) == DYNSTR)
  }

  predicate AskedFor(s: State, i: nat)
    requires i < |s.shdrs|
  {
    Keyed(s.replaced, S.NameOf(s.cfg.tab, s.shdrs[i]))
  }

  /** The scan of the table of `s` has pulled sections into `rs` and stopped at the section `stop`: at the first stopper, or behind the last section that was asked for. */
  ghost predicate StopsAt(s: State, rs: seq<Replacement>, stop: nat) {
    && 1 <= stop < |s.shdrs|
    && (forall i :: 1 <= i < stop ==> !Stopper(s, i) && Keyed(rs, S.NameOf(s.cfg.tab, s.shdrs[i])))
    && (forall n :: Keyed(rs, n) && !Keyed(s.replaced, n) ==> s.Has(n) && S.Find(s.cfg.tab, s.shdrs, n) < stop)
    && (exists j :: 1 <= j < |s.shdrs| && stop - 1 <= j && AskedFor(s, j))
    && (Stopper(s, stop) || forall j :: stop <= j < |s.shdrs| ==> !AskedFor(s, j))
  }

  lemma StopsIntro(s: State, rs: seq<Replacement>, stop: nat)
    requires Scanned(s, rs, stop) && stop < |s.shdrs| && stop <= LastKeyed(s, |s.shdrs|) + 1 && LastKeyed(s, |s.shdrs|) != 0
    requires forall i :: 1 <= i < stop ==> !Stopper(s, i)
    requires stop <= LastKeyed(s, |s.shdrs|) ==> Stopper(s, stop)
    ensures StopsAt(s, rs, stop)
  {
    hide Stopper, SectionBudget, TotalAll, Requested, PrefixMovable, LastKeyed, S.NameOf, Immovable;
    var last := LastKeyed(s, |s.shdrs|);
    LastIsAskedFor(s, |s.shdrs|);
    forall j | stop <= j < |s.shdrs| && AskedFor(s, j) ensures Stopper(s, stop) {
      LastKeyedAtLeast(s, |s.shdrs|, j);
    }
  }

  lemma {:induction false} LastIsAskedFor(s: State, k: nat)
    requires k <= |s.shdrs| && LastKeyed(s, k) != 0
    ensures AskedFor(s, LastKeyed(s, k))
  {
    if k > 1 && !AskedFor(s, k - 1) {
      LastIsAskedFor(s, k - 1);
    }
  }

  lemma ScanStart(s: State)
    requires Requested(s) && |s.shdrs| >= 1
    ensures Scanned(s, s.replaced, 1)
  {
    assert s.(replaced := s.replaced) == s;
  }

  /** One step of the scan: the section at `i` is movable and is being replaced or pulled in. */
  lemma ScanStep(s: State, rs: seq<Replacement>, i: nat)
    requires WellFormed(s) && NobitsAfterCode(s) && S.SortedByOffset(s.shdrs)
    requires Scanned(s, rs, i) && i < |s.shdrs| && !Immovable(S.NameOf(s.cfg.tab, s.shdrs[i]), s.shdrs[i])
    ensures var n := S.NameOf(s.cfg.tab, s.shdrs[i]);
      && s.Backed(n) && s.InBuffer(n) && s.Sec(n) == s.shdrs[i]
      && Scanned(s, if Keyed(rs, n) then rs else Put(rs, n, s.Content(n)), i + 1)
  {
    hide RoundUp, Requested, S.CString, TotalAll, ElfClass.Align, SectionsApart, TableApart;
    var n := S.NameOf(s.cfg.tab, s.shdrs[i]);
    PrefixIsBacked(s, i);
    S.FindOwnName(s.cfg.tab, s.shdrs, i);
    if !Keyed(rs, n) {
      ExtendStep(s, rs, i, n);
      RequestedAscending(s, rs);
      TotalOfPut(s.cfg.cls, rs, n, s.Content(n));
    }
  }

  lemma RequestedAscending(s: State, rs: seq<Replacement>)
    requires Requested(s.(replaced := rs))
    ensures Ascending(rs)
  {
  }

  /** The result of the scan: every section that begins before `startOffset` is being replaced. */
  ghost predicate PulledIn(s: State, t: State, startOffset: nat, startAddr: nat) {
    && t == s.(replaced := t.replaced)
    && Extended(s, t.replaced, LastKeyed(s, |s.shdrs|) + 1)
    && (forall n :: s.Has(n) && !Keyed(t.replaced, n) ==> s.Sec(n).offset >= startOffset)
    && (exists n :: s.Has(n) && s.Sec(n).offset == startOffset && s.Sec(n).addr == startAddr)
    && TotalAll(s.cfg.cls, t.replaced) <= TotalAll(s.cfg.cls, s.replaced) + s.fileSize + 8 * |s.shdrs|
  }

  lemma PulledInIntro(s: State, t: State, i: nat)
    requires WellFormed(s) && S.SortedByOffset(s.shdrs) && t == s.(replaced := t.replaced)
    requires Scanned(s, t.replaced, i) && i < |s.shdrs| && i <= LastKeyed(s, |s.shdrs|) + 1
    ensures PulledIn(s, t, s.shdrs[i].offset, s.shdrs[i].addr)
  {
    hide RoundUp, Requested, LastKeyed, PrefixKeyed, PrefixMovable, TotalAll, SectionBudget, SectionsInFile, SectionsApart,
         TableApart, S.SortedByOffset, S.NameOf, S.Find;
    S.FindOwnName(s.cfg.tab, s.shdrs, i);
    assert s.Has(S.NameOf(s.cfg.tab, s.shdrs[i]));
    UnkeyedBehind(s, t.replaced, i);
    ExtendedMonotone(s, t.replaced, i, LastKeyed(s, |s.shdrs|) + 1);
    BudgetOfPrefix(s, t.replaced, i);
  }

  lemma ExtendedMonotone(s: State, rs: seq<Replacement>, i: nat, k: nat)
    requires Extended(s, rs, i) && i <= k
    ensures Extended(s, rs, k)
  {
    hide Requested;
  }

  lemma UnkeyedBehind(s: State, rs: seq<Replacement>, i: nat)
    requires S.SortedByOffset(s.shdrs) && i < |s.shdrs| && PrefixKeyed(s, rs, i)
    ensures forall n :: s.Has(n) && !Keyed(rs, n) ==> s.Sec(n).offset >= s.shdrs[i].offset
  {
  }

  /** Sorted sections that share no byte take up no more room than the file has. */
  lemma {:induction false} BudgetBound(s: State, i: nat, bound: nat)
    requires WellFormed(s) && S.SortedByOffset(s.shdrs) && i <= |s.shdrs|
    requires forall j :: 1 <= j < i ==>
      s.shdrs[j].FileBacked() && (s.shdrs[j].size > 0 ==> s.shdrs[j].offset + s.shdrs[j].size <= bound)
    ensures SectionBudget(s.cfg.cls, s.shdrs, i) <= bound + 8 * i
    decreases i
  {
    hide RoundUp;
    if i > 1 {
      var h := s.shdrs[i - 1];
      SectionRange(s, i - 1);
      RoundedCovers(s.cfg.cls, h.size);
      if h.size == 0 {
        BudgetBound(s, i - 1, bound);
      } else {
        forall j | 1 <= j < i - 1 && s.shdrs[j].size > 0 ensures s.shdrs[j].offset + s.shdrs[j].size <= h.offset {
          SectionsOfIndicesApart(s, j, i - 1);
        }
        BudgetBound(s, i - 1, h.offset);
      }
    }
  }

  lemma SectionRange(s: State, i: nat)
    requires WellFormed(s) && 1 <= i < |s.shdrs| && s.shdrs[i].FileBacked()
    ensures s.shdrs[i].offset + s.shdrs[i].size <= s.fileSize
  {
    S.FindOwnName(s.cfg.tab, s.shdrs, i);
    assert s.Has(S.NameOf(s.cfg.tab, s.shdrs[i]));
  }

  lemma SectionsOfIndicesApart(s: State, i: nat, j: nat)
    requires WellFormed(s) && 1 <= i < j < |s.shdrs| && s.shdrs[i].FileBacked() && s.shdrs[j].FileBacked()
    ensures Apart(s.shdrs[i].offset, s.shdrs[i].size, s.shdrs[j].offset, s.shdrs[j].size)
  {
    S.FindOwnName(s.cfg.tab, s.shdrs, i);
    S.FindOwnName(s.cfg.tab, s.shdrs, j);
    assert s.Backed(S.NameOf(s.cfg.tab, s.shdrs[i])) && s.Backed(S.NameOf(s.cfg.tab, s.shdrs[j]));
  }

  lemma BudgetOfPrefix(s: State, rs: seq<Replacement>, i: nat)
    requires WellFormed(s) && S.SortedByOffset(s.shdrs) && 1 <= i <= |s.shdrs|
    requires Requested(s.(replaced := rs)) && PrefixKeyed(s, rs, i)
    ensures SectionBudget(s.cfg.cls, s.shdrs, i) <= s.fileSize + 8 * |s.shdrs|
  {
    hide RoundUp;
    forall j | 1 <= j < i
      ensures s.shdrs[j].FileBacked() && s.shdrs[j].offset + s.shdrs[j].size <= s.fileSize
    {
      RequestedBacked(s.(replaced := rs), S.NameOf(s.cfg.tab, s.shdrs[j]));
      S.FindOwnName(s.cfg.tab, s.shdrs, j);
      SectionRange(s, j);
    }
    BudgetBound(s, i, s.fileSize);
  }

  // ---------------------------------------------------------------- moving the section header table

  /** `t` is `s` with its section header table, re-sorted, at the end of the grown file. */
  ghost predicate TableMoved(s: State, t: State)
    requires s.fileSize <= |s.contents|
  {
    var size := s.fileSize + s.hdr.shoff + s.ShTableSize();
    && size <= |s.contents| && |t.shdrs| >= 1 && s.hdr.shstrndx < |s.shdrs|
    && S.Resorted(s.cfg.tab, s.shdrs, t.shdrs)
    && t.hdr == s.hdr.(shoff := s.fileSize, shstrndx := t.hdr.shstrndx) && 1 <= t.hdr.shstrndx < |t.shdrs|
    && S.NameOf(s.cfg.tab, t.shdrs[t.hdr.shstrndx]) == S.NameOf(s.cfg.tab, s.shdrs[s.hdr.shstrndx])
    && s.fileSize + s.cfg.cls.ShdrSize() + |EncodeShdrs(s.cfg.cls, t.shdrs[1..])| <= size
    && t == s.(fileSize := size, hdr := t.hdr, shdrs := t.shdrs,
               contents := Splice(Grown(s, size).contents, s.fileSize + s.cfg.cls.ShdrSize(), EncodeShdrs(s.cfg.cls, t.shdrs[1..])))
  }

  lemma SortedSize(tab: seq<byte>, a: seq<Shdr>, b: seq<Shdr>)
    requires S.Resorted(tab, a, b)
    ensures |b| == |a| >= 1
  {
  }
}
