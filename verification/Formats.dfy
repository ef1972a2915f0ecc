/** The header tables as they lie in the file, in the numbers of the System V gABI, chapters 4 and 5. */
module Formats {
  import opened Bytes
  import opened ElfTypes
  import opened Image
  import opened Layout
  import opened Headers
  import opened Rewriting

  /** The little-endian integer in the `w` bytes at `pos`. */
  function IntAt(c: seq<byte>, pos: nat, w: nat): nat
    requires pos + w <= |c|
  {
    FromLE(c[pos..pos + w])
  }

  predicate ShdrFits(cls: ElfClass, h: Shdr) {
    var m := if cls.Elf32? then 0x1_0000_0000 else 0x1_0000_0000_0000_0000;
    && h.name < 0x1_0000_0000 && h.stype < 0x1_0000_0000 && h.link < 0x1_0000_0000 && h.info < 0x1_0000_0000
    && h.flags < m && h.addr < m && h.offset < m && h.size < m && h.addralign < m && h.entsize < m
  }

  predicate PhdrFits(cls: ElfClass, p: Phdr) {
    var m := if cls.Elf32? then 0x1_0000_0000 else 0x1_0000_0000_0000_0000;
    && p.ptype < 0x1_0000_0000 && p.flags < 0x1_0000_0000
    && p.offset < m && p.vaddr < m && p.paddr < m && p.filesz < m && p.memsz < m && p.align < m
  }

  /** The fields of all headers fit where they are stored. */
  predicate HeadersFit(t: State) {
    && (forall i :: 0 <= i < |t.shdrs| ==> ShdrFits(t.cfg.cls, t.shdrs[i]))
    && (forall i :: 0 <= i < |t.phdrs| ==> PhdrFits(t.cfg.cls, t.phdrs[i]))
  }

  /** The section header `h` lies at `pos`. */
  predicate ShdrAt(cls: ElfClass, c: seq<byte>, pos: nat, h: Shdr) {
    match cls
    case Elf32 =>
      && pos + 40 <= |c|
      && IntAt(c, pos, 4) == h.name && IntAt(c, pos + 4, 4) == h.stype && IntAt(c, pos + 8, 4) == h.flags
      && IntAt(c, pos + 12, 4) == h.addr && IntAt(c, pos + 16, 4) == h.offset && IntAt(c, pos + 20, 4) == h.size
      && IntAt(c, pos + 24, 4) == h.link && IntAt(c, pos + 28, 4) == h.info && IntAt(c, pos + 32, 4) == h.addralign
      && IntAt(c, pos + 36, 4) == h.entsize
    case Elf64 =>
      && pos + 64 <= |c|
      && IntAt(c, pos, 4) == h.name && IntAt(c, pos + 4, 4) == h.stype && IntAt(c, pos + 8, 8) == h.flags
      && IntAt(c, pos + 16, 8) == h.addr && IntAt(c, pos + 24, 8) == h.offset && IntAt(c, pos + 32, 8) == h.size
      && IntAt(c, pos + 40, 4) == h.link && IntAt(c, pos + 44, 4) == h.info && IntAt(c, pos + 48, 8) == h.addralign
      && IntAt(c, pos + 56, 8) == h.entsize
  }

  /** The program header `p` lies at `pos`. */
  predicate PhdrAt(cls: ElfClass, c: seq<byte>, pos: nat, p: Phdr) {
    match cls
    case Elf32 =>
      && pos + 32 <= |c|
      && IntAt(c, pos, 4) == p.ptype && IntAt(c, pos + 4, 4) == p.offset && IntAt(c, pos + 8, 4) == p.vaddr
      && IntAt(c, pos + 12, 4) == p.paddr && IntAt(c, pos + 16, 4) == p.filesz && IntAt(c, pos + 20, 4) == p.memsz
      && IntAt(c, pos + 24, 4) == p.flags && IntAt(c, pos + 28, 4) == p.align
    case Elf64 =>
      && pos + 56 <= |c|
      && IntAt(c, pos, 4) == p.ptype && IntAt(c, pos + 4, 4) == p.flags && IntAt(c, pos + 8, 8) == p.offset
      && IntAt(c, pos + 16, 8) == p.vaddr && IntAt(c, pos + 24, 8) == p.paddr && IntAt(c, pos + 32, 8) == p.filesz
      && IntAt(c, pos + 40, 8) == p.memsz && IntAt(c, pos + 48, 8) == p.align
  }

  /** Reading the tables of the file, entry by entry and field by field, gives the headers; section 0 has no entry of its own. */
  predicate TablesRead(t: State) {
    && (forall i :: 1 <= i < |t.shdrs| ==>
          ShdrAt(t.cfg.cls, t.contents, t.hdr.shoff + i * (if t.cfg.cls.Elf32? then 40 else 64), t.shdrs[i]))
    && (forall i :: 0 <= i < |t.phdrs| ==>
          PhdrAt(t.cfg.cls, t.contents, t.hdr.phoff + i * (if t.cfg.cls.Elf32? then 32 else 56), t.phdrs[i]))
  }

  // ---------------------------------------------------------------- one header

  /** The bytes `e` lie at `k` in `d`. */
  predicate LiesAt(d: seq<byte>, k: nat, e: seq<byte>) {
    k + |e| <= |d| && d[k..k + |e|] == e
  }

  lemma Lies(c: seq<byte>, pos: nat, e: seq<byte>)
    requires pos + |e| <= |c| && c[pos..pos + |e|] == e
    ensures LiesAt(c, pos, e)
  {
  }

  lemma IntThere(c: seq<byte>, pos: nat, v: nat, w: nat)
    requires LiesAt(c, pos, LE(v, w)) && v < Pow256(w)
    ensures IntAt(c, pos, w) == v
  {
    FromLEOfLE(v, w);
  }

  /** The last integer of an entry, and what is in front of it. */
  lemma IntBehind(c: seq<byte>, pos: nat, e: seq<byte>, v: nat, w: nat)
    requires LiesAt(c, pos, e + LE(v, w)) && v < Pow256(w)
    ensures LiesAt(c, pos, e) && pos + |e| + w <= |c| && IntAt(c, pos + |e|, w) == v
  {
    hide LE, IntAt;
    var d := LE(v, w);
    var n := |e| + w;
    SubSlice(c, pos, n, 0, |e|);
    SubSlice(c, pos, n, |e|, w);
    assert (e + d)[0..0 + |e|] == e && (e + d)[|e|..|e| + w] == d;
    IntThere(c, pos + |e|, v, w);
  }

  lemma Shdr32(c: seq<byte>, pos: nat, h: Shdr)
    requires pos + 40 <= |c| && c[pos..pos + 40] == EncodeShdr(Elf32, h) && ShdrFits(Elf32, h)
    ensures ShdrAt(Elf32, c, pos, h)
  {
    hide LE, IntAt, Pow256, FromLE, LiesAt;
    Pow256Values();
    var e1 := LE(h.name, 4);
    var e2 := e1 + LE(h.stype, 4);
    var e3 := e2 + LE(h.flags, 4);
    var e4 := e3 + LE(h.addr, 4);
    var e5 := e4 + LE(h.offset, 4);
    var e6 := e5 + LE(h.size, 4);
    var e7 := e6 + LE(h.link, 4);
    var e8 := e7 + LE(h.info, 4);
    var e9 := e8 + LE(h.addralign, 4);
    var e10 := e9 + LE(h.entsize, 4);
    Lies(c, pos, e10);
    IntBehind(c, pos, e9, h.entsize, 4);
    IntBehind(c, pos, e8, h.addralign, 4);
    IntBehind(c, pos, e7, h.info, 4);
    IntBehind(c, pos, e6, h.link, 4);
    IntBehind(c, pos, e5, h.size, 4);
    IntBehind(c, pos, e4, h.offset, 4);
    IntBehind(c, pos, e3, h.addr, 4);
    IntBehind(c, pos, e2, h.flags, 4);
    IntBehind(c, pos, e1, h.stype, 4);
    IntThere(c, pos, h.name, 4);
  }

  lemma Shdr64(c: seq<byte>, pos: nat, h: Shdr)
    requires pos + 64 <= |c| && c[pos..pos + 64] == EncodeShdr(Elf64, h) && ShdrFits(Elf64, h)
    ensures ShdrAt(Elf64, c, pos, h)
  {
    hide LE, IntAt, Pow256, FromLE, LiesAt;
    Pow256Values();
    var e1 := LE(h.name, 4);
    var e2 := e1 + LE(h.stype, 4);
    var e3 := e2 + LE(h.flags, 8);
    var e4 := e3 + LE(h.addr, 8);
    var e5 := e4 + LE(h.offset, 8);
    var e6 := e5 + LE(h.size, 8);
    var e7 := e6 + LE(h.link, 4);
    var e8 := e7 + LE(h.info, 4);
    var e9 := e8 + LE(h.addralign, 8);
    var e10 := e9 + LE(h.entsize, 8);
    Lies(c, pos, e10);
    IntBehind(c, pos, e9, h.entsize, 8);
    IntBehind(c, pos, e8, h.addralign, 8);
    IntBehind(c, pos, e7, h.info, 4);
    IntBehind(c, pos, e6, h.link, 4);
    IntBehind(c, pos, e5, h.size, 8);
    IntBehind(c, pos, e4, h.offset, 8);
    IntBehind(c, pos, e3, h.addr, 8);
    IntBehind(c, pos, e2, h.flags, 8);
    IntBehind(c, pos, e1, h.stype, 4);
    IntThere(c, pos, h.name, 4);
  }

  lemma Phdr32(c: seq<byte>, pos: nat, p: Phdr)
    requires pos + 32 <= |c| && c[pos..pos + 32] == EncodePhdr(Elf32, p) && PhdrFits(Elf32, p)
    ensures PhdrAt(Elf32, c, pos, p)
  {
    hide LE, IntAt, Pow256, FromLE, LiesAt;
    Pow256Values();
    var e1 := LE(p.ptype, 4);
    var e2 := e1 + LE(p.offset, 4);
    var e3 := e2 + LE(p.vaddr, 4);
    var e4 := e3 + LE(p.paddr, 4);
    var e5 := e4 + LE(p.filesz, 4);
    var e6 := e5 + LE(p.memsz, 4);
    var e7 := e6 + LE(p.flags, 4);
    var e8 := e7 + LE(p.align, 4);
    Lies(c, pos, e8);
    IntBehind(c, pos, e7, p.align, 4);
    IntBehind(c, pos, e6, p.flags, 4);
    IntBehind(c, pos, e5, p.memsz, 4);
    IntBehind(c, pos, e4, p.filesz, 4);
    IntBehind(c, pos, e3, p.paddr, 4);
    IntBehind(c, pos, e2, p.vaddr, 4);
    IntBehind(c, pos, e1, p.offset, 4);
    IntThere(c, pos, p.ptype, 4);
  }

  lemma Phdr64(c: seq<byte>, pos: nat, p: Phdr)
    requires pos + 56 <= |c| && c[pos..pos + 56] == EncodePhdr(Elf64, p) && PhdrFits(Elf64, p)
    ensures PhdrAt(Elf64, c, pos, p)
  {
    hide LE, IntAt, Pow256, FromLE, LiesAt;
    Pow256Values();
    var e1 := LE(p.ptype, 4);
    var e2 := e1 + LE(p.flags, 4);
    var e3 := e2 + LE(p.offset, 8);
    var e4 := e3 + LE(p.vaddr, 8);
    var e5 := e4 + LE(p.paddr, 8);
    var e6 := e5 + LE(p.filesz, 8);
    var e7 := e6 + LE(p.memsz, 8);
    var e8 := e7 + LE(p.align, 8);
    Lies(c, pos, e8);
    IntBehind(c, pos, e7, p.align, 8);
    IntBehind(c, pos, e6, p.memsz, 8);
    IntBehind(c, pos, e5, p.filesz, 8);
    IntBehind(c, pos, e4, p.paddr, 8);
    IntBehind(c, pos, e3, p.vaddr, 8);
    IntBehind(c, pos, e2, p.offset, 8);
    IntBehind(c, pos, e1, p.flags, 4);
    IntThere(c, pos, p.ptype, 4);
  }

  // ---------------------------------------------------------------- the tables

  lemma {:induction false} ShdrInTable(cls: ElfClass, ss: seq<Shdr>, i: nat)
    requires i < |ss|
    ensures LiesAt(EncodeShdrs(cls, ss), i * (if cls.Elf32? then 40 else 64), EncodeShdr(cls, ss[i]))
    decreases |ss|
  {
    hide EncodeShdr;
    var n := |ss| - 1;
    var front, last := EncodeShdrs(cls, ss[..n]), EncodeShdr(cls, ss[n]);
    if i < n {
      ShdrInTable(cls, ss[..n], i);
      SliceOfFront(front, last, i * cls.ShdrSize(), cls.ShdrSize());
    } else {
      SliceOfBack(front, last);
    }
  }

  lemma {:induction false} PhdrInTable(cls: ElfClass, ps: seq<Phdr>, i: nat)
    requires i < |ps|
    ensures LiesAt(EncodePhdrs(cls, ps), i * (if cls.Elf32? then 32 else 56), EncodePhdr(cls, ps[i]))
    decreases |ps|
  {
    hide EncodePhdr;
    var n := |ps| - 1;
    var front, last := EncodePhdrs(cls, ps[..n]), EncodePhdr(cls, ps[n]);
    if i < n {
      PhdrInTable(cls, ps[..n], i);
      SliceOfFront(front, last, i * cls.PhdrSize(), cls.PhdrSize());
    } else {
      SliceOfBack(front, last);
    }
  }

  lemma EntryOfTable(c: seq<byte>, off: nat, d: seq<byte>, k: nat, e: seq<byte>)
    requires Holds(c, off, d) && LiesAt(d, k, e)
    ensures LiesAt(c, off + k, e)
  {
    SubSlice(c, off, |d|, k, |e|);
  }

  lemma ShdrReads(t: State, i: nat)
    requires 1 <= i < |t.shdrs| && ShdrFits(t.cfg.cls, t.shdrs[i])
    requires Holds(t.contents, t.hdr.shoff + t.cfg.cls.ShdrSize(), EncodeShdrs(t.cfg.cls, t.shdrs[1..]))
    ensures ShdrAt(t.cfg.cls, t.contents, t.hdr.shoff + i * (if t.cfg.cls.Elf32? then 40 else 64), t.shdrs[i])
  {
    hide EncodeShdr, EncodeShdrs, ShdrAt, Holds;
    var cls := t.cfg.cls;
    ShdrInTable(cls, t.shdrs[1..], i - 1);
    EntryOfTable(t.contents, t.hdr.shoff + cls.ShdrSize(), EncodeShdrs(cls, t.shdrs[1..]), (i - 1) * cls.ShdrSize(),
                 EncodeShdr(cls, t.shdrs[i]));
    if cls.Elf32? {
      Shdr32(t.contents, t.hdr.shoff + i * 40, t.shdrs[i]);
    } else {
      Shdr64(t.contents, t.hdr.shoff + i * 64, t.shdrs[i]);
    }
  }

  lemma PhdrReads(t: State, i: nat)
    requires i < |t.phdrs| && PhdrFits(t.cfg.cls, t.phdrs[i])
    requires Holds(t.contents, t.hdr.phoff, EncodePhdrs(t.cfg.cls, t.phdrs))
    ensures PhdrAt(t.cfg.cls, t.contents, t.hdr.phoff + i * (if t.cfg.cls.Elf32? then 32 else 56), t.phdrs[i])
  {
    hide EncodePhdr, EncodePhdrs, PhdrAt, Holds;
    var cls := t.cfg.cls;
    PhdrInTable(cls, t.phdrs, i);
    EntryOfTable(t.contents, t.hdr.phoff, EncodePhdrs(cls, t.phdrs), i * cls.PhdrSize(), EncodePhdr(cls, t.phdrs[i]));
    if cls.Elf32? {
      Phdr32(t.contents, t.hdr.phoff + i * 32, t.phdrs[i]);
    } else {
      Phdr64(t.contents, t.hdr.phoff + i * 56, t.phdrs[i]);
    }
  }

  /** Tables that hold the headers read as the headers. */
  lemma HeldTablesRead(t: State)
    requires |t.shdrs| >= 1 && HeadersFit(t)
    requires Holds(t.contents, t.hdr.phoff, EncodePhdrs(t.cfg.cls, t.phdrs))
    requires Holds(t.contents, t.hdr.shoff + t.cfg.cls.ShdrSize(), EncodeShdrs(t.cfg.cls, t.shdrs[1..]))
    ensures TablesRead(t)
  {
    hide ShdrAt, PhdrAt, ShdrFits, PhdrFits, EncodePhdrs, EncodeShdrs, Holds;
    forall i | 1 <= i < |t.shdrs|
      ensures ShdrAt(t.cfg.cls, t.contents, t.hdr.shoff + i * (if t.cfg.cls.Elf32? then 40 else 64), t.shdrs[i])
    {
      ShdrReads(t, i);
    }
    forall i | 0 <= i < |t.phdrs|
      ensures PhdrAt(t.cfg.cls, t.contents, t.hdr.phoff + i * (if t.cfg.cls.Elf32? then 32 else 56), t.phdrs[i])
    {
      PhdrReads(t, i);
    }
  }

  lemma RewrittenTablesRead(s: State, t: State, phdrAddress: nat)
    requires HeadersRewritten(s, t, phdrAddress)
    ensures HeadersFit(t) ==> TablesRead(t)
  {
    hide TablesRead, HeadersFit, WellFormed, Repaired, EncodePhdrs, EncodeShdrs, Holds;
    if HeadersFit(t) {
      HeldTablesRead(t);
    }
  }

  lemma TablesInFileRead(t: State)
    requires TablesInFile(t)
    ensures HeadersFit(t) ==> TablesRead(t)
  {
    hide TablesRead, HeadersFit, EncodePhdrs, EncodeShdrs, Holds;
    if HeadersFit(t) {
      HeldTablesRead(t);
    }
  }

  // ---------------------------------------------------------------- names and numbers

  /** The bytes of a string of ASCII characters. */
  function Ascii(s: string): (bs: seq<byte>)
    ensures |bs| == |s|
  {
    if s == "" then [] else Ascii(s[..|s| - 1]) + [s[|s| - 1] as int % 0x80]
  }

  lemma {:induction false} AsciiAt(s: string, bs: seq<byte>)
    requires |bs| == |s| && forall i :: 0 <= i < |s| ==> bs[i] as int == s[i] as int < 0x80
    ensures Ascii(s) == bs
  {
    if s != "" {
      AsciiAt(s[..|s| - 1], bs[..|s| - 1]);
    }
  }

  /** The sections that are edited or that segments cover. */
  lemma EditedNames()
    ensures INTERP == Ascii(".interp") && DYNAMIC == Ascii(".dynamic") && DYNSTR == Ascii(".dynstr") && DYNSYM == Ascii(".dynsym")
  {
    hide Ascii;
    AsciiAt(".interp", INTERP);
    AsciiAt(".dynamic", DYNAMIC);
    AsciiAt(".dynstr", DYNSTR);
    AsciiAt(".dynsym", DYNSYM);
  }

  /** The sections that dynamic entries refer to. */
  lemma ReferredNames()
    ensures HASH == Ascii(".hash") && GNU_HASH == Ascii(".gnu.hash") && VERSION_R == Ascii(".gnu.version_r") && VERSION == Ascii(".gnu.version")
  {
    hide Ascii;
    AsciiAt(".hash", HASH);
    AsciiAt(".gnu.hash", GNU_HASH);
    AsciiAt(".gnu.version_r", VERSION_R);
    AsciiAt(".gnu.version", VERSION);
  }

  /** The relocation sections that dynamic entries refer to. */
  lemma RelocationNames()
    ensures REL_PLT == Ascii(".rel.plt") && RELA_PLT == Ascii(".rela.plt") && RELA_PLTOFF == Ascii(".rela.IA_64.pltoff")
    ensures REL_DYN == Ascii(".rel.dyn") && REL_GOT == Ascii(".rel.got") && RELA_DYN == Ascii(".rela.dyn")
  {
    hide Ascii;
    AsciiAt(".rel.plt", REL_PLT);
    AsciiAt(".rela.plt", RELA_PLT);
    AsciiAt(".rela.IA_64.pltoff", RELA_PLTOFF);
    AsciiAt(".rel.dyn", REL_DYN);
    AsciiAt(".rel.got", REL_GOT);
    AsciiAt(".rela.dyn", RELA_DYN);
  }

  /** What the type of a section means for the rewriter: all but NOBITS (8) have bytes in the file, REL (9) and RELA (4) have `info`, and SYMTAB (2) and DYNSYM (11) hold symbols. */
  lemma KindsOfSections(h: Shdr)
    ensures h.FileBacked() <==> h.stype != 8
    ensures h.Relocations() <==> h.stype == 9 || h.stype == 4
    ensures h.SymbolTable() <==> h.stype == 2 || h.stype == 11
  {
  }

  /** The numbers of the gABI and the GNU extensions that decide what happens to a header, a symbol or a dynamic entry. */
  lemma Numbers()
    ensures ET_EXEC == 2 && ET_DYN == 3 && PT_LOAD == 1 && PT_DYNAMIC == 2 && PT_INTERP == 3 && PT_PHDR == 6 && PF_R_PF_W == 4 + 2
    ensures SHT_PROGBITS == 1 && SHT_SYMTAB == 2 && SHT_RELA == 4 && SHT_NOBITS == 8 && SHT_REL == 9 && SHT_DYNSYM == 11
    ensures SHN_UNDEF == 0 && SHN_LORESERVE == 0xff00 && STT_SECTION == 3
    ensures DT_NULL == 0 && DT_NEEDED == 1 && DT_HASH == 4 && DT_STRTAB == 5 && DT_SYMTAB == 6 && DT_RELA == 7 && DT_STRSZ == 10
    ensures DT_RPATH == 15 && DT_REL == 17 && DT_JMPREL == 23 && DT_RUNPATH == 29
    ensures DT_GNU_HASH == 0x6ffffef5 && DT_VERSYM == 0x6ffffff0 && DT_VERNEED == 0x6ffffffe && DT_IGNORE == 0x726e67
  {
  }
}
