/** The ELF structures the rewriter handles, in both the 32-bit and the 64-bit format. */
module ElfTypes {
  import opened Bytes

  /** The two instances of the rewriter's template. */
  datatype ElfClass = Elf32 | Elf64 {
    function EhdrSize(): nat { if Elf32? then 52 else 64 }
    function PhdrSize(): nat { if Elf32? then 32 else 56 }
    function ShdrSize(): nat { if Elf32? then 40 else 64 }
    function DynSize(): nat { if Elf32? then 8 else 16 }
    function SymSize(): nat { if Elf32? then 16 else 24 }
    // `sizeof(Elf_Off)`, which is also the width of an address and of the section alignment.
    function OffSize(): nat { if Elf32? then 4 else 8 }
    /** Addresses are computed modulo this. */
    function AddrModulus(): nat { if Elf32? then 0x1_0000_0000 else 0x1_0000_0000_0000_0000 }
    /** An address computation in `Elf_Addr`. */
    function Wrap(x: int): (a: nat)
      ensures a < AddrModulus()
    {
      Reduce(x, AddrModulus())
    }
    /** A size rounded up to the section alignment. */
    function Align(n: nat): nat { if Elf32? then RoundUp(n, 4) else RoundUp(n, 8) }
  }

  const ET_EXEC := 2
  const ET_DYN := 3
  const PT_LOAD := 1
  const PT_DYNAMIC := 2
  const PT_INTERP := 3
  const PT_PHDR := 6
  const PF_R_PF_W := 6
  const SHT_PROGBITS := 1
  const SHT_SYMTAB := 2
  const SHT_RELA := 4
  const SHT_NOBITS := 8
  const SHT_REL := 9
  const SHT_DYNSYM := 11
  const SHN_UNDEF := 0
  const SHN_LORESERVE := 0xff00
  const STT_SECTION := 3
  const DT_NULL := 0
  const DT_NEEDED := 1
  const DT_HASH := 4
  const DT_STRTAB := 5
  const DT_SYMTAB := 6
  const DT_RELA := 7
  const DT_STRSZ := 10
  const DT_RPATH := 15
  const DT_REL := 17
  const DT_JMPREL := 23
  const DT_RUNPATH := 29
  const DT_GNU_HASH := 0x6ffffef5
  const DT_VERSYM := 0x6ffffff0
  const DT_VERNEED := 0x6ffffffe
  const DT_IGNORE := 0x00726e67

  // What the old contents of changed strings and sections are overwritten with: 'X'.
  const FILL: byte := 0x58

  type Name = seq<byte>

  const INTERP: Name := [0x2e, 0x69, 0x6e, 0x74, 0x65, 0x72, 0x70]                            // .interp
  const DYNAMIC: Name := [0x2e, 0x64, 0x79, 0x6e, 0x61, 0x6d, 0x69, 0x63]                     // .dynamic
  const DYNSTR: Name := [0x2e, 0x64, 0x79, 0x6e, 0x73, 0x74, 0x72]                            // .dynstr
  const DYNSYM: Name := [0x2e, 0x64, 0x79, 0x6e, 0x73, 0x79, 0x6d]                            // .dynsym
  const HASH: Name := [0x2e, 0x68, 0x61, 0x73, 0x68]                                          // .hash
  const GNU_HASH: Name := [0x2e, 0x67, 0x6e, 0x75, 0x2e, 0x68, 0x61, 0x73, 0x68]              // .gnu.hash
  const REL_PLT: Name := [0x2e, 0x72, 0x65, 0x6c, 0x2e, 0x70, 0x6c, 0x74]                     // .rel.plt
  const RELA_PLT: Name := [0x2e, 0x72, 0x65, 0x6c, 0x61, 0x2e, 0x70, 0x6c, 0x74]              // .rela.plt
  const RELA_PLTOFF: Name := [0x2e, 0x72, 0x65, 0x6c, 0x61, 0x2e, 0x49, 0x41, 0x5f, 0x36, 0x34,
                              0x2e, 0x70, 0x6c, 0x74, 0x6f, 0x66, 0x66]                       // .rela.IA_64.pltoff
  const REL_DYN: Name := [0x2e, 0x72, 0x65, 0x6c, 0x2e, 0x64, 0x79, 0x6e]                     // .rel.dyn
  const REL_GOT: Name := [0x2e, 0x72, 0x65, 0x6c, 0x2e, 0x67, 0x6f, 0x74]                     // .rel.got
  const RELA_DYN: Name := [0x2e, 0x72, 0x65, 0x6c, 0x61, 0x2e, 0x64, 0x79, 0x6e]              // .rela.dyn
  const VERSION_R: Name := [0x2e, 0x67, 0x6e, 0x75, 0x2e, 0x76, 0x65, 0x72, 0x73, 0x69, 0x6f, 0x6e,
                            0x5f, 0x72]                                                       // .gnu.version_r
  const VERSION: Name := [0x2e, 0x67, 0x6e, 0x75, 0x2e, 0x76, 0x65, 0x72, 0x73, 0x69, 0x6f, 0x6e] // .gnu.version

  /** The fields of the ELF header that the rewriter uses. */
  datatype Ehdr = Ehdr(etype: nat, phoff: nat, shoff: nat, phnum: nat, shentsize: nat, shnum: nat, shstrndx: nat)

  datatype Phdr = Phdr(ptype: nat, offset: nat, vaddr: nat, paddr: nat, filesz: nat, memsz: nat, flags: nat, align: nat)

  datatype Shdr = Shdr(name: nat, stype: nat, flags: nat, addr: nat, offset: nat, size: nat,
                       link: nat, info: nat, addralign: nat, entsize: nat)
  {
    /** Whether the section has bytes in the file. */
    predicate FileBacked() { stype != SHT_NOBITS }

    predicate Relocations() { stype == SHT_REL || stype == SHT_RELA }

    predicate SymbolTable() { stype == SHT_SYMTAB || stype == SHT_DYNSYM }
  }

  /** A program header as it lies in the file. */
  function EncodePhdr(cls: ElfClass, p: Phdr): (bs: seq<byte>)
    ensures |bs| == cls.PhdrSize()
  {
    if cls.Elf32? then
      LE(p.ptype, 4) + LE(p.offset, 4) + LE(p.vaddr, 4) + LE(p.paddr, 4)
      + LE(p.filesz, 4) + LE(p.memsz, 4) + LE(p.flags, 4) + LE(p.align, 4)
    else
      LE(p.ptype, 4) + LE(p.flags, 4) + LE(p.offset, 8) + LE(p.vaddr, 8)
      + LE(p.paddr, 8) + LE(p.filesz, 8) + LE(p.memsz, 8) + LE(p.align, 8)
  }

  /** A section header as it lies in the file. */
  function EncodeShdr(cls: ElfClass, s: Shdr): (bs: seq<byte>)
    ensures |bs| == cls.ShdrSize()
  {
    var w := cls.OffSize();
    LE(s.name, 4) + LE(s.stype, 4) + LE(s.flags, w) + LE(s.addr, w) + LE(s.offset, w) + LE(s.size, w)
    + LE(s.link, 4) + LE(s.info, 4) + LE(s.addralign, w) + LE(s.entsize, w)
  }

  /** One more entry makes a table one entry size longer. */
  lemma TableStep(n: nat, entrySize: nat)
    ensures (n + 1) * entrySize == n * entrySize + entrySize
  {
  }

  /** The table of the program headers. */
  function EncodePhdrs(cls: ElfClass, ps: seq<Phdr>): (bs: seq<byte>)
    ensures |bs| == |ps| * cls.PhdrSize()
  {
    if ps == [] then []
    else
      TableStep(|ps| - 1, cls.PhdrSize());
      EncodePhdrs(cls, ps[..|ps| - 1]) + EncodePhdr(cls, ps[|ps| - 1])
  }

  /** The table of the section headers. */
  function EncodeShdrs(cls: ElfClass, ss: seq<Shdr>): (bs: seq<byte>)
    ensures |bs| == |ss| * cls.ShdrSize()
  {
    if ss == [] then []
    else
      TableStep(|ss| - 1, cls.ShdrSize());
      EncodeShdrs(cls, ss[..|ss| - 1]) + EncodeShdr(cls, ss[|ss| - 1])
  }

  lemma {:induction false} EncodePhdrsPrefix(cls: ElfClass, ps: seq<Phdr>, i: nat)
    requires i <= |ps|
    ensures |EncodePhdrs(cls, ps[..i])| <= |EncodePhdrs(cls, ps)|
    decreases |ps| - i
  {
    hide EncodePhdr;
    if i < |ps| {
      EncodePhdrsPrefix(cls, ps, i + 1);
      assert ps[..i + 1][..i] == ps[..i];
    } else {
      assert ps[..i] == ps;
    }
  }

  lemma {:induction false} EncodeShdrsPrefix(cls: ElfClass, ss: seq<Shdr>, i: nat)
    requires i <= |ss|
    ensures |EncodeShdrs(cls, ss[..i])| <= |EncodeShdrs(cls, ss)|
    decreases |ss| - i
  {
    hide EncodeShdr;
    if i < |ss| {
      EncodeShdrsPrefix(cls, ss, i + 1);
      assert ss[..i + 1][..i] == ss[..i];
    } else {
      assert ss[..i] == ss;
    }
  }

  /** `roundUp` on 32-bit unsigned integers; the argument is truncated on the way in. */
  function RoundUp(n: nat, m: nat): nat
    requires 0 < m < 0x1_0000_0000
  {
    ((n % 0x1_0000_0000 - 1) % 0x1_0000_0000 / m + 1) * m % 0x1_0000_0000
  }

  /** Unsigned wrap-around: the number below `m` that differs from `x` by a multiple of `m`. */
  function Reduce(x: int, m: nat): (r: nat)
    requires m > 0
    ensures r < m
    decreases if x < 0 then m - x else x
  {
    if x < 0 then Reduce(x + m, m) else if x < m then x else Reduce(x - m, m)
  }

  /** `m` is a power of two that a 32-bit integer can hold. */
  predicate PowerOfTwo(m: nat): (r: bool)
    ensures r ==> m > 0
    decreases m
  {
    m == 1 || (m >= 2 && m % 2 == 0 && PowerOfTwo(m / 2))
  }
}
