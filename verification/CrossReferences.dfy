/** Every reference between parts of the file still refers to the same thing after a rewrite. */
module CrossReferences {
  import opened Bytes
  import opened ElfTypes
  import opened Image
  import opened Layout
  import opened Carrying
  import opened Patching
  import opened Headers
  import opened Rewriting
  import opened Formats
  import S = Sections

  /** The names recorded when the file was parsed are those of its sections. */
  predicate NamesRecorded(s: State) {
    && |s.cfg.oldNames| == |s.shdrs|
    && forall k :: 1 <= k < |s.shdrs| ==> s.cfg.oldNames[k] == S.NameOf(s.cfg.tab, s.shdrs[k])
  }

  // ---------------------------------------------------------------- symbols and dynamic entries in the numbers of the gABI

  function SymbolSize(cls: ElfClass): nat { if cls.Elf32? then 16 else 24 }

  /** The section index of the symbol at `pos`. */
  function StShndx(cls: ElfClass, c: seq<byte>, pos: nat): nat
    requires pos + SymbolSize(cls) <= |c|
  {
    IntAt(c, if cls.Elf32? then pos + 14 else pos + 6, 2)
  }

  /** Its type, the low half of `st_info`. */
  function StType(cls: ElfClass, c: seq<byte>, pos: nat): nat
    requires pos + SymbolSize(cls) <= |c|
  {
    IntAt(c, if cls.Elf32? then pos + 12 else pos + 4, 1) % 16
  }

  function StValue(cls: ElfClass, c: seq<byte>, pos: nat): nat
    requires pos + SymbolSize(cls) <= |c|
  {
    if cls.Elf32? then IntAt(c, pos + 4, 4) else IntAt(c, pos + 8, 8)
  }

  function EntrySize(cls: ElfClass): nat { if cls.Elf32? then 8 else 16 }

  /** The tag of the dynamic entry at `pos`, as far as it is looked at. */
  function TagAt(cls: ElfClass, c: seq<byte>, pos: nat): nat
    requires pos + EntrySize(cls) <= |c|
  {
    if cls.Elf32? then IntAt(c, pos, 4) else IntAt(c, pos, 8) % 0x1_0000_0000
  }

  function ValAt(cls: ElfClass, c: seq<byte>, pos: nat): nat
    requires pos + EntrySize(cls) <= |c|
  {
    if cls.Elf32? then IntAt(c, pos + 4, 4) else IntAt(c, pos + 8, 8)
  }

  /** The symbol at `pos` of the table `b` of `t` is the one of the table `a` of `s`: it is in the same section, and the symbol of a section (type 3) has the address of that section. */
  predicate SymbolKept(s: State, t: State, a: seq<byte>, b: seq<byte>, pos: nat)
    requires |a| == |b| && pos + SymbolSize(s.cfg.cls) <= |a|
  {
    var cls := s.cfg.cls;
    var k, m := StShndx(cls, a, pos), StShndx(cls, b, pos);
    if 0 < k < 0xff00 && k < |s.shdrs| then
      && StType(cls, b, pos) == StType(cls, a, pos)
      && 1 <= m < |t.shdrs|
      && S.NameOf(s.cfg.tab, t.shdrs[m]) == S.NameOf(s.cfg.tab, s.shdrs[k])
      && StValue(cls, b, pos) == (if StType(cls, a, pos) == 3 then t.shdrs[m].addr else StValue(cls, a, pos))
    else b[pos..pos + SymbolSize(cls)] == a[pos..pos + SymbolSize(cls)]
  }

  /** The symbol tables `a` of `s` and `b` of `t` have the same symbols. */
  ghost predicate SymbolsKept(s: State, t: State, a: seq<byte>, b: seq<byte>) {
    |a| == |b| && forall i: nat :: (i + 1) * SymbolSize(s.cfg.cls) <= |a| ==> SymbolKept(s, t, a, b, i * SymbolSize(s.cfg.cls))
  }

  /** An entry that must hold the address of the section called `n`. */
  predicate Addresses(t: State, n: Name, e: Dyn) {
    t.Has(n) && e.val == t.Sec(n).addr
  }

  /** The entry `b` is the entry `a` with its reference, if it has one, made to agree with the headers of `t`. */
  predicate EntryKept(t: State, a: Dyn, b: Dyn) {
    && b.tag == a.tag
    && (a.tag == 5 ==> Addresses(t, DYNSTR, b))
    && (a.tag == 10 ==> t.Has(DYNSTR) && b.val == t.Sec(DYNSTR).size)
    && (a.tag == 6 ==> Addresses(t, DYNSYM, b))
    && (a.tag == 4 ==> Addresses(t, HASH, b))
    && (a.tag == 0x6ffffef5 ==> Addresses(t, GNU_HASH, b))
    && (a.tag == 0x6ffffffe ==> Addresses(t, VERSION_R, b))
    && (a.tag == 0x6ffffff0 ==> Addresses(t, VERSION, b))
    && (a.tag == 23 ==>
          if t.Has(REL_PLT) then Addresses(t, REL_PLT, b)
          else if t.Has(RELA_PLT) then Addresses(t, RELA_PLT, b)
          else Addresses(t, RELA_PLTOFF, b))
    && (a.tag == 17 ==>
          if t.Has(REL_DYN) then Addresses(t, REL_DYN, b)
          else if t.Has(REL_GOT) then Addresses(t, REL_GOT, b)
          else b.val == a.val)
    && (a.tag == 7 ==> if t.Has(RELA_DYN) then Addresses(t, RELA_DYN, b) else b.val == a.val)
    && (a.tag !in {4, 5, 6, 7, 10, 17, 23, 0x6ffffef5, 0x6ffffff0, 0x6ffffffe} ==> b.val == a.val)
  }

  /** No entry in front of the one at index `i` ends the table. */
  predicate NoneEnds(cls: ElfClass, d: seq<byte>, i: nat) {
    forall j: nat :: j < i && (j + 1) * EntrySize(cls) <= |d| ==> TagAt(cls, d, j * EntrySize(cls)) != 0
  }

  /** The dynamic sections `a` and `b` end at the same entry, and have the same entries up to it. */
  ghost predicate EntriesKept(t: State, a: seq<byte>, b: seq<byte>) {
    var cls := t.cfg.cls;
    && |a| == |b|
    && forall i: nat :: (i + 1) * EntrySize(cls) <= |a| && NoneEnds(cls, a, i) ==>
         var pos := i * EntrySize(cls);
         if TagAt(cls, a, pos) == 0 then TagAt(cls, b, pos) == 0
         else EntryKept(t, Dyn(TagAt(cls, a, pos), ValAt(cls, a, pos)), Dyn(TagAt(cls, b, pos), ValAt(cls, b, pos)))
  }

  lemma {:induction false} SymbolsAre(cls: ElfClass, d: seq<byte>, i: nat)
    requires (i + 1) * SymbolSize(cls) <= |d|
    ensures i < |Symbols(cls, d)| && Symbols(cls, d)[i] == d[i * SymbolSize(cls)..i * SymbolSize(cls) + SymbolSize(cls)]
    decreases i
  {
    var sz := SymbolSize(cls);
    if i > 0 {
      SymbolsAre(cls, d[sz..], i - 1);
      SuffixSlice(d, sz, (i - 1) * sz, sz);
    }
  }

  /** The entries are those that lie one after the other up to the one that ends the table. */
  lemma {:induction false} EntriesAre(cls: ElfClass, d: seq<byte>, i: nat)
    requires (i + 1) * EntrySize(cls) <= |d| && NoneEnds(cls, d, i)
    ensures var pos := i * EntrySize(cls);
      if TagAt(cls, d, pos) == 0 then |Entries(cls, d)| == i
      else i < |Entries(cls, d)| && Entries(cls, d)[i] == Dyn(TagAt(cls, d, pos), ValAt(cls, d, pos))
    decreases i
  {
    hide TagAt, ValAt, DynTag, DynVal;
    var sz := EntrySize(cls);
    EntryInFront(cls, d);
    if i > 0 {
      assert TagAt(cls, d, 0 * sz) != 0;
      EntryBehind(cls, d, i);
      NoneEndsBehind(cls, d, i);
      EntriesAre(cls, d[sz..], i - 1);
    }
  }

  lemma EntryInFront(cls: ElfClass, d: seq<byte>)
    requires EntrySize(cls) <= |d|
    ensures TagAt(cls, d, 0) == DynTag(cls, d) && ValAt(cls, d, 0) == DynVal(cls, d)
  {
    hide FromLE;
    assert d[0..cls.OffSize()] == d[..cls.OffSize()];
    assert cls.Elf32? ==> DynTag(cls, d) == FromLE(d[0..4]) by {
      LEOfFromLE(d[0..4]);
      Pow256Values();
    }
  }

  lemma NoneEndsBehind(cls: ElfClass, d: seq<byte>, i: nat)
    requires i > 0 && (i + 1) * EntrySize(cls) <= |d| && NoneEnds(cls, d, i)
    ensures NoneEnds(cls, d[EntrySize(cls)..], i - 1)
  {
    hide TagAt, ValAt;
    var sz := EntrySize(cls);
    forall j: nat | j < i - 1 && (j + 1) * sz <= |d[sz..]| ensures TagAt(cls, d[sz..], j * sz) != 0 {
      EntryBehind(cls, d, j + 1);
      assert TagAt(cls, d, (j + 1) * sz) != 0;
    }
  }

  lemma EntryBehind(cls: ElfClass, d: seq<byte>, i: nat)
    requires i > 0 && (i + 1) * EntrySize(cls) <= |d|
    ensures var sz := EntrySize(cls);
      && TagAt(cls, d[sz..], (i - 1) * sz) == TagAt(cls, d, i * sz) && ValAt(cls, d[sz..], (i - 1) * sz) == ValAt(cls, d, i * sz)
  {
    hide FromLE;
    var sz := EntrySize(cls);
    var w := sz / 2;
    var p := (i - 1) * sz;
    SuffixSlice(d, sz, p, w);
    SuffixSlice(d, sz, p + w, w);
  }

  /** The values in the headers still fit their fields. */
  lemma StillFits(s: State, t: State, rs: seq<Replacement>, shift: nat, a: nat, b: nat, startAddr: nat, startOffset: nat)
    requires FieldsFit(s) && Rewritten(s, t, rs, shift, a, b, startAddr, startOffset)
    ensures FieldsFit(t)
  {
    hide S.Sortable, SectionsApart, TableApart, TablesInFile, ContentsPreserved, SameReferences;
    forall n | t.Has(n) ensures t.Sec(n).addr < t.cfg.cls.AddrModulus() && t.Sec(n).size < t.cfg.cls.AddrModulus() {
      assert s.Has(n);
      if Keyed(rs, n) {
        assert t.Backed(n);
      } else {
        assert Core(t.Sec(n)) == Core(s.Sec(n));
      }
    }
  }

  lemma StillKnown(s: State, t: State, k: nat)
    requires S.DistinctNames(s.cfg.tab, s.shdrs) && NamesRecorded(s) && ReferencesPreserved(s, t)
    requires 1 <= k < |s.cfg.oldNames|
    ensures t.Has(s.cfg.oldNames[k])
  {
    S.FindOwnName(s.cfg.tab, s.shdrs, k);
    assert s.Has(s.cfg.oldNames[k]);
  }

  lemma SameSymbolIsKept(s: State, t: State, a: seq<byte>, b: seq<byte>, pos: nat)
    requires NamesRecorded(s) && t.cfg == s.cfg && |a| == |b| && pos + SymbolSize(s.cfg.cls) <= |a|
    requires SameSymbol(t, a[pos..pos + SymbolSize(s.cfg.cls)], b[pos..pos + SymbolSize(s.cfg.cls)])
    ensures SymbolKept(s, t, a, b, pos)
  {
    hide S.CString, IntAt;
    SymbolRead(s.cfg.cls, a, pos);
    SymbolRead(s.cfg.cls, b, pos);
  }

  lemma SymbolRead(cls: ElfClass, c: seq<byte>, pos: nat)
    requires pos + SymbolSize(cls) <= |c|
    ensures var e := c[pos..pos + SymbolSize(cls)];
      SymShndx(cls, e) == StShndx(cls, c, pos) && SymType(cls, e) == StType(cls, c, pos) && SymValue(cls, e) == StValue(cls, c, pos)
  {
    hide FromLE;
    var e := c[pos..pos + SymbolSize(cls)];
    if cls.Elf32? {
      SubSlice(c, pos, 16, 14, 2);
      SubSlice(c, pos, 16, 4, 4);
      OneByte(c[pos + 12..pos + 13]);
    } else {
      SubSlice(c, pos, 24, 6, 2);
      SubSlice(c, pos, 24, 8, 8);
      OneByte(c[pos + 4..pos + 5]);
    }
  }

  lemma OneByte(bs: seq<byte>)
    requires |bs| == 1
    ensures FromLE(bs) == bs[0] as nat
  {
  }

  /** Every symbol is in the section it was in. */
  lemma SymbolsSurvive(s: State, t: State, rs: seq<Replacement>, shift: nat, a: nat, b: nat, startAddr: nat, startOffset: nat, n: Name)
    requires S.DistinctNames(s.cfg.tab, s.shdrs) && FieldsFit(s) && NamesRecorded(s)
    requires Rewritten(s, t, rs, shift, a, b, startAddr, startOffset)
    requires s.Backed(n) && n != DYNAMIC && s.Sec(n).stype in {2, 11}
    ensures s.InBuffer(n) && t.Backed(n) && t.InBuffer(n) && SymbolsKept(s, t, Current(s, n), t.Content(n))
  {
    hide S.Sortable, SameReferences, PatchSymtab, SymbolKept, SameSymbol, NamesRecorded, FieldsFit, TablesInFile, SectionsInFile,
         SectionsApart, TableApart, OthersMove, ReplacedLieIn, Symbols, SymbolsKept;
    StillFits(s, t, rs, shift, a, b, startAddr, startOffset);
    forall k | 1 <= k < |s.cfg.oldNames| ensures t.Has(s.cfg.oldNames[k]) {
      StillKnown(s, t, k);
    }
    var d := Current(s, n);
    assert t.Content(n) == Repaired(t, n, d) == PatchSymtab(t, d);
    PatchedSymbols(t, d);
    SymbolsKeptIntro(s, t, d, t.Content(n));
  }

  lemma SymbolsKeptIntro(s: State, t: State, a: seq<byte>, b: seq<byte>)
    requires NamesRecorded(s) && t.cfg == s.cfg && |a| == |b|
    requires var x, y := Symbols(s.cfg.cls, a), Symbols(s.cfg.cls, b);
      |x| == |y| && forall i :: 0 <= i < |x| ==> SameSymbol(t, x[i], y[i])
    ensures SymbolsKept(s, t, a, b)
  {
    hide SymbolKept, SameSymbol, NamesRecorded, Symbols;
    var cls := s.cfg.cls;
    forall i: nat | (i + 1) * SymbolSize(cls) <= |a| ensures SymbolKept(s, t, a, b, i * SymbolSize(cls)) {
      SymbolsAre(cls, a, i);
      SymbolsAre(cls, b, i);
      assert SameSymbol(t, Symbols(cls, a)[i], Symbols(cls, b)[i]);
      SameSymbolIsKept(s, t, a, b, i * SymbolSize(cls));
    }
  }

  /** Every entry of the dynamic section agrees with the headers. */
  lemma EntriesSurvive(s: State, t: State, rs: seq<Replacement>, shift: nat, a: nat, b: nat, startAddr: nat, startOffset: nat)
    requires FieldsFit(s) && Rewritten(s, t, rs, shift, a, b, startAddr, startOffset)
    requires s.Backed(DYNAMIC) && s.Sec(DYNAMIC).stype !in {2, 11}
    ensures s.InBuffer(DYNAMIC) && t.Backed(DYNAMIC) && t.InBuffer(DYNAMIC)
    ensures EntriesKept(t, Current(s, DYNAMIC), t.Content(DYNAMIC))
  {
    hide S.Sortable, SameReferences, PatchDynamic, EntryKept, FieldsFit, TablesInFile, SectionsInFile,
         SectionsApart, TableApart, OthersMove, ReplacedLieIn, Entries, FixFor;
    StillFits(s, t, rs, shift, a, b, startAddr, startOffset);
    var d := Current(s, DYNAMIC);
    PatchedEntries(t, d);
    EntriesKeptIntro(t, d, t.Content(DYNAMIC));
  }

  lemma EntriesKeptIntro(t: State, a: seq<byte>, b: seq<byte>)
    requires |a| == |b| && |Entries(t.cfg.cls, a)| == |Entries(t.cfg.cls, b)|
    requires forall i :: 0 <= i < |Entries(t.cfg.cls, a)| ==>
      var x, y := Entries(t.cfg.cls, a)[i], Entries(t.cfg.cls, b)[i];
      y.tag == x.tag && !FixFor(t, x.tag).NoSection? && y.val == if FixFor(t, x.tag).SetTo? then FixFor(t, x.tag).v else x.val
    ensures EntriesKept(t, a, b)
  {
    hide EntryKept, Entries, FixFor, TagAt, ValAt, NoneEnds;
    var cls := t.cfg.cls;
    forall i: nat | (i + 1) * EntrySize(cls) <= |a| && NoneEnds(cls, a, i)
      ensures var pos := i * EntrySize(cls);
        if TagAt(cls, a, pos) == 0 then TagAt(cls, b, pos) == 0
        else EntryKept(t, Dyn(TagAt(cls, a, pos), ValAt(cls, a, pos)), Dyn(TagAt(cls, b, pos), ValAt(cls, b, pos)))
    {
      EntriesAre(cls, a, i);
      NoneEndsEither(t, a, b, i);
      EntriesAre(cls, b, i);
      if TagAt(cls, a, i * EntrySize(cls)) != 0 {
        FixedIsKept(t, Entries(cls, a)[i], Entries(cls, b)[i]);
      }
    }
  }

  lemma {:induction false} NoneEndsEither(t: State, a: seq<byte>, b: seq<byte>, i: nat)
    requires |a| == |b| && |Entries(t.cfg.cls, a)| == |Entries(t.cfg.cls, b)|
    requires (i + 1) * EntrySize(t.cfg.cls) <= |a| && NoneEnds(t.cfg.cls, a, i)
    ensures NoneEnds(t.cfg.cls, b, i)
    decreases i
  {
    hide Entries, TagAt, ValAt;
    if i > 0 {
      NoneEndsEither(t, a, b, i - 1);
      EntriesAre(t.cfg.cls, a, i - 1);
      EntriesAre(t.cfg.cls, b, i - 1);
      assert TagAt(t.cfg.cls, a, (i - 1) * EntrySize(t.cfg.cls)) != 0;
    }
  }

  lemma FixedIsKept(t: State, a: Dyn, b: Dyn)
    requires b.tag == a.tag && !FixFor(t, a.tag).NoSection?
    requires b.val == if FixFor(t, a.tag).SetTo? then FixFor(t, a.tag).v else a.val
    ensures EntryKept(t, a, b)
  {
    hide S.FindFrom;
    FirstOfThree(t, REL_PLT, RELA_PLT, RELA_PLTOFF, NoSection);
    FirstOfTwo(t, REL_DYN, REL_GOT, Unchanged);
    FirstOfOne(t, RELA_DYN, Unchanged);
  }

  lemma FirstOfOne(t: State, a: Name, otherwise: Fix)
    ensures FirstAddrOf(t, [a], otherwise) == if t.Has(a) then SetTo(t.Sec(a).addr) else otherwise
  {
    assert [a][1..] == [];
  }

  lemma FirstOfTwo(t: State, a: Name, b: Name, otherwise: Fix)
    ensures FirstAddrOf(t, [a, b], otherwise)
         == if t.Has(a) then SetTo(t.Sec(a).addr) else if t.Has(b) then SetTo(t.Sec(b).addr) else otherwise
  {
    assert [a, b][1..] == [b];
    FirstOfOne(t, b, otherwise);
  }

  lemma FirstOfThree(t: State, a: Name, b: Name, c: Name, otherwise: Fix)
    ensures FirstAddrOf(t, [a, b, c], otherwise)
         == if t.Has(a) then SetTo(t.Sec(a).addr) else if t.Has(b) then SetTo(t.Sec(b).addr)
            else if t.Has(c) then SetTo(t.Sec(c).addr) else otherwise
  {
    assert [a, b, c][1..] == [b, c];
    FirstOfTwo(t, b, c, otherwise);
  }
}
