/** An edit and the rewrite that follows it, together: what was set is what a later run reads. */
module Surviving {
  import opened Bytes
  import opened ElfTypes
  import opened Image
  import opened Layout
  import opened Patching
  import opened Headers
  import opened Rewriting
  import opened Dynamic
  import opened DynamicBytes
  import opened Editing
  import N = Needed
  import S = Sections

  /** The dynamic table and its strings as they lie in the file. */
  function TablesInPlace(u: State): Tables
    requires u.Has(DYNAMIC) && u.InBuffer(DYNAMIC) && u.Has(DYNSTR) && u.InBuffer(DYNSTR)
  {
    Tables(Decoded(u.cfg.cls, u.Content(DYNAMIC)), u.Content(DYNSTR))
  }

  /** Entries that refer to strings, not to sections. */
  predicate StringEntry(tag: nat) {
    tag == DT_NEEDED || tag == DT_RPATH || tag == DT_RUNPATH
  }

  lemma FixedTag(u: State, d: seq<byte>, fix: Fix)
    requires |d| >= u.cfg.cls.DynSize()
    ensures var e := Fixed(u.cfg.cls, d[..u.cfg.cls.DynSize()], fix);
      && FullTag(u.cfg.cls, e) == FullTag(u.cfg.cls, d)
      && (!fix.SetTo? ==> DynVal(u.cfg.cls, e) == DynVal(u.cfg.cls, d))
  {
    hide FromLE;
    var cls := u.cfg.cls;
    var w, sz := cls.OffSize(), cls.DynSize();
    var e := Fixed(cls, d[..sz], fix);
    assert e[..w] == d[..w];
    if !fix.SetTo? {
      assert e[w..sz] == d[w..sz];
    }
  }

  /** Repairing the references to sections leaves all tags, and the references to strings. */
  lemma {:induction false} RepairKeepsStrings(u: State, d: seq<byte>)
    requires Terminated(u.cfg.cls, d) && PatchDynamic(u, d).Some?
    ensures var a, b := Decoded(u.cfg.cls, d), Decoded(u.cfg.cls, PatchDynamic(u, d).value);
      && |b| == |a|
      && forall i :: 0 <= i < |a| ==> b[i].tag == a[i].tag && (StringEntry(a[i].tag) ==> b[i] == a[i])
    decreases |d|
  {
    hide FixFor, FromLE, Fixed;
    var cls := u.cfg.cls;
    var sz, w := cls.DynSize(), cls.OffSize();
    if DynTag(cls, d) != DT_NULL {
      var fix := FixFor(u, DynTag(cls, d));
      var e, r := Fixed(cls, d[..sz], fix), PatchDynamic(u, d[sz..]).value;
      RepairKeepsStrings(u, d[sz..]);
      FixedTag(u, d, fix);
      StringsNotFixed(u, FullTag(cls, d));
      assert (e + r)[sz..] == r && (e + r)[..w] == e[..w] && (e + r)[w..sz] == e[w..sz];
    }
  }

  lemma StringsNotFixed(u: State, tag: nat)
    ensures StringEntry(tag) ==> tag % 0x1_0000_0000 == tag && FixFor(u, tag).Unchanged?
  {
  }

  lemma {:induction false} SameNames(a: seq<Dyn>, b: seq<Dyn>, str: seq<byte>)
    requires |b| == |a| && forall i :: 0 <= i < |a| ==> b[i].tag == a[i].tag && (StringEntry(a[i].tag) ==> b[i] == a[i])
    ensures N.Names(b, str) == N.Names(a, str)
    decreases |a|
  {
    if a != [] {
      SameNames(a[1..], b[1..], str);
    }
  }

  /** A rewrite changes neither the run path nor the needed libraries. */
  lemma RewriteKeepsStrings(t: State, u: State)
    requires t.Has(DYNAMIC) && t.InBuffer(DYNAMIC) && t.Has(DYNSTR) && t.InBuffer(DYNSTR)
    requires t.Backed(DYNAMIC) && t.Backed(DYNSTR) && !t.Sec(DYNAMIC).SymbolTable() && !t.Sec(DYNSTR).SymbolTable()
    requires Terminated(t.cfg.cls, Current(t, DYNAMIC))
    requires ContentsPreserved(t, u) && ReferencesPreserved(t, u)
    ensures u.Has(DYNAMIC) && u.InBuffer(DYNAMIC) && u.Has(DYNSTR) && u.InBuffer(DYNSTR)
    ensures Printed(TablesInPlace(u)) == Printed(TablesOf(t))
    ensures N.Names(TablesInPlace(u).dyn, TablesInPlace(u).str) == N.Names(TablesOf(t).dyn, TablesOf(t).str)
  {
    hide PatchDynamic, Terminated, Decoded, S.CString, Last;
    assert u.cfg == t.cfg && u.Sec(DYNAMIC).stype == t.Sec(DYNAMIC).stype && u.Sec(DYNSTR).stype == t.Sec(DYNSTR).stype;
    var d := Current(t, DYNAMIC);
    assert u.Content(DYNAMIC) == PatchDynamic(u, d).value && u.Content(DYNSTR) == Current(t, DYNSTR);
    RepairKeepsStrings(u, d);
    var a, b := Decoded(t.cfg.cls, d), Decoded(u.cfg.cls, u.Content(DYNAMIC));
    SameTagsSamePath(a, b);
    SameNames(a, b, u.Content(DYNSTR));
  }

  lemma {:induction false} TerminatedHasNull(cls: ElfClass, d: seq<byte>)
    requires Terminated(cls, d)
    ensures HasNull(cls, d)
    decreases |d|
  {
    hide FromLE;
    if FullTag(cls, d) != DT_NULL {
      TerminatedHasNull(cls, d[cls.DynSize()..]);
    }
  }

  /** An edited file can be rewritten, if it is not too large. */
  lemma EditedIsRewritable(s: State, t: State, tb: Tables)
    requires Editable(s) && EditedTo(s, t, tb) && t.replaced != []
    requires |s.phdrs| < 0xFFFF && TotalAll(s.cfg.cls, t.replaced) <= 0x4000_0000
    ensures Rewritable(t)
  {
    hide S.Sortable, Terminated, Decoded, HasNull, TotalAll, Requested;
    var v := s.(contents := t.contents);
    SameHeadersWellFormed(s, v);
    OnlyReplacements(v, v, t);
    assert s.Has(DYNAMIC) && s.Has(DYNSTR) && t.Sec(DYNAMIC) == s.Sec(DYNAMIC);
    TerminatedHasNull(t.cfg.cls, Current(t, DYNAMIC));
  }

  /** After the rewrite, if there is any, the run path and the needed libraries are those of the edited tables. */
  lemma EditSurvives(s: State, t: State, u: State, tb: Tables)
    requires Editable(s) && s.Has(DYNAMIC) && s.Has(DYNSTR)
    requires !s.Sec(DYNAMIC).SymbolTable() && !s.Sec(DYNSTR).SymbolTable()
    requires EditedTo(s, t, tb) && Preserved(t, u)
    ensures u.Has(DYNAMIC) && u.InBuffer(DYNAMIC) && u.Has(DYNSTR) && u.InBuffer(DYNSTR)
    ensures Printed(TablesInPlace(u)) == Printed(tb)
    ensures N.Names(TablesInPlace(u).dyn, TablesInPlace(u).str) == N.Names(tb.dyn, tb.str)
  {
    hide ContentsPreserved, ReferencesPreserved, WellFormed, Terminated, Requested, Decoded, Printed, S.CString, Last, N.Names;
    assert t.Has(DYNAMIC) && t.Sec(DYNAMIC) == s.Sec(DYNAMIC);
    assert t.Has(DYNSTR) && t.Sec(DYNSTR) == s.Sec(DYNSTR);
    if t.replaced == [] {
      assert TablesInPlace(u) == TablesOf(t);
    } else {
      RewriteKeepsStrings(t, u);
    }
  }

  /** `--set-rpath`, in place or not, followed by the rewrite, followed by `--print-rpath`. */
  lemma SetRewriteThenPrint(s: State, t: State, u: State, p: Name, force: bool)
    requires Editable(s) && s.Has(DYNAMIC) && s.Has(DYNSTR) && s.InBuffer(DYNAMIC) && s.InBuffer(DYNSTR)
    requires !s.Sec(DYNAMIC).SymbolTable() && !s.Sec(DYNSTR).SymbolTable()
    requires var tb := TablesOf(s);
      && StringsInTable(tb) && Closed(tb.str) && NoNul(p) && (force ==> AtMostOne(tb.dyn, DT_RUNPATH))
      && EditedTo(s, t, WithPath(tb, p, force))
    requires Preserved(t, u)
    ensures u.Has(DYNAMIC) && u.InBuffer(DYNAMIC) && u.Has(DYNSTR) && u.InBuffer(DYNSTR)
    ensures Printed(TablesInPlace(u)) == p <==> !Overlooked(TablesOf(s), p, force)
  {
    hide WithPath, Overlooked, Preserved, TablesOf, TablesInPlace, WellFormed, StringsInTable, AtMostOne, Last, S.CString, EditedTo, Printed;
    SetThenPrint(TablesOf(s), p, force);
    EditSurvives(s, t, u, WithPath(TablesOf(s), p, force));
  }

  /** `--add-needed`, followed by the rewrite, followed by `--print-needed`. */
  lemma AddRewriteThenPrint(s: State, t: State, u: State, libs: seq<Name>)
    requires Editable(s) && s.Has(DYNAMIC) && s.Has(DYNSTR) && s.InBuffer(DYNAMIC) && s.InBuffer(DYNSTR)
    requires !s.Sec(DYNAMIC).SymbolTable() && !s.Sec(DYNSTR).SymbolTable()
    requires var tb := TablesOf(s);
      && N.NamesInTable(tb.dyn, tb.str) && Closed(tb.str) && (forall i :: 0 <= i < |libs| ==> NoNul(libs[i]))
      && EditedTo(s, t, N.WithNeeded(tb, libs))
    requires Preserved(t, u)
    ensures u.Has(DYNAMIC) && u.InBuffer(DYNAMIC) && u.Has(DYNSTR) && u.InBuffer(DYNSTR)
    ensures N.Names(TablesInPlace(u).dyn, TablesInPlace(u).str) == libs + N.Names(TablesOf(s).dyn, TablesOf(s).str)
  {
    hide N.WithNeeded, Preserved, TablesOf, TablesInPlace, WellFormed, EditedTo, S.CString;
    N.AddMeaning(TablesOf(s), libs);
    EditSurvives(s, t, u, N.WithNeeded(TablesOf(s), libs));
  }

  // ---------------------------------------------------------------- a file for which --force-rpath has no effect

  // The names of the sections.
  const NAMES: seq<byte> := [0] + DYNAMIC + [0] + DYNSTR + [0]

  // The address of the string table, a DT_RPATH for "/a", and a DT_RUNPATH for "/b".
  const ENTRIES: seq<Dyn> := [Dyn(DT_STRTAB, 0x1000), Dyn(DT_RPATH, 1), Dyn(DT_RUNPATH, 4)]

  const STRINGS: seq<byte> := [0, 0x2f, 0x61, 0, 0x2f, 0x62, 0]

  // Headers of the null section, of .dynamic and of .dynstr.
  const SECTIONS: seq<Shdr> := [Shdr(0, 0, 0, 0, 0, 0, 0, 0, 0, 0), Shdr(1, 6, 0, 0x2000, 172, 32, 2, 0, 4, 8),
                                Shdr(10, 3, 0, 0x1000, 204, 7, 0, 0, 1, 0)]

  /** A library with nothing but these two sections behind the section header table. */
  function TwoPaths(): State {
    State(Config(Elf32, 4096, 211, NAMES, [], false), Repeat(0, 172) + (AllEncoded(Elf32, ENTRIES) + Repeat(0, 8)) + STRINGS, 211,
          Ehdr(ET_DYN, 52, 52, 0, 40, 3, 2), [], SECTIONS, [])
  }

  lemma TwoPathsSections()
    ensures var s := TwoPaths();
      && (forall n :: s.Has(n) <==> n == DYNAMIC || n == DYNSTR)
      && s.Has(DYNAMIC) && s.Sec(DYNAMIC) == SECTIONS[1] && s.Has(DYNSTR) && s.Sec(DYNSTR) == SECTIONS[2]
      && S.Sortable(s.cfg.tab, s.shdrs)
  {
    hide S.CString, Repeat, AllEncoded;
    var s := TwoPaths();
    TextIs(NAMES, 1, DYNAMIC);
    TextIs(NAMES, 10, DYNSTR);
    assert S.NameOf(NAMES, SECTIONS[1]) == DYNAMIC && S.NameOf(NAMES, SECTIONS[2]) == DYNSTR;
    assert DYNAMIC[4] != DYNSTR[4];
    S.FindOwnName(NAMES, SECTIONS, 1);
    S.FindOwnName(NAMES, SECTIONS, 2);
  }

  lemma TwoPathsContents()
    ensures var c := TwoPaths().contents;
      |c| == 211 && Slice(c, 172, 32) == AllEncoded(Elf32, ENTRIES) + Repeat(0, 8) && Slice(c, 204, 7) == STRINGS
  {
    hide AllEncoded, Repeat;
    assert |AllEncoded(Elf32, ENTRIES)| == 24 by {
      SpanOfThree();
    }
  }

  lemma SpanOfThree()
    ensures Span(Elf32, 3) == 24
  {
    assert Span(Elf32, 2) == 16;
  }

  lemma ZeroEntryTag()
    ensures FullTag(Elf32, Repeat(0, 8)) == DT_NULL
  {
    ZeroTag(Elf32, Repeat(0, 8));
  }

  lemma TwoPathsEntries()
    ensures var d := AllEncoded(Elf32, ENTRIES) + Repeat(0, 8); Terminated(Elf32, d) && Decoded(Elf32, d) == ENTRIES
  {
    hide AllEncoded, Repeat, Terminated, Decoded;
    Pow256Values();
    ZeroEntryTag();
    Composed(Elf32, ENTRIES, Repeat(0, 8));
  }

  lemma TwoPathsWellFormed()
    ensures WellFormed(TwoPaths())
  {
    hide AllEncoded, Repeat, S.Has, S.Sec, S.Sortable, PowerOfTwo;
    TwoPathsSections();
    TwoPathsContents();
    PageIsPower();
  }

  lemma PageIsPower()
    ensures PowerOfTwo(4096)
  {
    assert PowerOfTwo(64);
  }

  lemma TwoPathsEditable()
    ensures var s := TwoPaths();
      && Editable(s) && s.Has(DYNAMIC) && s.Has(DYNSTR) && s.InBuffer(DYNAMIC) && s.InBuffer(DYNSTR)
      && TablesOf(s) == Tables(ENTRIES, STRINGS) && Opening(s).Fine?
  {
    hide AllEncoded, Repeat, Terminated, Decoded, WellFormed, S.Has, S.Sec, Last, Slice, S.Sortable;
    TwoPathsWellFormed();
    TwoPathsSections();
    TwoPathsContents();
    TwoPathsEntries();
    LastIs(ENTRIES, DT_STRTAB, 0);
  }

  /** `--set-rpath p` with `--force-rpath` can be carried out on `s`, and then another run path than `p` is in effect. */
  ghost predicate ForcedInVain(s: State, p: Name) {
    && Editable(s) && Opening(s).Fine? && NoNul(p) && StringsInTable(TablesOf(s)) && Closed(TablesOf(s).str)
    && forall t, u :: EditedTo(s, t, WithPath(TablesOf(s), p, true)) && Preserved(t, u) ==>
         u.Has(DYNAMIC) && u.InBuffer(DYNAMIC) && u.Has(DYNSTR) && u.InBuffer(DYNSTR) && Printed(TablesInPlace(u)) != p
  }

  /** There is a file for which `--set-rpath` with `--force-rpath`, whatever it writes, leaves another run path in effect. */
  lemma ForcedSetCanFail()
    ensures exists s, p :: ForcedInVain(s, p)
  {
    hide ForcedInVain;
    TwoPathsInVain([0x2f, 0x63]);
  }

  lemma TwoPathsInVain(p: Name)
    requires p == [0x2f, 0x63]
    ensures ForcedInVain(TwoPaths(), p)
  {
    hide TwoPaths, Editable, Opening, Overlooked, WithPath, EditedTo, Preserved, TablesOf, TablesInPlace, Printed, NoNul, S.Has, S.Sec,
         AtMostOne, StringsInTable, Closed;
    var s := TwoPaths();
    TwoPathsEditable();
    TwoPathsSections();
    TwoPathsOverlooked(p);
    forall t, u | EditedTo(s, t, WithPath(TablesOf(s), p, true)) && Preserved(t, u)
      ensures u.Has(DYNAMIC) && u.InBuffer(DYNAMIC) && u.Has(DYNSTR) && u.InBuffer(DYNSTR) && Printed(TablesInPlace(u)) != p
    {
      SetRewriteThenPrint(s, t, u, p, true);
    }
  }

  lemma TwoPathsOverlooked(p: Name)
    requires p == [0x2f, 0x63]
    ensures var t := Tables(ENTRIES, STRINGS);
      StringsInTable(t) && Closed(STRINGS) && NoNul(p) && AtMostOne(ENTRIES, DT_RUNPATH) && Overlooked(t, p, true)
  {
    hide Last, S.CString;
    TextIs(STRINGS, 1, [0x2f, 0x61]);
    TextIs(STRINGS, 4, [0x2f, 0x62]);
    LastIs(ENTRIES, DT_RPATH, 1);
    LastIs(ENTRIES, DT_RUNPATH, 2);
  }
}
