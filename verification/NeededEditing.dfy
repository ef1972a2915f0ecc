/** The operations on needed libraries, carried out on the file. */
module NeededEditing {
  import opened Bytes
  import opened ElfTypes
  import opened Image
  import opened Layout
  import opened Patching
  import opened Dynamic
  import opened DynamicBytes
  import opened ElfFiles
  import opened Editing
  import opened Needed
  import S = Sections

  /** Both sections exist, so the operation can go ahead. */
  predicate HasTables(s: State) {
    s.Has(DYNAMIC) && s.Has(DYNSTR) && s.InBuffer(DYNAMIC) && s.InBuffer(DYNSTR)
  }

  /** Finds the sections for an operation. */
  method LocateTables(f: ElfFile) returns (ok: bool, a: Areas)
    requires Editable(f.Snap())
    ensures ok <==> f.Snap().Has(DYNAMIC) && f.Snap().Has(DYNSTR)
    ensures ok ==> HasTables(f.Snap())
    ensures ok ==> var s := f.Snap();
      && a == Areas(s.Sec(DYNAMIC).offset, s.Sec(DYNAMIC).size, s.Sec(DYNSTR).offset, s.Sec(DYNSTR).size)
  {
    hide WellFormed, Terminated, Decoded, StringsInTable;
    ok, a := Locate(f);
  }

  // ---------------------------------------------------------------- removing

  lemma {:induction false} WithoutIsDropped(d: seq<Dyn>, str: seq<byte>, libs: set<Name>, drop: Dyn -> bool)
    requires forall e :: drop(e) <==> e.tag == DT_NEEDED && S.CString(str, e.val) in libs
    ensures Dropped(d, drop) == Without(d, str, libs)
    decreases |d|
  {
    if d != [] {
      WithoutIsDropped(d[1..], str, libs, drop);
    }
  }

  /** Some needed library is listed. */
  predicate SomeListed(d: seq<Dyn>, str: seq<byte>, libs: set<Name>) {
    exists i :: 0 <= i < |d| && d[i].tag == DT_NEEDED && S.CString(str, d[i].val) in libs
  }

  /** `removeNeeded`. */
  method RemoveNeeded(f: ElfFile, libs: set<Name>) returns (r: EditEnding)
    requires Editable(f.Snap())
    modifies f`changed, f.contents
    ensures libs == {} ==> r.Fine? && f.Snap() == old(f.Snap())
    ensures libs != {} ==> r == if HasTables(old(f.Snap())) then Fine else NoSuchSection
    ensures libs != {} && r.Fine? ==> var t := TablesOf(old(f.Snap()));
      && EditedTo(old(f.Snap()), f.Snap(), Tables(Without(t.dyn, t.str, libs), t.str))
      && f.changed == (old(f.changed) || SomeListed(t.dyn, t.str, libs))
    ensures !r.Fine? ==> f.Snap() == old(f.Snap())
  {
    hide Editable, At, EditedTo, OnlyAreas, Dropped, OnlyTables, S.CString;
    if libs == {} {
      return Fine;
    }
    ghost var s := f.Snap();
    var ok, a := LocateTables(f);
    if !ok {
      return NoSuchSection;
    }
    ghost var t := TablesOf(s);
    EditableAreas(s, a);
    NoReplacements(s, a, t);
    var str := ReadTable(f, a, t.dyn, t.str);
    var drop := (e: Dyn) => e.tag == DT_NEEDED && S.CString(str, e.val) in libs;
    WithoutIsDropped(t.dyn, t.str, libs, drop);
    var any := Compact(f, a, drop, s.contents, t.dyn, t.str);
    f.changed := f.changed || any;
    MidwayIntro(s, f.Snap(), a, Without(t.dyn, t.str, libs), t.str);
    EditedIntro(s, f.Snap(), a, Without(t.dyn, t.str, libs), t.str, Tables(Without(t.dyn, t.str, libs), t.str));
    return Fine;
  }

  /** The string table as it is in the file. */
  method ReadTable(f: ElfFile, a: Areas, ghost l: seq<Dyn>, ghost str: seq<byte>) returns (r: seq<byte>)
    requires At(f.cfg.cls, f.contents[..], a, l, str)
    ensures r == str
  {
    r := f.contents[a.strOff..a.strOff + a.strSize];
  }

  // ---------------------------------------------------------------- replacing

  /** The replacement has come to entry `k`: `done` and the rest are what the whole comes to. */
  ghost predicate Substituting(s: State, t: State, a: Areas, tb: Tables, libs: map<Name, Name>, done: seq<Dyn>, cur: seq<byte>, k: nat) {
    && k == |done| <= |tb.dyn|
    && Midway(s, t, a, done + tb.dyn[k..], tb.str)
    && !Keyed(t.replaced, DYNAMIC) && cur == DataOr(t.replaced, DYNSTR, tb.str)
    && var rest := Substituted(tb.dyn[k..], tb.str, cur, libs);
       Substituted(tb.dyn, tb.str, tb.str, libs) == Tables(done + rest.dyn, rest.str)
  }

  lemma SubstitutingStart(s: State, t: State, a: Areas, tb: Tables, libs: map<Name, Name>)
    requires Midway(s, t, a, tb.dyn, tb.str) && t.replaced == []
    ensures Substituting(s, t, a, tb, libs, [], tb.str, 0)
  {
    hide Midway, Substituted;
    assert tb.dyn[0..] == tb.dyn && [] + tb.dyn == tb.dyn;
    var r := Substituted(tb.dyn, tb.str, tb.str, libs);
    assert [] + r.dyn == r.dyn;
  }

  lemma SubstitutingEnd(s: State, t: State, a: Areas, tb: Tables, libs: map<Name, Name>, done: seq<Dyn>, cur: seq<byte>)
    requires Substituting(s, t, a, tb, libs, done, cur, |tb.dyn|)
    ensures Midway(s, t, a, done, tb.str) && Substituted(tb.dyn, tb.str, tb.str, libs) == Tables(done, cur)
    ensures !Keyed(t.replaced, DYNAMIC) && cur == DataOr(t.replaced, DYNSTR, tb.str)
  {
    hide Midway;
    assert done + tb.dyn[|tb.dyn|..] == done && done + [] == done;
  }

  lemma SubstitutingKeep(s: State, t: State, a: Areas, tb: Tables, libs: map<Name, Name>, done: seq<Dyn>, cur: seq<byte>, k: nat)
    requires Substituting(s, t, a, tb, libs, done, cur, k) && k < |tb.dyn|
    requires !(tb.dyn[k].tag == DT_NEEDED && S.CString(tb.str, tb.dyn[k].val) in libs)
    ensures Substituting(s, t, a, tb, libs, done + [tb.dyn[k]], cur, k + 1)
  {
    hide Midway, S.CString;
    var rest, e := tb.dyn[k..], tb.dyn[k];
    assert rest[0] == e && rest[1..] == tb.dyn[k + 1..];
    assert done + rest == (done + [e]) + tb.dyn[k + 1..];
    var r := Substituted(tb.dyn[k + 1..], tb.str, cur, libs);
    assert done + ([e] + r.dyn) == (done + [e]) + r.dyn;
  }

  lemma SubstitutingReplace(s: State, t: State, u: State, a: Areas, tb: Tables, libs: map<Name, Name>, done: seq<Dyn>, cur: seq<byte>, k: nat)
    requires Substituting(s, t, a, tb, libs, done, cur, k) && k < |tb.dyn|
    requires tb.dyn[k].tag == DT_NEEDED && S.CString(tb.str, tb.dyn[k].val) in libs
    requires var n := S.CString(tb.str, tb.dyn[k].val);
      ReplacedBy(t.replaced, u.replaced, DYNSTR, Lengthened(cur, libs[n]))
    requires Midway(s, u, a, (done + tb.dyn[k..])[k := Dyn(DT_NEEDED, |cur|)], tb.str)
    ensures Substituting(s, u, a, tb, libs, done + [Dyn(DT_NEEDED, |cur|)], Lengthened(cur, libs[S.CString(tb.str, tb.dyn[k].val)]), k + 1)
  {
    hide Midway, S.CString, OnlyTables, Lengthened;
    var rest, e := tb.dyn[k..], Dyn(DT_NEEDED, |cur|);
    var longer := Lengthened(cur, libs[S.CString(tb.str, tb.dyn[k].val)]);
    assert rest[0] == tb.dyn[k] && rest[1..] == tb.dyn[k + 1..];
    assert (done + rest)[k := e] == (done + [e]) + tb.dyn[k + 1..];
    var r := Substituted(tb.dyn[k + 1..], tb.str, longer, libs);
    assert done + ([e] + r.dyn) == (done + [e]) + r.dyn;
  }

  /** What is left to do does not shorten the string table. */
  lemma SubstitutingSize(s: State, t: State, a: Areas, tb: Tables, libs: map<Name, Name>, done: seq<Dyn>, cur: seq<byte>, k: nat)
    requires Substituting(s, t, a, tb, libs, done, cur, k) && k < |tb.dyn|
    requires tb.dyn[k].tag == DT_NEEDED && S.CString(tb.str, tb.dyn[k].val) in libs
    ensures |cur| + |libs[S.CString(tb.str, tb.dyn[k].val)]| + 1 <= |Substituted(tb.dyn, tb.str, tb.str, libs).str|
  {
    hide Midway, S.CString, Lengthened;
    assert tb.dyn[k..][0] == tb.dyn[k];
  }

  lemma SubstitutingMidway(s: State, t: State, a: Areas, tb: Tables, libs: map<Name, Name>, done: seq<Dyn>, cur: seq<byte>, k: nat)
    requires Substituting(s, t, a, tb, libs, done, cur, k)
    ensures k <= |tb.dyn| && |done| == k
    ensures Midway(s, t, a, done + tb.dyn[k..], tb.str) && cur == DataOr(t.replaced, DYNSTR, tb.str)
    ensures At(s.cfg.cls, t.contents, a, done + tb.dyn[k..], tb.str) && OnlyAreas(s.contents, t.contents, a)
    ensures t == s.(contents := t.contents, replaced := t.replaced) && OnlyTables(t.replaced)
  {
    hide At, OnlyAreas, Substituted;
  }

  /** Some needed library is to be replaced. */
  predicate SomeReplaced(d: seq<Dyn>, str: seq<byte>, libs: map<Name, Name>, k: nat) {
    exists i :: 0 <= i < k && i < |d| && d[i].tag == DT_NEEDED && S.CString(str, d[i].val) in libs
  }

  /** `replaceNeeded`; the string table must stay small enough for 32-bit sizes. */
  method ReplaceNeeded(f: ElfFile, libs: map<Name, Name>) returns (r: EditEnding)
    requires Editable(f.Snap())
    requires HasTables(f.Snap()) ==> var t := TablesOf(f.Snap()); |Substituted(t.dyn, t.str, t.str, libs).str| <= 0x4000_0000
    modifies f`changed, f`replaced, f.contents
    ensures libs == map[] ==> r.Fine? && f.Snap() == old(f.Snap())
    ensures libs != map[] ==> r == if HasTables(old(f.Snap())) then Fine else NoSuchSection
    ensures libs != map[] && r.Fine? ==> var t := TablesOf(old(f.Snap()));
      && EditedTo(old(f.Snap()), f.Snap(), Substituted(t.dyn, t.str, t.str, libs))
      && f.changed == (old(f.changed) || SomeReplaced(t.dyn, t.str, libs, |t.dyn|))
    ensures !r.Fine? ==> f.Snap() == old(f.Snap())
  {
    hide Editable, At, EditedTo, OnlyAreas, OnlyTables, S.CString, Substituting, Substituted, Midway;
    if libs == map[] {
      return Fine;
    }
    ghost var s := f.Snap();
    var ok, a := LocateTables(f);
    if !ok {
      return NoSuchSection;
    }
    ghost var t := TablesOf(s);
    EditableAreas(s, a);
    NoReplacements(s, a, t);
    SubstitutingStart(s, f.Snap(), a, t, libs);
    var k, added := 0, 0;
    ghost var done: seq<Dyn>, cur := [], t.str;
    while true
      invariant k <= |t.dyn| && Substituting(s, f.Snap(), a, t, libs, done, cur, k)
      invariant |cur| == a.strSize + added
      invariant f.changed == (old(f.changed) || SomeReplaced(t.dyn, t.str, libs, k))
      decreases |t.dyn| - k
    {
      SubstitutingMidway(s, f.Snap(), a, t, libs, done, cur, k);
      var e := ReadEntry(f, a, k, done + t.dyn[k..], t.str);
      if e.tag == DT_NULL {
        SubstitutingEnd(s, f.Snap(), a, t, libs, done, cur);
        EditedIntro(s, f.Snap(), a, done, t.str, Substituted(t.dyn, t.str, t.str, libs));
        return Fine;
      }
      if e.tag == DT_NEEDED {
        var name := ReadString(f, a, e.val, done + t.dyn[k..], t.str);
        if name in libs {
          SubstitutingSize(s, f.Snap(), a, t, libs, done, cur, k);
          Substitute(f, a, libs[name], a.strSize + added, k, s, t, libs, done, cur);
          done, cur := done + [Dyn(DT_NEEDED, |cur|)], Lengthened(cur, libs[name]);
          added := added + |libs[name]| + 1;
          f.changed := true;
        } else {
          SubstitutingKeep(s, f.Snap(), a, t, libs, done, cur, k);
          done := done + [t.dyn[k]];
        }
      } else {
        SubstitutingKeep(s, f.Snap(), a, t, libs, done, cur, k);
        done := done + [t.dyn[k]];
      }
      k := k + 1;
    }
  }

  /** Replaces the name in entry `k`. */
  method Substitute(f: ElfFile, a: Areas, name: Name, size: nat, k: nat, ghost s: State, ghost t: Tables, ghost libs: map<Name, Name>,
                    ghost done: seq<Dyn>, ghost cur: seq<byte>)
    requires Editable(s) && s.Has(DYNAMIC) && s.Has(DYNSTR)
    requires a == Areas(s.Sec(DYNAMIC).offset, s.Sec(DYNAMIC).size, s.Sec(DYNSTR).offset, s.Sec(DYNSTR).size)
    requires Substituting(s, f.Snap(), a, t, libs, done, cur, k) && k < |t.dyn|
    requires t.dyn[k].tag == DT_NEEDED && S.CString(t.str, t.dyn[k].val) in libs && name == libs[S.CString(t.str, t.dyn[k].val)]
    requires size == |cur| && size + |name| + 1 <= 0x4000_0000
    modifies f`replaced, f.contents
    ensures Substituting(s, f.Snap(), a, t, libs, done + [Dyn(DT_NEEDED, |cur|)], Lengthened(cur, name), k + 1)
  {
    hide Editable, At, OnlyAreas, OnlyTables, S.CString, Substituting, Substituted, Midway, Lengthened, Resized, Splice, ReplacedBy;
    ghost var u := f.Snap();
    SubstitutingMidway(s, u, a, t, libs, done, cur, k);
    MidwayParts(s, u, a, done + t.dyn[k..], t.str);
    LengthenedIs(cur, name);
    Resize(f, DYNSTR, cur, size + |name| + 1);
    ghost var rs1 := f.replaced;
    ReplacedParts(u.replaced, rs1, DYNSTR, Resized(cur, size + |name| + 1));
    SetSubstr(f, DYNSTR, Resized(cur, size + |name| + 1), size, name + [0]);
    ReplacedAgain(u.replaced, rs1, f.replaced, DYNSTR, Resized(cur, size + |name| + 1), Lengthened(cur, name));
    ReplacedParts(u.replaced, f.replaced, DYNSTR, Lengthened(cur, name));
    StoreVal(f, a, k, size, s.contents, done + t.dyn[k..], t.str);
    MidwayAgain(s, f.Snap(), a, (done + t.dyn[k..])[k := Dyn(DT_NEEDED, size)], t.str);
    SubstitutingReplace(s, u, f.Snap(), a, t, libs, done, cur, k);
  }

  lemma MidwayAgain(s: State, t: State, a: Areas, l: seq<Dyn>, str: seq<byte>)
    requires t == s.(contents := t.contents, replaced := t.replaced) && OnlyTables(t.replaced)
    requires At(s.cfg.cls, t.contents, a, l, str) && OnlyAreas(s.contents, t.contents, a)
    ensures Midway(s, t, a, l, str)
  {
    hide At, OnlyAreas, OnlyTables;
  }

  // ---------------------------------------------------------------- adding

  /** The names, each closed by a NUL, one after the other. */
  function Joined(libs: seq<Name>): seq<byte> {
    if libs == [] then [] else libs[0] + [0] + Joined(libs[1..])
  }

  lemma {:induction false} JoinedAppend(a: seq<Name>, b: seq<Name>)
    ensures Joined(a + b) == Joined(a) + Joined(b)
    decreases |a|
  {
    if a == [] {
      assert a + b == b;
    } else {
      assert (a + b)[1..] == a[1..] + b;
      JoinedAppend(a[1..], b);
      assert (a[0] + [0]) + (Joined(a[1..]) + Joined(b)) == (a[0] + [0] + Joined(a[1..])) + Joined(b);
    }
  }

  lemma JoinedStep(libs: seq<Name>, i: nat)
    requires i < |libs|
    ensures Joined(libs[..i + 1]) == Joined(libs[..i]) + (libs[i] + [0])
  {
    assert libs[..i + 1] == libs[..i] + [libs[i]];
    JoinedAppend(libs[..i], [libs[i]]);
    assert Joined([libs[i]]) == libs[i] + [0] + Joined([libs[i]][1..]);
  }

  lemma JoinedPrefix(libs: seq<Name>, i: nat)
    requires i <= |libs|
    ensures |Joined(libs[..i])| <= |Joined(libs)|
  {
    assert libs == libs[..i] + libs[i..];
    JoinedAppend(libs[..i], libs[i..]);
  }

  lemma {:induction false} WithNamesIs(str: seq<byte>, libs: seq<Name>)
    ensures WithNames(str, libs) == str + Joined(libs)
    decreases |libs|
  {
    if libs != [] {
      WithNamesIs(Lengthened(str, libs[0]), libs[1..]);
      assert (str + libs[0] + [0]) + Joined(libs[1..]) == str + (libs[0] + [0] + Joined(libs[1..]));
    } else {
      assert str + Joined(libs) == str;
    }
  }

  lemma {:induction false} EntriesForStep(libs: seq<Name>, pos: nat, i: nat)
    requires i < |libs|
    ensures EntriesFor(libs[..i + 1], pos) == EntriesFor(libs[..i], pos) + [Dyn(DT_NEEDED, pos + |Joined(libs[..i])|)]
    decreases i
  {
    if i == 0 {
      assert libs[..1][1..] == [];
    } else {
      EntriesForStep(libs[1..], pos + |libs[0]| + 1, i - 1);
      assert libs[..i + 1][1..] == libs[1..][..i] && libs[..i][1..] == libs[1..][..i - 1];
    }
  }

  /** The string table with names written behind the old strings. */
  function Filled(str: seq<byte>, libs: seq<Name>, i: nat): seq<byte>
    requires i <= |libs|
  {
    JoinedPrefix(libs, i);
    Splice(Resized(str, |str| + |Joined(libs)| + 1), |str|, Joined(libs[..i]))
  }

  lemma FilledEnd(str: seq<byte>, libs: seq<Name>)
    ensures Filled(str, libs, |libs|) == WithNames(str, libs) + [0]
  {
    WithNamesIs(str, libs);
    assert libs[..|libs|] == libs;
  }

  lemma FilledStart(str: seq<byte>, libs: seq<Name>)
    ensures Filled(str, libs, 0) == Resized(str, |str| + |Joined(libs)| + 1)
  {
  }

  lemma FilledStep(str: seq<byte>, libs: seq<Name>, i: nat)
    requires i < |libs|
    ensures var pos := |str| + |Joined(libs[..i])|;
      && pos + |libs[i] + [0]| <= |Filled(str, libs, i)| == |str| + |Joined(libs)| + 1
      && Filled(str, libs, i + 1) == Splice(Filled(str, libs, i), pos, libs[i] + [0])
      && pos + |libs[i]| + 1 == |str| + |Joined(libs[..i + 1])|
  {
    JoinedStep(libs, i);
    JoinedPrefix(libs, i + 1);
    SpliceAppend(Resized(str, |str| + |Joined(libs)| + 1), |str|, Joined(libs[..i]), libs[i] + [0]);
  }

  lemma NothingJoined(libs: seq<Name>, pos: nat)
    ensures Joined(libs[..0]) == [] && EntriesFor(libs[..0], pos) == []
    ensures libs[..|libs|] == libs
  {
  }

  /** The room that the names need. */
  method JoinedLength(libs: seq<Name>) returns (length: nat)
    ensures length == |Joined(libs)|
  {
    hide Joined, EntriesFor;
    length := 0;
    NothingJoined(libs, 0);
    for i := 0 to |libs|
      invariant length == |Joined(libs[..i])|
    {
      JoinedStep(libs, i);
      length := length + |libs[i]| + 1;
    }
  }

  /** Writes one name. */
  method WriteName(f: ElfFile, libs: seq<Name>, i: nat, at: nat, ghost str: seq<byte>)
    requires i < |libs| && |str| + |Joined(libs)| + 1 <= 0x4000_0000 && at == |str| + |Joined(libs[..i])|
    requires ReplacedBy([], f.replaced, DYNSTR, Filled(str, libs, i))
    modifies f`replaced
    ensures ReplacedBy([], f.replaced, DYNSTR, Filled(str, libs, i + 1))
    ensures at + |libs[i]| + 1 == |str| + |Joined(libs[..i + 1])|
  {
    hide OnlyTables, Resized, Splice, ReplacedBy, Joined, Filled, IndexOf;
    ghost var rs := f.replaced;
    FilledStep(str, libs, i);
    ReplacedParts([], rs, DYNSTR, Filled(str, libs, i));
    SetSubstr(f, DYNSTR, Filled(str, libs, i), at, libs[i] + [0]);
    ReplacedAgain([], rs, f.replaced, DYNSTR, Filled(str, libs, i), Filled(str, libs, i + 1));
  }

  /** Writes the new names into the string table and makes an entry for each. */
  method WriteNames(f: ElfFile, libs: seq<Name>, size: nat, ghost str: seq<byte>) returns (entries: seq<Dyn>)
    requires f.Snap().Has(DYNSTR) && f.Snap().InBuffer(DYNSTR) && f.replaced == [] && OnlyTables(f.replaced)
    requires str == f.Snap().Content(DYNSTR) && size == |str| && size + |Joined(libs)| + 1 <= 0x4000_0000
    modifies f`replaced
    ensures entries == EntriesFor(libs, size)
    ensures ReplacedBy([], f.replaced, DYNSTR, WithNames(str, libs) + [0])
  {
    assert !Keyed([], DYNSTR);
    hide OnlyTables, Resized, Splice, ReplacedBy, Joined, EntriesFor, Filled, IndexOf, WithNames, S.CString, S.FindFrom;
    var length := JoinedLength(libs);
    FilledStart(str, libs);
    Resize(f, DYNSTR, str, size + length + 1);
    entries := FillNames(f, libs, size, str);
    FilledEnd(str, libs);
  }

  /** Writes all names. */
  method FillNames(f: ElfFile, libs: seq<Name>, size: nat, ghost str: seq<byte>) returns (entries: seq<Dyn>)
    requires size == |str| && size + |Joined(libs)| + 1 <= 0x4000_0000
    requires ReplacedBy([], f.replaced, DYNSTR, Filled(str, libs, 0))
    modifies f`replaced
    ensures entries == EntriesFor(libs, size)
    ensures ReplacedBy([], f.replaced, DYNSTR, Filled(str, libs, |libs|))
  {
    hide OnlyTables, Resized, Splice, ReplacedBy, Joined, EntriesFor, Filled, IndexOf;
    NothingJoined(libs, size);
    var pos := 0;
    entries := [];
    for i := 0 to |libs|
      invariant pos == |Joined(libs[..i])| && entries == EntriesFor(libs[..i], size)
      invariant ReplacedBy([], f.replaced, DYNSTR, Filled(str, libs, i))
    {
      WriteName(f, libs, i, size + pos, str);
      EntriesForStep(libs, size, i);
      entries := entries + [Dyn(DT_NEEDED, size + pos)];
      pos := pos + |libs[i]| + 1;
    }
  }

  lemma {:induction false} EntriesStorable(cls: ElfClass, libs: seq<Name>, pos: nat)
    requires pos + |Joined(libs)| < 0x1_0000_0000
    ensures AllStorable(cls, EntriesFor(libs, pos))
    decreases |libs|
  {
    Pow256Values();
    if libs != [] {
      EntriesStorable(cls, libs[1..], pos + |libs[0]| + 1);
    }
  }

  /** `addNeeded`, with the names in the order in which the source comes upon them; the sections must stay small enough for 32-bit sizes. */
  method AddNeeded(f: ElfFile, libs: seq<Name>) returns (r: EditEnding)
    requires Editable(f.Snap())
    requires HasTables(f.Snap()) ==>
      && |f.Snap().Content(DYNSTR)| + |Joined(libs)| + 1 <= 0x4000_0000
      && |f.Snap().Content(DYNAMIC)| + Span(f.cfg.cls, |libs|) <= 0x8000_0000
    modifies f`changed, f`replaced
    ensures libs == [] ==> r.Fine? && f.Snap() == old(f.Snap())
    ensures libs != [] ==> r == if HasTables(old(f.Snap())) then Fine else NoSuchSection
    ensures libs != [] && r.Fine? ==> EditedTo(old(f.Snap()), f.Snap(), WithNeeded(TablesOf(old(f.Snap())), libs)) && f.changed
    ensures !r.Fine? ==> f.Snap() == old(f.Snap())
  {
    hide Editable, At, EditedTo, OnlyAreas, OnlyTables, Terminated, Decoded, IndexOf, ReplacedBy, Prepended, WithNames, Joined, EntriesFor, Span;
    if libs == [] {
      return Fine;
    }
    ghost var s := f.Snap();
    var ok, a := LocateTables(f);
    if !ok {
      return NoSuchSection;
    }
    ghost var t := TablesOf(s);
    EditableAreas(s, a);
    NoReplacements(s, a, t);
    MidwayParts(s, s, a, t.dyn, t.str);
    ghost var d := s.Content(DYNAMIC);
    var entries := WriteNames(f, libs, a.strSize, t.str);
    OneReplaced(f.replaced, DYNSTR, DYNAMIC, WithNames(t.str, libs) + [0]);
    ghost var rs1 := f.replaced;
    AddEntries(f, entries, a.dynSize, d);
    TwoReplaced(rs1, f.replaced, DYNAMIC, DYNSTR, Prepended(f.cfg.cls, d, entries), WithNames(t.str, libs) + [0]);
    EntriesStorable(f.cfg.cls, libs, a.strSize);
    PrependedEntries(f.cfg.cls, d, entries);
    EditedIntro(s, f.Snap(), a, t.dyn, t.str, WithNeeded(t, libs));
    f.changed := true;
    return Fine;
  }
}
