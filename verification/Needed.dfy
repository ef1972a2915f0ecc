/** Editing the list of needed libraries. */
module Needed {
  import opened Bytes
  import opened ElfTypes
  import opened Patching
  import opened Dynamic
  import S = Sections

  /** The names of the needed libraries, in order. */
  function Names(d: seq<Dyn>, str: seq<byte>): seq<Name> {
    if d == [] then []
    else (if d[0].tag == DT_NEEDED then [S.CString(str, d[0].val)] else []) + Names(d[1..], str)
  }

  /** The entries that do not name needed libraries, in order. */
  function Others(d: seq<Dyn>): seq<Dyn> {
    if d == [] then []
    else (if d[0].tag == DT_NEEDED then [] else [d[0]]) + Others(d[1..])
  }

  /** Every needed library has its name in the string table. */
  predicate NamesInTable(d: seq<Dyn>, str: seq<byte>) {
    forall i :: 0 <= i < |d| && d[i].tag == DT_NEEDED ==> d[i].val < |str|
  }

  lemma NamesInTableTail(d: seq<Dyn>, str: seq<byte>)
    requires NamesInTable(d, str) && d != []
    ensures NamesInTable(d[1..], str)
  {
    assert forall i :: 0 <= i < |d[1..]| ==> d[1..][i] == d[i + 1];
  }

  lemma NamesCons(e: Dyn, rest: seq<Dyn>, str: seq<byte>)
    ensures Names([e] + rest, str) == (if e.tag == DT_NEEDED then [S.CString(str, e.val)] else []) + Names(rest, str)
    ensures Others([e] + rest) == (if e.tag == DT_NEEDED then [] else [e]) + Others(rest)
  {
    assert ([e] + rest)[1..] == rest;
  }

  lemma {:induction false} NamesAppend(a: seq<Dyn>, b: seq<Dyn>, str: seq<byte>)
    ensures Names(a + b, str) == Names(a, str) + Names(b, str)
    ensures Others(a + b) == Others(a) + Others(b)
    decreases |a|
  {
    if a == [] {
      assert a + b == b;
    } else {
      hide Names, Others;
      NamesAppend(a[1..], b, str);
      FirstAndRest(a);
      NamesCons(a[0], a[1..], str);
      NamesCons(a[0], a[1..] + b, str);
      Assoc3([a[0]], a[1..], b);
      Assoc3(if a[0].tag == DT_NEEDED then [S.CString(str, a[0].val)] else [], Names(a[1..], str), Names(b, str));
      Assoc3(if a[0].tag == DT_NEEDED then [] else [a[0]], Others(a[1..]), Others(b));
    }
  }

  /** A string table that begins with another one has all its strings. */
  lemma {:induction false} NamesInLongerTable(d: seq<Dyn>, a: seq<byte>, b: seq<byte>)
    requires NamesInTable(d, a) && Closed(a) && |a| <= |b| && b[..|a|] == a
    ensures Names(d, b) == Names(d, a)
    decreases |d|
  {
    if d != [] {
      NamesInTableTail(d, a);
      NamesInLongerTable(d[1..], a, b);
      if d[0].tag == DT_NEEDED {
        TextInLongerTable(a, b, d[0].val);
      }
    }
  }

  lemma TextInLongerTable(a: seq<byte>, b: seq<byte>, pos: nat)
    requires Closed(a) && pos < |a| <= |b| && b[..|a|] == a
    ensures S.CString(b, pos) == S.CString(a, pos)
  {
    TextEnds(a, pos);
    assert forall k :: 0 <= k < |a| ==> b[..|a|][k] == b[k];
    TextSame(a, b, pos, |S.CString(a, pos)|);
  }

  // ---------------------------------------------------------------- removing

  /** The entries that `--remove-needed` keeps. */
  function Without(d: seq<Dyn>, str: seq<byte>, libs: set<Name>): (r: seq<Dyn>)
    ensures |r| <= |d|
  {
    if d == [] then []
    else (if d[0].tag == DT_NEEDED && S.CString(str, d[0].val) in libs then [] else [d[0]]) + Without(d[1..], str, libs)
  }

  /** The names that are not to be removed, in order. */
  function Unlisted(names: seq<Name>, libs: set<Name>): seq<Name> {
    if names == [] then []
    else (if names[0] in libs then [] else [names[0]]) + Unlisted(names[1..], libs)
  }

  lemma UnlistedCons(n: Name, rest: seq<Name>, libs: set<Name>)
    ensures Unlisted([n] + rest, libs) == (if n in libs then [] else [n]) + Unlisted(rest, libs)
  {
    assert ([n] + rest)[1..] == rest;
  }

  /** Exactly the listed libraries go; the others, and all other entries, stay in order. */
  lemma {:induction false} RemoveMeaning(d: seq<Dyn>, str: seq<byte>, libs: set<Name>)
    ensures Names(Without(d, str, libs), str) == Unlisted(Names(d, str), libs)
    ensures Others(Without(d, str, libs)) == Others(d)
    decreases |d|
  {
    if d != [] {
      var rest := Without(d[1..], str, libs);
      RemoveMeaning(d[1..], str, libs);
      NamesCons(d[0], rest, str);
      UnlistedCons(S.CString(str, d[0].val), Names(d[1..], str), libs);
      assert [] + rest == rest && [] + Names(d[1..], str) == Names(d[1..], str);
      assert [] + Unlisted(Names(d[1..], str), libs) == Unlisted(Names(d[1..], str), libs);
    }
  }

  // ---------------------------------------------------------------- replacing

  /** `--replace-needed`: names are looked up in the original table `str0`, and replacements go to the end of the table as it has become. */
  function Substituted(d: seq<Dyn>, str0: seq<byte>, str: seq<byte>, libs: map<Name, Name>): (r: Tables)
    ensures |r.dyn| == |d|
    ensures |r.str| >= |str| && r.str[..|str|] == str
    ensures Closed(str) ==> Closed(r.str)
    decreases |d|
  {
    if d == [] then Tables([], str)
    else
      var n := S.CString(str0, d[0].val);
      if d[0].tag == DT_NEEDED && n in libs then
        var rest := Substituted(d[1..], str0, Lengthened(str, libs[n]), libs);
        assert rest.str[..|str|] == rest.str[..|Lengthened(str, libs[n])|][..|str|] == str;
        Tables([Dyn(DT_NEEDED, |str|)] + rest.dyn, rest.str)
      else
        var rest := Substituted(d[1..], str0, str, libs);
        Tables([d[0]] + rest.dyn, rest.str)
  }

  /** Each name, replaced once if it is listed. */
  function Renamed(names: seq<Name>, libs: map<Name, Name>): (r: seq<Name>)
    ensures |r| == |names|
  {
    if names == [] then []
    else [if names[0] in libs then libs[names[0]] else names[0]] + Renamed(names[1..], libs)
  }

  lemma RenamedCons(n: Name, rest: seq<Name>, libs: map<Name, Name>)
    ensures Renamed([n] + rest, libs) == [if n in libs then libs[n] else n] + Renamed(rest, libs)
  {
    assert ([n] + rest)[1..] == rest;
  }

  lemma SubstitutedStep(d: seq<Dyn>, str0: seq<byte>, str: seq<byte>, libs: map<Name, Name>)
    requires d != []
    ensures var r, n := Substituted(d, str0, str, libs), S.CString(str0, d[0].val);
      if d[0].tag == DT_NEEDED && n in libs then
        var rest := Substituted(d[1..], str0, Lengthened(str, libs[n]), libs);
        r.str == rest.str && r.dyn == [Dyn(DT_NEEDED, |str|)] + rest.dyn
      else
        var rest := Substituted(d[1..], str0, str, libs);
        r.str == rest.str && r.dyn == [d[0]] + rest.dyn
  {
    hide S.CString, Lengthened;
  }

  lemma NoNameCons(e: Dyn, rest: seq<Dyn>, str: seq<byte>)
    requires e.tag != DT_NEEDED
    ensures Names([e] + rest, str) == Names(rest, str) && Others([e] + rest) == [e] + Others(rest)
  {
    NamesCons(e, rest, str);
    assert [] + Names(rest, str) == Names(rest, str);
  }

  lemma NameCons(e: Dyn, rest: seq<Dyn>, str: seq<byte>)
    requires e.tag == DT_NEEDED
    ensures Names([e] + rest, str) == [S.CString(str, e.val)] + Names(rest, str) && Others([e] + rest) == Others(rest)
  {
    NamesCons(e, rest, str);
    assert [] + Others(rest) == Others(rest);
  }

  /** A replacement is simultaneous: no replaced name is looked up again; every other entry stays. */
  lemma {:induction false} ReplaceMeaning(d: seq<Dyn>, str0: seq<byte>, str: seq<byte>, libs: map<Name, Name>)
    requires NamesInTable(d, str0) && Closed(str0) && |str0| <= |str| && str[..|str0|] == str0 && Closed(str)
    requires forall n :: n in libs ==> NoNul(libs[n])
    ensures var r := Substituted(d, str0, str, libs);
      && Names(r.dyn, r.str) == Renamed(Names(d, str0), libs)
      && Others(r.dyn) == Others(d)
      && (forall i :: 0 <= i < |d| && d[i].tag != DT_NEEDED ==> r.dyn[i] == d[i])
    decreases |d|
  {
    hide S.CString;
    if d != [] {
      hide Substituted, Names, Others, Renamed, Lengthened, NoNul, Closed;
      var n, rest := S.CString(str0, d[0].val), d[1..];
      NamesInTableTail(d, str0);
      SubstitutedStep(d, str0, str, libs);
      FirstAndRest(d);
      if d[0].tag == DT_NEEDED && n in libs {
        var longer := Lengthened(str, libs[n]);
        var r := Substituted(rest, str0, longer, libs);
        BeginsTwice(str0, str, longer);
        ReplaceMeaning(rest, str0, longer, libs);
        TextIs(longer, |str|, libs[n]);
        TextInLongerTable(longer, r.str, |str|);
        NameCons(Dyn(DT_NEEDED, |str|), r.dyn, r.str);
        NameCons(d[0], rest, str0);
        RenamedCons(n, Names(rest, str0), libs);
      } else {
        var r := Substituted(rest, str0, str, libs);
        ReplaceMeaning(rest, str0, str, libs);
        if d[0].tag == DT_NEEDED {
          NamesInTableFirst(d, str0);
          BeginsTwice(str0, str, r.str);
          TextInLongerTable(str0, r.str, d[0].val);
          NameCons(d[0], r.dyn, r.str);
          NameCons(d[0], rest, str0);
          RenamedCons(n, Names(rest, str0), libs);
        } else {
          NoNameCons(d[0], r.dyn, r.str);
          NoNameCons(d[0], rest, str0);
        }
      }
    }
  }

  lemma NamesInTableFirst(d: seq<Dyn>, str: seq<byte>)
    requires NamesInTable(d, str) && d != [] && d[0].tag == DT_NEEDED
    ensures d[0].val < |str|
  {
  }

  // ---------------------------------------------------------------- adding

  /** The string table with the names added, one after the other. */
  function WithNames(str: seq<byte>, libs: seq<Name>): (r: seq<byte>)
    ensures |r| >= |str| && r[..|str|] == str
    ensures Closed(str) ==> Closed(r)
    decreases |libs|
  {
    if libs == [] then str
    else
      var r := WithNames(Lengthened(str, libs[0]), libs[1..]);
      assert r[..|str|] == r[..|Lengthened(str, libs[0])|][..|str|];
      r
  }

  /** Entries for the names, the first of which begins at `pos` in the string table. */
  function EntriesFor(libs: seq<Name>, pos: nat): (r: seq<Dyn>)
    ensures |r| == |libs|
    ensures forall i :: 0 <= i < |r| ==> r[i].tag == DT_NEEDED
    decreases |libs|
  {
    if libs == [] then [] else [Dyn(DT_NEEDED, pos)] + EntriesFor(libs[1..], pos + |libs[0]| + 1)
  }

  /** `--add-needed`: the new entries come first; the string table gains one more NUL than the names need. */
  function WithNeeded(t: Tables, libs: seq<Name>): Tables {
    if libs == [] then t
    else Tables(EntriesFor(libs, |t.str|) + t.dyn, WithNames(t.str, libs) + [0])
  }

  /** `b` begins with `a`. */
  predicate Begins(b: seq<byte>, a: seq<byte>) {
    |a| <= |b| && b[..|a|] == a
  }

  lemma BeginsTwice(a: seq<byte>, b: seq<byte>, c: seq<byte>)
    requires Begins(b, a) && Begins(c, b)
    ensures Begins(c, a)
  {
    assert c[..|a|] == c[..|b|][..|a|];
  }

  lemma {:induction false} NamesOfEntries(libs: seq<Name>, str: seq<byte>, table: seq<byte>)
    requires forall i :: 0 <= i < |libs| ==> NoNul(libs[i])
    requires Closed(str) && Begins(table, WithNames(str, libs))
    ensures Names(EntriesFor(libs, |str|), table) == libs
    ensures Others(EntriesFor(libs, |str|)) == []
    decreases |libs|
  {
    hide S.CString, NoNul, Closed, Names, Others, WithNames, EntriesFor, Lengthened, Begins;
    EntriesStep(libs, |str|);
    if libs == [] {
      NothingNamed(table);
    } else {
      var longer := Lengthened(str, libs[0]);
      assert forall i :: 0 <= i < |libs[1..]| ==> libs[1..][i] == libs[i + 1];
      NamesStep(libs, str);
      NamesOfEntries(libs[1..], longer, table);
      LongerTable(str, libs, table);
      TextIs(longer, |str|, libs[0]);
      TextInLongerTable(longer, table, |str|);
      NameCons(Dyn(DT_NEEDED, |str|), EntriesFor(libs[1..], |longer|), table);
      FirstAndRest(libs);
    }
  }

  lemma NothingNamed(table: seq<byte>)
    ensures Names([], table) == [] && Others([]) == []
  {
  }

  lemma EntriesStep(libs: seq<Name>, pos: nat)
    ensures EntriesFor(libs, pos)
         == if libs == [] then [] else [Dyn(DT_NEEDED, pos)] + EntriesFor(libs[1..], pos + |libs[0]| + 1)
  {
  }

  lemma NamesStep(libs: seq<Name>, str: seq<byte>)
    requires libs != []
    ensures WithNames(str, libs) == WithNames(Lengthened(str, libs[0]), libs[1..])
  {
    hide Lengthened;
  }

  lemma LongerTable(str: seq<byte>, libs: seq<Name>, table: seq<byte>)
    requires libs != [] && Begins(table, WithNames(str, libs))
    ensures var longer := Lengthened(str, libs[0]); |longer| <= |table| && table[..|longer|] == longer
  {
    BeginsTwice(Lengthened(str, libs[0]), WithNames(str, libs), table);
  }

  /** The new names come first, in their order; everything else is as before. */
  lemma AddMeaning(t: Tables, libs: seq<Name>)
    requires NamesInTable(t.dyn, t.str) && Closed(t.str)
    requires forall i :: 0 <= i < |libs| ==> NoNul(libs[i])
    ensures var r := WithNeeded(t, libs);
      && Names(r.dyn, r.str) == libs + Names(t.dyn, t.str)
      && Others(r.dyn) == Others(t.dyn)
      && |r.dyn| == |libs| + |t.dyn| && r.dyn[|libs|..] == t.dyn
      && forall pos :: 0 <= pos < |t.str| ==> S.CString(r.str, pos) == S.CString(t.str, pos)
  {
    hide S.CString, WithNames, EntriesFor;
    var r := WithNeeded(t, libs);
    if libs != [] {
      var w := WithNames(t.str, libs);
      assert r.str[..|w|] == w;
      assert r.str[..|t.str|] == r.str[..|w|][..|t.str|] == t.str;
      NamesOfEntries(libs, t.str, r.str);
      NamesAppend(EntriesFor(libs, |t.str|), t.dyn, r.str);
      NamesInLongerTable(t.dyn, t.str, r.str);
      forall pos | 0 <= pos < |t.str| ensures S.CString(r.str, pos) == S.CString(t.str, pos) {
        TextInLongerTable(t.str, r.str, pos);
      }
    } else {
      assert [] + Names(t.dyn, t.str) == Names(t.dyn, t.str);
    }
  }

  /** Old references resolve as before a replacement, too. */
  lemma ReplaceKeepsStrings(d: seq<Dyn>, str: seq<byte>, libs: map<Name, Name>, pos: nat)
    requires Closed(str) && pos < |str|
    ensures S.CString(Substituted(d, str, str, libs).str, pos) == S.CString(str, pos)
  {
    TextInLongerTable(str, Substituted(d, str, str, libs).str, pos);
  }
}
