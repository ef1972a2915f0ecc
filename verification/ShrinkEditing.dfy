/** Shrinking the run path of a file. */
module ShrinkEditing {
  import opened Bytes
  import opened ElfTypes
  import opened Patching
  import opened Dynamic
  import opened ElfFiles
  import opened Editing
  import N = Needed
  import Shrinking
  import R = Resolution
  import S = Sections

  /** The names of the needed libraries. */
  method CollectNeeded(f: ElfFile, a: Areas, ghost l: seq<Dyn>, ghost str: seq<byte>) returns (names: seq<Name>)
    requires At(f.cfg.cls, f.contents[..], a, l, str)
    ensures names == N.Names(l, str)
  {
    hide At, S.CString, N.Names;
    names := [];
    var k := 0;
    assert l[..0] == [];
    NoNames(str);
    while true
      invariant k <= |l| && names == N.Names(l[..k], str)
      decreases |l| - k
    {
      var e := ReadEntry(f, a, k, l, str);
      if e.tag == DT_NULL {
        assert l[..k] == l;
        return;
      }
      assert l[..k + 1] == l[..k] + [l[k]];
      N.NamesAppend(l[..k], [l[k]], str);
      OneName(l[k], str);
      if e.tag == DT_NEEDED {
        var n := ReadString(f, a, e.val, l, str);
        names := names + [n];
      }
      k := k + 1;
    }
  }

  lemma NoNames(str: seq<byte>)
    ensures N.Names([], str) == []
  {
  }

  lemma OneName(e: Dyn, str: seq<byte>)
    ensures N.Names([e], str) == if e.tag == DT_NEEDED then [S.CString(str, e.val)] else []
  {
    N.NamesCons(e, [], str);
    assert [e] + [] == [e];
  }

  /** The run path that `--shrink-rpath` sets, if there is one to shrink. */
  function ShrunkTables(t: Tables, onDisk: Shrinking.Oracle, force: bool): Tables
    requires StringsInTable(t) && Closed(t.str)
  {
    if PathEntry(t.dyn) == |t.dyn| then t
    else WithPath(t, Shrinking.Shrunk(Printed(t), N.Names(t.dyn, t.str), onDisk), force)
  }

  /** `--shrink-rpath`.  Whether files exist is left to an oracle. */
  method ShrinkRPath(f: ElfFile, onDisk: Shrinking.Oracle, force: bool) returns (r: EditEnding)
    requires Editable(f.Snap())
    modifies f`replaced, f`changed, f.contents
    ensures r == Opening(old(f.Snap()))
    ensures r.Fine? ==> StringsInTable(TablesOf(old(f.Snap()))) && Closed(TablesOf(old(f.Snap())).str)
    ensures r.Fine? ==> EditedTo(old(f.Snap()), f.Snap(), ShrunkTables(TablesOf(old(f.Snap())), onDisk, force))
    ensures !r.Fine? ==> f.Snap() == old(f.Snap())
  {
    hide Editable, At, Opening, EditedTo, NoNul, WithPath, Shrinking.Shrunk, S.CString, Last, OnlyTables, OnlyAreas;
    ghost var s := f.Snap();
    var a;
    r, a := Open(f);
    if r.Fine? {
      ghost var t := TablesOf(s);
      EditableAreas(s, a);
      NoReplacements(s, a, t);
      var rp, run, path := FindPath(f, a, t.dyn, t.str);
      if path.None? {
        EditedIntro(s, f.Snap(), a, t.dyn, t.str, t);
        return;
      }
      var needed := CollectNeeded(f, a, t.dyn, t.str);
      var old_ := ReadString(f, a, path.value, t.dyn, t.str);
      var p := Shrinking.Shrink(old_, needed, onDisk);
      PathIsString(t);
      Shrinking.ShrunkNoNul(old_, needed, onDisk);
      Shrinking.ShrunkIsNoLonger(old_, needed, onDisk);
      ChangePath(f, a, rp, run, path, p, force, s, t);
    }
  }

  lemma PathIsString(t: Tables)
    requires StringsInTable(t) && Closed(t.str) && PathEntry(t.dyn) < |t.dyn|
    ensures NoNul(Printed(t)) && |Printed(t)| == PathLength(t)
  {
    hide Last;
    var pos := t.dyn[PathEntry(t.dyn)].val;
    PathInTable(t);
    TextBytes(t.str, pos);
  }

  lemma {:induction false} TextBytes(tab: seq<byte>, pos: nat)
    ensures NoNul(S.CString(tab, pos))
    decreases |tab| - pos
  {
    if pos < |tab| && tab[pos] != 0 {
      TextBytes(tab, pos + 1);
    }
  }

  /** After shrinking, every needed library is first found in the directory in which it was first found before, exactly when the working directory is not lost where it matters. */
  lemma ShrinkThenResolve(t: Tables, onDisk: Shrinking.Oracle, force: bool)
    requires StringsInTable(t) && Closed(t.str) && (force ==> AtMostOne(t.dyn, DT_RUNPATH))
    requires !Overlooked(t, Shrinking.Shrunk(Printed(t), N.Names(t.dyn, t.str), onDisk), force)
    ensures var needed := N.Names(t.dyn, t.str);
      R.SameResolution(Printed(t), Printed(ShrunkTables(t, onDisk, force)), needed, onDisk)
      <==> needed == [] || Printed(t) == [] || R.WorkingDirectorySafe(Printed(t), needed, onDisk)
  {
    hide Overlooked, WithPath, Shrinking.Shrunk, Last, S.CString, N.Names, NoNul, R.SearchList, R.WorkingDirectorySafe;
    var needed := N.Names(t.dyn, t.str);
    if PathEntry(t.dyn) < |t.dyn| {
      PathIsString(t);
      Shrinking.ShrunkNoNul(Printed(t), needed, onDisk);
      SetThenPrint(t, Shrinking.Shrunk(Printed(t), needed, onDisk), force);
      R.ShrinkingResolves(Printed(t), needed, onDisk);
    }
  }
}
