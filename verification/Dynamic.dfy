/** What the editing operations do to the dynamic table and its strings. */
module Dynamic {
  import opened Bytes
  import opened ElfTypes
  import opened Patching
  import S = Sections

  /** The entries of the dynamic section and the bytes of its string table. */
  datatype Tables = Tables(dyn: seq<Dyn>, str: seq<byte>) {
    /** The string that entry `i` refers to. */
    function Text(i: nat): Name
      requires i < |dyn|
    {
      S.CString(str, dyn[i].val)
    }
  }

  /** A string as C has them. */
  predicate NoNul(p: Name) {
    forall i :: 0 <= i < |p| ==> p[i] != 0
  }

  /** The string table ends with a NUL, as System V gABI, chapter 4, "String Table", requires. */
  predicate Closed(str: seq<byte>) {
    |str| > 0 && str[|str| - 1] == 0
  }

  // ---------------------------------------------------------------- strings

  lemma {:induction false} TextShape(tab: seq<byte>, pos: nat)
    requires pos <= |tab|
    ensures var p := S.CString(tab, pos);
      && pos + |p| <= |tab|
      && (forall k :: pos <= k < pos + |p| ==> tab[k] != 0)
      && (pos + |p| < |tab| ==> tab[pos + |p|] == 0)
    decreases |tab| - pos
  {
    if pos < |tab| && tab[pos] != 0 {
      TextShape(tab, pos + 1);
    }
  }

  /** `p`, closed by a NUL, lies at `pos`. */
  predicate TextAt(tab: seq<byte>, pos: nat, p: Name) {
    pos + |p| < |tab| && (forall k :: 0 <= k < |p| ==> tab[pos + k] == p[k]) && tab[pos + |p|] == 0
  }

  lemma {:induction false} TextIs(tab: seq<byte>, pos: nat, p: Name)
    requires NoNul(p) && TextAt(tab, pos, p)
    ensures S.CString(tab, pos) == p
    decreases |p|
  {
    if p != [] {
      assert tab[pos] == tab[pos + 0] == p[0];
      forall k | 0 <= k < |p[1..]| ensures tab[pos + 1 + k] == p[1..][k] {
        assert tab[pos + (k + 1)] == p[k + 1];
      }
      TextIs(tab, pos + 1, p[1..]);
    }
  }

  /** Two tables that agree on a string and its end have the same string there. */
  lemma {:induction false} TextSame(a: seq<byte>, b: seq<byte>, pos: nat, n: nat)
    requires n == |S.CString(a, pos)| && pos + n < |a| && pos + n < |b|
    requires forall k :: pos <= k <= pos + n ==> b[k] == a[k]
    ensures S.CString(b, pos) == S.CString(a, pos)
    decreases n
  {
    if n > 0 {
      TextSame(a, b, pos + 1, n - 1);
    } else {
      assert b[pos] == a[pos];
    }
  }

  lemma TextEnds(a: seq<byte>, pos: nat)
    requires Closed(a) && pos < |a|
    ensures pos + |S.CString(a, pos)| < |a| && a[pos + |S.CString(a, pos)|] == 0
  {
    TextShape(a, pos);
  }

  // ---------------------------------------------------------------- the run path

  /** The last entry with the given tag, or the number of entries. */
  function Last(d: seq<Dyn>, tag: nat): (r: nat)
    ensures r <= |d| && (r < |d| ==> d[r].tag == tag)
    ensures forall j :: r < j < |d| ==> d[j].tag != tag
    ensures r == |d| ==> forall j :: 0 <= j < |d| ==> d[j].tag != tag
  {
    if d == [] then 0
    else if d[|d| - 1].tag == tag then |d| - 1
    else
      var r := Last(d[..|d| - 1], tag);
      assert forall j :: 0 <= j < |d| - 1 ==> d[..|d| - 1][j] == d[j];
      if r == |d| - 1 then |d| else r
  }

  predicate Present(d: seq<Dyn>, tag: nat) {
    Last(d, tag) < |d|
  }

  predicate AtMostOne(d: seq<Dyn>, tag: nat) {
    forall i, j :: 0 <= i < j < |d| ==> !(d[i].tag == tag && d[j].tag == tag)
  }

  lemma LastIs(d: seq<Dyn>, tag: nat, i: nat)
    requires i < |d| && d[i].tag == tag && forall j :: i < j < |d| ==> d[j].tag != tag
    ensures Last(d, tag) == i
  {
  }

  lemma LastIsNone(d: seq<Dyn>, tag: nat)
    requires forall j :: 0 <= j < |d| ==> d[j].tag != tag
    ensures Last(d, tag) == |d|
  {
  }

  /** The entry that counts: a DT_RUNPATH if there is one, otherwise a DT_RPATH. */
  function PathEntry(d: seq<Dyn>): (r: nat)
    ensures r <= |d|
  {
    if Present(d, DT_RUNPATH) then Last(d, DT_RUNPATH) else Last(d, DT_RPATH)
  }

  /** What `--print-rpath` prints. */
  function Printed(t: Tables): Name {
    if PathEntry(t.dyn) < |t.dyn| then t.Text(PathEntry(t.dyn)) else []
  }

  /** String references lie in the string table. */
  predicate StringsInTable(t: Tables) {
    forall i :: 0 <= i < |t.dyn| && t.dyn[i].tag in {DT_NEEDED, DT_RPATH, DT_RUNPATH} ==> t.dyn[i].val < |t.str|
  }

  /** A string table with the string at `pos` blotted out. */
  function Blotted(str: seq<byte>, pos: nat, n: nat): (r: seq<byte>)
    requires pos + n <= |str|
    ensures |r| == |str|
    ensures forall k :: 0 <= k < |str| && !(pos <= k < pos + n) ==> r[k] == str[k]
  {
    Splice(str, pos, Repeat(FILL, n))
  }

  /** A string table in which `p` has been written over the string at `pos`. */
  function Overwritten(str: seq<byte>, pos: nat, n: nat, p: Name): (r: seq<byte>)
    requires |p| <= n && pos + n < |str|
    ensures |r| == |str|
    ensures forall k :: 0 <= k < |str| && !(pos <= k <= pos + n) ==> r[k] == str[k]
    ensures str[pos + n] == 0 ==> r[pos + n] == 0
    ensures TextAt(r, pos, p)
  {
    Splice(Blotted(str, pos, n), pos, p + [0])
  }

  /** A string table with `p` added at its end. */
  function Lengthened(str: seq<byte>, p: Name): (r: seq<byte>)
    ensures |r| == |str| + |p| + 1 && r[..|str|] == str
    ensures forall k :: 0 <= k < |str| ==> r[k] == str[k]
    ensures TextAt(r, |str|, p) && Closed(r)
  {
    str + p + [0]
  }

  /** The entries with their tags changed as `--force-rpath`, or its absence, asks. */
  function Retagged(d: seq<Dyn>, force: bool): (r: seq<Dyn>)
    ensures |r| == |d|
  {
    var rp, run := Last(d, DT_RPATH), Last(d, DT_RUNPATH);
    if !force && rp < |d| && run == |d| then d[rp := d[rp].(tag := DT_RUNPATH)]
    else if force && rp < |d| && run < |d| then d[run := d[run].(tag := DT_IGNORE)]
    else d
  }

  /** The entries `rp` and `run`, if they exist, made to refer to `val`. */
  function Redirected(d: seq<Dyn>, rp: nat, run: nat, val: nat): (r: seq<Dyn>)
    ensures |r| == |d|
  {
    var d1 := if run < |d| then d[run := d[run].(val := val)] else d;
    if rp < |d| then d1[rp := d1[rp].(val := val)] else d1
  }

  lemma PathInTable(t: Tables)
    requires StringsInTable(t) && PathEntry(t.dyn) < |t.dyn|
    ensures t.dyn[PathEntry(t.dyn)].val < |t.str|
  {
  }

  /** The length of the current run path, if it has a place. */
  function PathLength(t: Tables): (n: nat)
    requires StringsInTable(t)
    ensures PathEntry(t.dyn) < |t.dyn| ==> t.dyn[PathEntry(t.dyn)].val + n <= |t.str|
  {
    var e := PathEntry(t.dyn);
    if e < |t.dyn| then
      PathInTable(t);
      TextShape(t.str, t.dyn[e].val);
      |t.Text(e)|
    else 0
  }

  /** The string table once the old run path has been blotted out. */
  function WithoutPath(t: Tables): (r: seq<byte>)
    requires StringsInTable(t)
    ensures |r| == |t.str|
  {
    var e := PathEntry(t.dyn);
    if e < |t.dyn| then Blotted(t.str, t.dyn[e].val, PathLength(t)) else t.str
  }

  /** The tables after the run path has been set to `p`, which differs from the old one. */
  function Changed(t: Tables, p: Name, force: bool): Tables
    requires StringsInTable(t) && Closed(t.str)
  {
    var d := Retagged(t.dyn, force);
    var rp, run := Last(t.dyn, DT_RPATH), Last(t.dyn, DT_RUNPATH);
    var e := PathEntry(t.dyn);
    if e < |t.dyn| && |p| <= PathLength(t) then
      TextEnds(t.str, t.dyn[e].val);
      Tables(d, Overwritten(t.str, t.dyn[e].val, PathLength(t), p))
    else
      Tables(if e < |t.dyn| then Redirected(d, rp, run, |t.str|)
             else [Dyn(if force then DT_RPATH else DT_RUNPATH, |t.str|)] + d,
             Lengthened(WithoutPath(t), p))
  }

  /** `--set-rpath`. */
  function WithPath(t: Tables, p: Name, force: bool): Tables
    requires StringsInTable(t) && Closed(t.str)
  {
    if Printed(t) == p then t else Changed(t, p, force)
  }

  /** The strings at `a` and `b` have no byte in common. */
  predicate Separate(str: seq<byte>, a: nat, b: nat) {
    a + |S.CString(str, a)| < b || b + |S.CString(str, b)| < a
  }

  /**
   The one case in which setting the run path fails to change what is printed: the string of the entry that is dropped is
   overwritten, and the entry that takes its place refers to another one.  If that one is a tail of the string that is
   overwritten, what is left there is filler, unless it is cut off by the new path; filler may just be what was to be set.
   */
  predicate Overlooked(t: Tables, p: Name, force: bool)
    requires StringsInTable(t)
  {
    var rp, run := Last(t.dyn, DT_RPATH), Last(t.dyn, DT_RUNPATH);
    && force && rp < |t.dyn| && run < |t.dyn|
    && |p| <= PathLength(t)
    && t.dyn[rp].val != t.dyn[run].val
    && Printed(t) != p
    && if Separate(t.str, t.dyn[rp].val, t.dyn[run].val) then t.Text(rp) != p
       else t.dyn[rp].val <= t.dyn[run].val + |p| || p != Repeat(FILL, |t.Text(rp)|)
  }

  /** Setting the run path and then printing it gives what was set, but for one case. */
  lemma SetThenPrint(t: Tables, p: Name, force: bool)
    requires StringsInTable(t) && Closed(t.str) && NoNul(p) && (force ==> AtMostOne(t.dyn, DT_RUNPATH))
    ensures Printed(WithPath(t, p, force)) == p <==> !Overlooked(t, p, force)
  {
    if Printed(t) != p {
      var e := PathEntry(t.dyn);
      if e < |t.dyn| && |p| <= PathLength(t) {
        PrintAfterOverwrite(t, p, force);
      } else if e < |t.dyn| {
        PrintAfterGrowth(t, p, force);
      } else {
        PrintAfterAddition(t, p, force);
      }
    }
  }

  /** The place of the run path after the tags have been changed. */
  lemma PathAfterRetagging(d: seq<Dyn>, force: bool)
    requires (force ==> AtMostOne(d, DT_RUNPATH)) && PathEntry(d) < |d|
    ensures PathEntry(Retagged(d, force))
            == if force && Present(d, DT_RPATH) && Present(d, DT_RUNPATH) then Last(d, DT_RPATH) else PathEntry(d)
  {
    hide Last;
    var rp, run := Last(d, DT_RPATH), Last(d, DT_RUNPATH);
    var r := Retagged(d, force);
    if !force && rp < |d| && run == |d| {
      LastIs(r, DT_RUNPATH, rp);
    } else if force && rp < |d| && run < |d| {
      LastIsNone(r, DT_RUNPATH);
      LastIs(r, DT_RPATH, rp);
    }
  }

  lemma PrintAfterOverwrite(t: Tables, p: Name, force: bool)
    requires StringsInTable(t) && Closed(t.str) && NoNul(p) && (force ==> AtMostOne(t.dyn, DT_RUNPATH))
    requires Printed(t) != p && PathEntry(t.dyn) < |t.dyn| && |p| <= PathLength(t)
    ensures Printed(Changed(t, p, force)) == p <==> !Overlooked(t, p, force)
  {
    hide S.CString, Overwritten, Last, AtMostOne;
    var e := PathEntry(t.dyn);
    var pos, n := t.dyn[e].val, PathLength(t);
    var rp := Last(t.dyn, DT_RPATH);
    TextEnds(t.str, pos);
    var str := Changed(t, p, force).str;
    PathAfterRetagging(t.dyn, force);
    TextIs(str, pos, p);
    if force && Present(t.dyn, DT_RPATH) && Present(t.dyn, DT_RUNPATH) && t.dyn[rp].val != pos {
      var at := t.dyn[rp].val;
      TextEnds(t.str, at);
      if Separate(t.str, at, pos) {
        TextSame(t.str, str, at, |t.Text(rp)|);
      } else {
        OverwrittenTail(t.str, pos, at, p);
      }
    }
  }

  /** What becomes of a string that shares its tail with the one that is overwritten. */
  lemma OverwrittenTail(str: seq<byte>, pos: nat, at: nat, p: Name)
    requires Closed(str) && NoNul(p) && pos < |str| && at < |str| && at != pos && !Separate(str, at, pos)
    requires |p| <= |S.CString(str, pos)| && pos + |S.CString(str, pos)| < |str|
    ensures S.CString(Overwritten(str, pos, |S.CString(str, pos)|, p), at) == p
       <==> at > pos + |p| && p == Repeat(FILL, |S.CString(str, at)|)
  {
    hide S.CString, Closed, Repeat, Overwritten;
    var n := |S.CString(str, pos)|;
    var r := Overwritten(str, pos, n, p);
    TextEnds(str, pos);
    TextEnds(str, at);
    TextShape(str, pos);
    TextShape(str, at);
    if at < pos {
      LongerText(str, r, pos, at, p);
    } else if at <= pos + |p| {
      ShorterText(r, pos, at, p);
    } else {
      FilledText(str, pos, n, at, p);
      assert at + |S.CString(str, at)| == pos + n;
    }
  }

  /** The text from `at` on runs into the new one. */
  lemma LongerText(str: seq<byte>, r: seq<byte>, pos: nat, at: nat, p: Name)
    requires at < pos <= |str| && TextAt(r, pos, p) && NoNul(p)
    requires forall k :: at <= k < pos ==> str[k] != 0 && r[k] == str[k]
    ensures |S.CString(r, at)| > |p|
  {
    hide S.CString;
    var q := str[at..pos] + p;
    forall k | 0 <= k < |q| ensures r[at + k] == q[k] && q[k] != 0 {
      if k >= pos - at {
        assert r[pos + (k - (pos - at))] == p[k - (pos - at)];
      }
    }
    TextIs(r, at, q);
  }

  /** The text from `at` on is the tail of the new one. */
  lemma ShorterText(r: seq<byte>, pos: nat, at: nat, p: Name)
    requires pos < at <= pos + |p| && TextAt(r, pos, p) && NoNul(p)
    ensures |S.CString(r, at)| < |p|
  {
    hide S.CString;
    var q := p[at - pos..];
    forall k | 0 <= k < |q| ensures r[at + k] == q[k] && q[k] != 0 {
      assert r[pos + (at - pos + k)] == p[at - pos + k];
    }
    TextIs(r, at, q);
  }

  /** The text from `at` on is filler. */
  lemma FilledText(str: seq<byte>, pos: nat, n: nat, at: nat, p: Name)
    requires pos + |p| < at <= pos + n < |str| && str[pos + n] == 0
    ensures S.CString(Overwritten(str, pos, n, p), at) == Repeat(FILL, pos + n - at)
  {
    hide S.CString;
    TextIs(Overwritten(str, pos, n, p), at, Repeat(FILL, pos + n - at));
  }

  lemma PrintAfterGrowth(t: Tables, p: Name, force: bool)
    requires StringsInTable(t) && Closed(t.str) && NoNul(p) && (force ==> AtMostOne(t.dyn, DT_RUNPATH))
    requires Printed(t) != p && PathEntry(t.dyn) < |t.dyn| && |p| > PathLength(t)
    ensures Printed(Changed(t, p, force)) == p
  {
    hide S.CString, Lengthened, Last, AtMostOne;
    var c := Changed(t, p, force);
    TextIs(c.str, |t.str|, p);
    PathAfterRetagging(t.dyn, force);
    SameTagsSamePath(Retagged(t.dyn, force), c.dyn);
  }

  lemma SameTagsSamePath(a: seq<Dyn>, b: seq<Dyn>)
    requires |a| == |b| && forall i :: 0 <= i < |a| ==> b[i].tag == a[i].tag
    ensures PathEntry(b) == PathEntry(a)
  {
    SameTagsSameLast(a, b, DT_RUNPATH);
    SameTagsSameLast(a, b, DT_RPATH);
  }

  lemma SameTagsSameLast(a: seq<Dyn>, b: seq<Dyn>, tag: nat)
    requires |a| == |b| && forall i :: 0 <= i < |a| ==> b[i].tag == a[i].tag
    ensures Last(b, tag) == Last(a, tag)
  {
    if Last(a, tag) < |a| {
      LastIs(b, tag, Last(a, tag));
    } else {
      LastIsNone(b, tag);
    }
  }

  lemma PrintAfterAddition(t: Tables, p: Name, force: bool)
    requires StringsInTable(t) && Closed(t.str) && NoNul(p) && PathEntry(t.dyn) == |t.dyn|
    ensures Printed(Changed(t, p, force)) == p
  {
    var c := Changed(t, p, force);
    TextIs(c.str, |t.str|, p);
    if force {
      LastIsNone(c.dyn, DT_RUNPATH);
      LastIs(c.dyn, DT_RPATH, 0);
    } else {
      LastIs(c.dyn, DT_RUNPATH, 0);
    }
  }

  /** A file for which `--set-rpath` with `--force-rpath` has no effect on what is printed. */
  lemma ForcedSetCanBeOverlooked()
    ensures exists t, p :: StringsInTable(t) && Closed(t.str) && NoNul(p) && Printed(WithPath(t, p, true)) != p
  {
    hide WithPath, Last, AtMostOne, S.CString;
    var t := Tables([Dyn(DT_RPATH, 1), Dyn(DT_RUNPATH, 4)], [0, 0x2f, 0x61, 0, 0x2f, 0x62, 0]);
    var p: Name := [0x2f, 0x63];
    TextIs(t.str, 1, [0x2f, 0x61]);
    TextIs(t.str, 4, [0x2f, 0x62]);
    OneOfEach(t.dyn);
    SetThenPrint(t, p, true);
  }

  lemma OneOfEach(d: seq<Dyn>)
    requires |d| == 2 && d[0].tag == DT_RPATH && d[1].tag == DT_RUNPATH
    ensures Last(d, DT_RPATH) == 0 && Last(d, DT_RUNPATH) == 1 && AtMostOne(d, DT_RUNPATH)
  {
    LastIs(d, DT_RPATH, 0);
    LastIs(d, DT_RUNPATH, 1);
  }

  /** Which tags are left: without `--force-rpath` there is a DT_RUNPATH; with it there is none, unless the file had one and no DT_RPATH. */
  lemma TagsAfterSet(t: Tables, p: Name, force: bool)
    requires StringsInTable(t) && Closed(t.str) && Printed(t) != p
    requires force ==> AtMostOne(t.dyn, DT_RUNPATH)
    ensures Present(WithPath(t, p, force).dyn, DT_RUNPATH)
            <==> !force || (Present(t.dyn, DT_RUNPATH) && !Present(t.dyn, DT_RPATH))
  {
    hide S.CString, Overwritten, Lengthened, Blotted, Last, NoNul, StringsInTable, Closed;
    var c := WithPath(t, p, force).dyn;
    var rp, run := Last(t.dyn, DT_RPATH), Last(t.dyn, DT_RUNPATH);
    if PathEntry(t.dyn) == |t.dyn| {
      assert forall j :: 1 <= j < |c| ==> c[j] == t.dyn[j - 1];
      if force {
        LastIsNone(c, DT_RUNPATH);
      } else {
        LastIs(c, DT_RUNPATH, 0);
      }
    } else {
      var r := Retagged(t.dyn, force);
      SameTagsSameLast(r, c, DT_RUNPATH);
      if !force && run == |t.dyn| {
        LastIs(r, DT_RUNPATH, rp);
      } else if force && rp < |t.dyn| && run < |t.dyn| {
        LastIsNone(r, DT_RUNPATH);
      }
    }
  }

  /** Every other entry stays as it is, in its place or one further down. */
  lemma OtherEntriesStay(t: Tables, p: Name, force: bool, i: nat)
    requires StringsInTable(t) && Closed(t.str)
    requires i < |t.dyn| && t.dyn[i].tag != DT_RPATH && t.dyn[i].tag != DT_RUNPATH
    ensures var d := WithPath(t, p, force).dyn;
      |d| >= |t.dyn| && d[i + |d| - |t.dyn|] == t.dyn[i]
  {
    hide S.CString, Lengthened, Overwritten, Blotted, Last, Retagged, Redirected;
    OthersNotChanged(t.dyn, force, i, |t.str|);
  }

  lemma OthersNotChanged(d: seq<Dyn>, force: bool, i: nat, val: nat)
    requires i < |d| && d[i].tag != DT_RPATH && d[i].tag != DT_RUNPATH
    ensures Retagged(d, force)[i] == d[i]
    ensures Redirected(Retagged(d, force), Last(d, DT_RPATH), Last(d, DT_RUNPATH), val)[i] == d[i]
  {
    hide Last;
  }

  /** Every string that shares no byte with the old run path reads as before. */
  lemma OtherStringsStay(t: Tables, p: Name, force: bool, pos: nat)
    requires StringsInTable(t) && Closed(t.str) && NoNul(p) && pos < |t.str|
    requires PathEntry(t.dyn) < |t.dyn| ==>
      Apart(pos, |S.CString(t.str, pos)|, t.dyn[PathEntry(t.dyn)].val, PathLength(t))
    ensures S.CString(WithPath(t, p, force).str, pos) == S.CString(t.str, pos)
  {
    hide S.CString, Overwritten, Lengthened, Blotted, Last, Retagged;
    if Printed(t) != p {
      var e := PathEntry(t.dyn);
      var str := Changed(t, p, force).str;
      var n := |S.CString(t.str, pos)|;
      TextEnds(t.str, pos);
      if e < |t.dyn| {
        var at := t.dyn[e].val;
        PathInTable(t);
        TextShape(t.str, pos);
        TextShape(t.str, at);
        TextEnds(t.str, at);
        forall k | pos <= k <= pos + n ensures str[k] == t.str[k] {
          assert k == at + PathLength(t) || !(at <= k < at + PathLength(t));
        }
      }
      TextSame(t.str, str, pos, n);
    }
  }

  // ---------------------------------------------------------------- dropping entries

  /** The entries that are not dropped, in order. */
  function Dropped(d: seq<Dyn>, drop: Dyn -> bool): (r: seq<Dyn>)
    ensures |r| <= |d|
  {
    if d == [] then [] else (if drop(d[0]) then [] else [d[0]]) + Dropped(d[1..], drop)
  }

  lemma {:induction false} DroppedStep(d: seq<Dyn>, k: nat, drop: Dyn -> bool)
    requires k < |d|
    ensures Dropped(d[..k + 1], drop) == Dropped(d[..k], drop) + (if drop(d[k]) then [] else [d[k]])
    decreases k
  {
    if k > 0 {
      DroppedStep(d[1..], k - 1, drop);
      assert d[..k + 1][1..] == d[1..][..k] && d[..k][1..] == d[1..][..k - 1];
      var h, t, x := if drop(d[0]) then [] else [d[0]], Dropped(d[1..][..k - 1], drop), if drop(d[k]) then [] else [d[k]];
      assert h + (t + x) == (h + t) + x;
    } else {
      assert d[..1][1..] == [];
    }
  }

  predicate IsPath(e: Dyn) {
    e.tag == DT_RPATH || e.tag == DT_RUNPATH
  }

  /** The entries without those for the run path, in order. */
  function WithoutPaths(d: seq<Dyn>): seq<Dyn> {
    Dropped(d, e => IsPath(e))
  }

  /** `--remove-rpath` leaves no run path, and exactly the other entries, in their order. */
  lemma {:induction false} RemovePathMeaning(d: seq<Dyn>, str: seq<byte>)
    ensures Printed(Tables(WithoutPaths(d), str)) == []
    ensures forall e :: multiset(WithoutPaths(d))[e] == if IsPath(e) then 0 else multiset(d)[e]
  {
    NoneLeft(d, e => IsPath(e));
    LastIsNone(WithoutPaths(d), DT_RPATH);
    LastIsNone(WithoutPaths(d), DT_RUNPATH);
  }

  lemma {:induction false} NoneLeft(d: seq<Dyn>, drop: Dyn -> bool)
    ensures forall i :: 0 <= i < |Dropped(d, drop)| ==> !drop(Dropped(d, drop)[i])
    ensures forall e :: multiset(Dropped(d, drop))[e] == if drop(e) then 0 else multiset(d)[e]
    decreases |d|
  {
    if d != [] {
      NoneLeft(d[1..], drop);
      assert d == [d[0]] + d[1..];
    }
  }
}
