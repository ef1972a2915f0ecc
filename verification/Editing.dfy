/** The editing operations on a file: the dynamic section and its string table, changed in place or replaced by longer ones. */
module Editing {
  import opened Bytes
  import opened Wrappers
  import opened ElfTypes
  import opened Image
  import opened Layout
  import opened Patching
  import opened Dynamic
  import opened DynamicBytes
  import opened ElfFiles
  import S = Sections

  /** How an operation can end: normally, or at an error exit or a failed assertion about the input. */
  datatype EditEnding = Fine | NoSuchSection | NoStringTable | StringTableElsewhere

  /** Where the dynamic section and its string table lie. */
  datatype Areas = Areas(dynOff: nat, dynSize: nat, strOff: nat, strSize: nat)

  /** The areas of `c` hold the entries `l` and the strings `str`. */
  predicate At(cls: ElfClass, c: seq<byte>, a: Areas, l: seq<Dyn>, str: seq<byte>) {
    && a.dynOff + a.dynSize <= |c| && a.strOff + a.strSize <= |c|
    && Apart(a.dynOff, a.dynSize, a.strOff, a.strSize)
    && Terminated(cls, Slice(c, a.dynOff, a.dynSize))
    && Decoded(cls, Slice(c, a.dynOff, a.dynSize)) == l
    && Slice(c, a.strOff, a.strSize) == str
  }

  /** `c` differs from `c0` at most in the areas. */
  predicate OnlyAreas(c0: seq<byte>, c: seq<byte>, a: Areas) {
    && |c| == |c0|
    && forall p :: 0 <= p < |c| && !(a.dynOff <= p < a.dynOff + a.dynSize) && !(a.strOff <= p < a.strOff + a.strSize)
         ==> c[p] == c0[p]
  }

  /** The dynamic table and its strings, as they are or are going to be. */
  function TablesOf(s: State): Tables
    requires s.Has(DYNAMIC) && s.InBuffer(DYNAMIC) && s.Has(DYNSTR) && s.InBuffer(DYNSTR)
  {
    Tables(Decoded(s.cfg.cls, Current(s, DYNAMIC)), Current(s, DYNSTR))
  }

  /** A file whose dynamic section, if it has one, is terminated, with a closed string table for its strings. */
  ghost predicate Editable(s: State) {
    && WellFormed(s) && s.replaced == []
    && (s.Has(DYNAMIC) ==> s.Backed(DYNAMIC) && s.InBuffer(DYNAMIC))
    && (s.Has(DYNSTR) ==> s.Backed(DYNSTR) && s.InBuffer(DYNSTR))
    && (s.Has(DYNAMIC) && s.Has(DYNSTR) ==>
          Terminated(s.cfg.cls, s.Content(DYNAMIC)) && Closed(s.Content(DYNSTR)) && StringsInTable(TablesOf(s)))
  }

  /** `t` is `s` with the tables `tb`; everything else is as it was. */
  ghost predicate EditedTo(s: State, t: State, tb: Tables) {
    && t == s.(contents := t.contents, replaced := t.replaced) && |t.contents| == |s.contents|
    && Requested(t)
    && t.Has(DYNAMIC) && t.InBuffer(DYNAMIC) && t.Has(DYNSTR) && t.InBuffer(DYNSTR)
    && Terminated(t.cfg.cls, Current(t, DYNAMIC)) && TablesOf(t) == tb
    && (forall n :: s.Backed(n) && n != DYNAMIC && n != DYNSTR ==>
          !Keyed(t.replaced, n) && s.InBuffer(n) && t.InBuffer(n) && t.Content(n) == s.Content(n))
  }

  // ---------------------------------------------------------------- writes into the areas

  lemma SliceOfSplice(c: seq<byte>, off: nat, n: nat, k: nat, x: seq<byte>)
    requires off + n <= |c| && k + |x| <= n
    ensures Slice(Splice(c, off + k, x), off, n) == Splice(Slice(c, off, n), k, x)
  {
  }

  lemma EntryWritten(cls: ElfClass, c0: seq<byte>, c: seq<byte>, a: Areas, l: seq<Dyn>, str: seq<byte>, k: nat, e: Dyn)
    requires At(cls, c, a, l, str) && OnlyAreas(c0, c, a) && k < |l| && Storable(cls, e)
    ensures a.dynOff + Span(cls, k) + cls.DynSize() <= a.dynOff + a.dynSize <= |c|
    ensures var c' := Splice(c, a.dynOff + Span(cls, k), Encoded(cls, e));
      At(cls, c', a, l[k := e], str) && OnlyAreas(c0, c', a)
  {
    hide Encoded, Terminated, Decoded, Splice, Slice, Storable, Span;
    StoredAt(cls, Slice(c, a.dynOff, a.dynSize), k, e);
    SliceOfSplice(c, a.dynOff, a.dynSize, Span(cls, k), Encoded(cls, e));
    SpliceFrame(c, a.dynOff + Span(cls, k), Encoded(cls, e), a.strOff, a.strSize);
    InsideArea(c0, c, a, a.dynOff + Span(cls, k), Encoded(cls, e));
  }

  lemma InsideArea(c0: seq<byte>, c: seq<byte>, a: Areas, pos: nat, x: seq<byte>)
    requires OnlyAreas(c0, c, a) && pos + |x| <= |c|
    requires (a.dynOff <= pos && pos + |x| <= a.dynOff + a.dynSize) || (a.strOff <= pos && pos + |x| <= a.strOff + a.strSize)
    ensures OnlyAreas(c0, Splice(c, pos, x), a)
  {
  }

  lemma StringWritten(cls: ElfClass, c0: seq<byte>, c: seq<byte>, a: Areas, l: seq<Dyn>, str: seq<byte>, pos: nat, x: seq<byte>)
    requires At(cls, c, a, l, str) && OnlyAreas(c0, c, a) && pos + |x| <= |str|
    ensures |str| == a.strSize && a.strOff + a.strSize <= |c|
    ensures var c' := Splice(c, a.strOff + pos, x);
      At(cls, c', a, l, Splice(str, pos, x)) && OnlyAreas(c0, c', a)
  {
    hide Terminated, Decoded, Splice, Slice;
    SliceOfSplice(c, a.strOff, a.strSize, pos, x);
    SpliceFrame(c, a.strOff + pos, x, a.dynOff, a.dynSize);
    InsideArea(c0, c, a, a.strOff + pos, x);
  }

  /** Stores an entry over the one at index `k`. */
  method StoreEntry(f: ElfFile, a: Areas, k: nat, e: Dyn, ghost c0: seq<byte>, ghost l: seq<Dyn>, ghost str: seq<byte>)
    requires At(f.cfg.cls, f.contents[..], a, l, str) && OnlyAreas(c0, f.contents[..], a)
    requires k < |l| && Storable(f.cfg.cls, e)
    modifies f.contents
    ensures At(f.cfg.cls, f.contents[..], a, l[k := e], str) && OnlyAreas(c0, f.contents[..], a)
  {
    hide At, OnlyAreas, Encoded, Storable, Splice;
    EntryWritten(f.cfg.cls, c0, f.contents[..], a, l, str, k, e);
    f.Memcpy(a.dynOff + Span(f.cfg.cls, k), Encoded(f.cfg.cls, e));
  }

  /** Writes into the string table. */
  method StoreString(f: ElfFile, a: Areas, pos: nat, x: seq<byte>, ghost c0: seq<byte>, ghost l: seq<Dyn>, ghost str: seq<byte>)
    requires At(f.cfg.cls, f.contents[..], a, l, str) && OnlyAreas(c0, f.contents[..], a)
    requires pos + |x| <= |str|
    modifies f.contents
    ensures At(f.cfg.cls, f.contents[..], a, l, Splice(str, pos, x)) && OnlyAreas(c0, f.contents[..], a)
  {
    hide At, OnlyAreas, Splice;
    StringWritten(f.cfg.cls, c0, f.contents[..], a, l, str, pos, x);
    f.Memcpy(a.strOff + pos, x);
  }

  lemma EntryBytes(c: seq<byte>, off: nat, size: nat, n: nat, w: nat, sz: nat)
    requires off + size <= |c| && n + sz <= size && w <= sz
    ensures c[off + n..off + n + sz][..w] == Slice(c, off, size)[n..][..w]
    ensures c[off + n..off + n + sz][w..sz] == Slice(c, off, size)[n..][w..sz]
  {
    var a, b := c[off + n..off + n + sz], Slice(c, off, size)[n..];
    assert forall i :: 0 <= i < sz ==> a[i] == b[i];
    assert a[w..sz] == b[w..sz];
  }

  lemma EntryInBuffer(cls: ElfClass, c: seq<byte>, a: Areas, l: seq<Dyn>, str: seq<byte>, k: nat)
    requires At(cls, c, a, l, str) && k <= |l|
    ensures a.dynOff + Span(cls, k) + cls.DynSize() <= |c|
    ensures var e := c[a.dynOff + Span(cls, k)..a.dynOff + Span(cls, k) + cls.DynSize()];
      if k < |l| then FullTag(cls, e) == l[k].tag != DT_NULL && DynVal(cls, e) == l[k].val else FullTag(cls, e) == DT_NULL
  {
    hide FromLE, Terminated, Decoded, Span;
    var d := Slice(c, a.dynOff, a.dynSize);
    EntryAt(cls, d, k);
    var w, sz, n := cls.OffSize(), cls.DynSize(), Span(cls, k);
    var e := c[a.dynOff + n..a.dynOff + n + sz];
    EntryBytes(c, a.dynOff, a.dynSize, n, w, sz);
  }

  /** Reads the entry at index `k`; behind the last one there is one with tag DT_NULL. */
  method ReadEntry(f: ElfFile, a: Areas, k: nat, ghost l: seq<Dyn>, ghost str: seq<byte>) returns (e: Dyn)
    requires At(f.cfg.cls, f.contents[..], a, l, str) && k <= |l|
    ensures if k < |l| then e == l[k] && e.tag != DT_NULL else e.tag == DT_NULL
  {
    hide At, FullTag, DynVal, Span;
    EntryInBuffer(f.cfg.cls, f.contents[..], a, l, str, k);
    var pos := a.dynOff + Span(f.cfg.cls, k);
    var bs := f.contents[pos..pos + f.cfg.cls.DynSize()];
    e := Dyn(FullTag(f.cfg.cls, bs), DynVal(f.cfg.cls, bs));
  }

  /** The entries of the section can be stored. */
  lemma AtStorable(cls: ElfClass, c: seq<byte>, a: Areas, l: seq<Dyn>, str: seq<byte>)
    requires At(cls, c, a, l, str)
    ensures AllStorable(cls, l)
  {
    hide Span, AllEncoded;
    Decomposed(cls, Slice(c, a.dynOff, a.dynSize));
  }

  method StoreTag(f: ElfFile, a: Areas, k: nat, tag: nat, ghost c0: seq<byte>, ghost l: seq<Dyn>, ghost str: seq<byte>)
    requires At(f.cfg.cls, f.contents[..], a, l, str) && OnlyAreas(c0, f.contents[..], a)
    requires k < |l| && 0 < tag < 0x1_0000_0000
    modifies f.contents
    ensures At(f.cfg.cls, f.contents[..], a, l[k := l[k].(tag := tag)], str) && OnlyAreas(c0, f.contents[..], a)
  {
    hide At, OnlyAreas;
    Pow256Values();
    AtStorable(f.cfg.cls, f.contents[..], a, l, str);
    var e := ReadEntry(f, a, k, l, str);
    StoreEntry(f, a, k, e.(tag := tag), c0, l, str);
  }

  method StoreVal(f: ElfFile, a: Areas, k: nat, val: nat, ghost c0: seq<byte>, ghost l: seq<Dyn>, ghost str: seq<byte>)
    requires At(f.cfg.cls, f.contents[..], a, l, str) && OnlyAreas(c0, f.contents[..], a)
    requires k < |l| && val < 0x1_0000_0000
    modifies f.contents
    ensures At(f.cfg.cls, f.contents[..], a, l[k := l[k].(val := val)], str) && OnlyAreas(c0, f.contents[..], a)
  {
    hide At, OnlyAreas;
    Pow256Values();
    AtStorable(f.cfg.cls, f.contents[..], a, l, str);
    var e := ReadEntry(f, a, k, l, str);
    StoreEntry(f, a, k, e.(val := val), c0, l, str);
  }

  // ---------------------------------------------------------------- finding the sections

  lemma EditableAreas(s: State, a: Areas)
    requires Editable(s) && s.Has(DYNAMIC) && s.Has(DYNSTR)
    requires a == Areas(s.Sec(DYNAMIC).offset, s.Sec(DYNAMIC).size, s.Sec(DYNSTR).offset, s.Sec(DYNSTR).size)
    ensures At(s.cfg.cls, s.contents, a, TablesOf(s).dyn, TablesOf(s).str)
    ensures OnlyAreas(s.contents, s.contents, a) && a.strSize <= 0x4000_0000 && a.dynSize <= 0x4000_0000
    ensures StringsInTable(TablesOf(s)) && Closed(TablesOf(s).str)
  {
    hide S.Sortable, Terminated, Decoded;
  }

  /** Finds the dynamic section and its string table. */
  method Locate(f: ElfFile) returns (ok: bool, a: Areas)
    requires Editable(f.Snap())
    ensures ok <==> f.Snap().Has(DYNAMIC) && f.Snap().Has(DYNSTR)
    ensures ok ==> var s := f.Snap();
      && a == Areas(s.Sec(DYNAMIC).offset, s.Sec(DYNAMIC).size, s.Sec(DYNSTR).offset, s.Sec(DYNSTR).size)
  {
    hide Editable;
    var i := f.FindSection3(DYNAMIC);
    var j := f.FindSection3(DYNSTR);
    if i == 0 || j == 0 {
      return false, Areas(0, 0, 0, 0);
    }
    return true, Areas(f.shdrs[i].offset, f.shdrs[i].size, f.shdrs[j].offset, f.shdrs[j].size);
  }

  /** The last entry with the given tag, if there is one. */
  function LastEntry(d: seq<Dyn>, tag: nat): Option<nat> {
    if Last(d, tag) < |d| then Some(Last(d, tag)) else None
  }

  lemma LastEntryStep(d: seq<Dyn>, k: nat, tag: nat)
    requires k < |d|
    ensures LastEntry(d[..k + 1], tag) == if d[k].tag == tag then Some(k) else LastEntry(d[..k], tag)
  {
    assert d[..k + 1][..k] == d[..k];
  }

  /** The address in the last entry for the string table, or 0. */
  method StringTableAddress(f: ElfFile, a: Areas, ghost l: seq<Dyn>, ghost str: seq<byte>) returns (addr: nat)
    requires At(f.cfg.cls, f.contents[..], a, l, str)
    ensures addr == if Present(l, DT_STRTAB) then l[Last(l, DT_STRTAB)].val else 0
  {
    hide At, Last;
    addr := 0;
    var k := 0;
    while true
      invariant k <= |l|
      invariant addr == match LastEntry(l[..k], DT_STRTAB) case None => 0 case Some(i) => l[i].val
      decreases |l| - k
    {
      var e := ReadEntry(f, a, k, l, str);
      if e.tag == DT_NULL {
        assert l[..k] == l;
        return;
      }
      LastEntryStep(l, k, DT_STRTAB);
      if e.tag == DT_STRTAB {
        addr := e.val;
      }
      k := k + 1;
    }
  }

  /** The run path entries, and the place of the string that counts. */
  method FindPath(f: ElfFile, a: Areas, ghost l: seq<Dyn>, ghost str: seq<byte>)
    returns (rp: Option<nat>, run: Option<nat>, path: Option<nat>)
    requires At(f.cfg.cls, f.contents[..], a, l, str)
    ensures rp == LastEntry(l, DT_RPATH) && run == LastEntry(l, DT_RUNPATH)
    ensures path == if PathEntry(l) < |l| then Some(l[PathEntry(l)].val) else None
  {
    hide At, Last;
    rp, run, path := None, None, None;
    var k := 0;
    while true
      invariant k <= |l|
      invariant rp == LastEntry(l[..k], DT_RPATH) && run == LastEntry(l[..k], DT_RUNPATH)
      invariant path == if run.Some? then Some(l[run.value].val) else if rp.Some? then Some(l[rp.value].val) else None
      decreases |l| - k
    {
      var e := ReadEntry(f, a, k, l, str);
      if e.tag == DT_NULL {
        assert l[..k] == l;
        return;
      }
      LastEntryStep(l, k, DT_RPATH);
      LastEntryStep(l, k, DT_RUNPATH);
      if e.tag == DT_RPATH {
        rp := Some(k);
        if run.None? {
          path := Some(e.val);
        }
      } else if e.tag == DT_RUNPATH {
        run := Some(k);
        path := Some(e.val);
      }
      k := k + 1;
    }
  }

  /** What opening the dynamic section comes to. */
  function Opening(s: State): EditEnding
    requires s.Has(DYNAMIC) ==> s.InBuffer(DYNAMIC)
    requires s.Has(DYNSTR) ==> s.InBuffer(DYNSTR)
  {
    if !s.Has(DYNAMIC) || !s.Has(DYNSTR) then NoSuchSection
    else
      var d := TablesOf(s).dyn;
      var addr := if Present(d, DT_STRTAB) then d[Last(d, DT_STRTAB)].val else 0;
      if addr == 0 then NoStringTable
      else if addr != s.Sec(DYNSTR).addr then StringTableElsewhere
      else Fine
  }

  /** The beginning of `modifyRPath`: the dynamic section must refer to the string table. */
  method Open(f: ElfFile) returns (r: EditEnding, a: Areas)
    requires Editable(f.Snap())
    ensures r == Opening(f.Snap())
    ensures r.Fine? ==> var s := f.Snap();
      && s.Has(DYNAMIC) && s.Has(DYNSTR) && s.InBuffer(DYNAMIC) && s.InBuffer(DYNSTR)
      && a == Areas(s.Sec(DYNAMIC).offset, s.Sec(DYNAMIC).size, s.Sec(DYNSTR).offset, s.Sec(DYNSTR).size)
  {
    hide WellFormed, Terminated, Decoded, StringsInTable;
    ghost var s := f.Snap();
    var ok;
    ok, a := Locate(f);
    if !ok {
      return NoSuchSection, a;
    }
    EditableAreas(s, a);
    var addr := StringTableAddress(f, a, TablesOf(s).dyn, TablesOf(s).str);
    if addr == 0 {
      return NoStringTable, a;
    }
    var j := f.FindSection3(DYNSTR);
    if addr != f.shdrs[j].addr {
      return StringTableElsewhere, a;
    }
    return Fine, a;
  }

  // ---------------------------------------------------------------- replacing the sections

  /** Only the dynamic section and its string table are being replaced. */
  predicate OnlyTables(rs: seq<Replacement>) {
    && Ascending(rs) && Small(rs)
    && forall j :: 0 <= j < |rs| ==> rs[j].name == DYNAMIC || rs[j].name == DYNSTR
  }

  lemma OnlyTablesPut(rs: seq<Replacement>, n: Name, d: seq<byte>)
    requires OnlyTables(rs) && |d| <= 0x8000_0000 && (n == DYNAMIC || n == DYNSTR)
    ensures OnlyTables(Put(rs, n, d))
  {
    PutAscending(rs, n, d);
    forall j | 0 <= j < |Put(rs, n, d)|
      ensures |Put(rs, n, d)[j].data| <= 0x8000_0000
      ensures Put(rs, n, d)[j].name == DYNAMIC || Put(rs, n, d)[j].name == DYNSTR
    {
      PutElements(rs, n, d, j);
    }
  }

  /** The replacement for `n`, or `d` if there is none. */
  function DataOr(rs: seq<Replacement>, n: Name, d: seq<byte>): seq<byte> {
    if Keyed(rs, n) then Data(rs, n) else d
  }

  /** `rs` is `rs0` with the data `d` for `n`. */
  ghost predicate ReplacedBy(rs0: seq<Replacement>, rs: seq<Replacement>, n: Name, d: seq<byte>) {
    && OnlyTables(rs) && Keyed(rs, n) && Data(rs, n) == d
    && (forall m :: m != n ==> Keyed(rs, m) == Keyed(rs0, m))
    && (forall m :: m != n && Keyed(rs0, m) && Keyed(rs, m) ==> Data(rs, m) == Data(rs0, m))
  }

  lemma PutReplaces(rs: seq<Replacement>, n: Name, d: seq<byte>)
    requires OnlyTables(rs) && |d| <= 0x8000_0000 && (n == DYNAMIC || n == DYNSTR)
    ensures ReplacedBy(rs, Put(rs, n, d), n, d)
  {
    hide IndexOf, Put, OnlyTables;
    OnlyTablesPut(rs, n, d);
    var r := Put(rs, n, d);
    PutLookup(rs, n, d, n);
    forall m | m != n ensures Keyed(r, m) == Keyed(rs, m)
                      ensures Keyed(rs, m) ==> Data(r, m) == Data(rs, m)
    {
      PutLookup(rs, n, d, m);
    }
  }

  lemma ReplacedAgain(a: seq<Replacement>, b: seq<Replacement>, c: seq<Replacement>, n: Name, d: seq<byte>, e: seq<byte>)
    requires ReplacedBy(a, b, n, d) && ReplacedBy(b, c, n, e)
    ensures ReplacedBy(a, c, n, e)
  {
    hide IndexOf, OnlyTables;
  }

  /** Gives the section called `n`, whose bytes are `d`, another length. */
  method Resize(f: ElfFile, n: Name, ghost d: seq<byte>, size: nat)
    requires f.Snap().Has(n) && f.Snap().InBuffer(n) && d == DataOr(f.replaced, n, f.Snap().Content(n))
    requires OnlyTables(f.replaced) && (n == DYNAMIC || n == DYNSTR) && size <= 0x8000_0000
    modifies f`replaced
    ensures ReplacedBy(old(f.replaced), f.replaced, n, Resized(d, size))
  {
    hide IndexOf, Put, Resized, OnlyTables, ReplacedBy;
    PutReplaces(f.replaced, n, Resized(d, size));
    var _ := f.ReplaceSection(n, size);
  }

  /** `setSubstr` on the replacement `d` of a section; its assertion is the last precondition. */
  method SetSubstr(f: ElfFile, n: Name, ghost d: seq<byte>, pos: nat, x: seq<byte>)
    requires Keyed(f.replaced, n) && Data(f.replaced, n) == d && |d| <= 0x8000_0000
    requires OnlyTables(f.replaced) && (n == DYNAMIC || n == DYNSTR)
    requires pos + |x| <= |d|
    modifies f`replaced
    ensures ReplacedBy(old(f.replaced), f.replaced, n, Splice(d, pos, x))
  {
    hide IndexOf, Put, Splice, OnlyTables, ReplacedBy;
    PutReplaces(f.replaced, n, Splice(d, pos, x));
    f.replaced := Put(f.replaced, n, Splice(Data(f.replaced, n), pos, x));
  }

  /** The state of the file in the course of an operation: the tables as they are in place, and what replaces them. */
  ghost predicate Midway(s: State, t: State, a: Areas, l: seq<Dyn>, str: seq<byte>) {
    && t == s.(contents := t.contents, replaced := t.replaced)
    && At(s.cfg.cls, t.contents, a, l, str) && OnlyAreas(s.contents, t.contents, a)
    && OnlyTables(t.replaced)
  }

  /** An operation is complete. */
  lemma EditedIntro(s: State, t: State, a: Areas, l: seq<Dyn>, str: seq<byte>, tb: Tables)
    requires Editable(s) && s.Has(DYNAMIC) && s.Has(DYNSTR)
    requires a == Areas(s.Sec(DYNAMIC).offset, s.Sec(DYNAMIC).size, s.Sec(DYNSTR).offset, s.Sec(DYNSTR).size)
    requires Midway(s, t, a, l, str)
    requires if Keyed(t.replaced, DYNAMIC)
             then Terminated(s.cfg.cls, Data(t.replaced, DYNAMIC)) && tb.dyn == Decoded(s.cfg.cls, Data(t.replaced, DYNAMIC))
             else tb.dyn == l
    requires tb.str == DataOr(t.replaced, DYNSTR, str)
    ensures EditedTo(s, t, tb)
  {
    hide S.Sortable, Terminated, Decoded, StringsInTable, Closed;
    assert forall n :: t.Has(n) <==> s.Has(n);
    assert forall n :: s.Has(n) ==> t.Sec(n) == s.Sec(n);
    forall n | s.Backed(n) && n != DYNAMIC && n != DYNSTR
      ensures !Keyed(t.replaced, n) && s.InBuffer(n) && t.InBuffer(n) && t.Content(n) == s.Content(n)
    {
      OtherUntouched(s, t, a, n);
    }
    forall j | 0 <= j < |t.replaced| ensures t.Backed(t.replaced[j].name) {
      assert t.replaced[j].name == DYNAMIC || t.replaced[j].name == DYNSTR;
    }
  }

  lemma OtherUntouched(s: State, t: State, a: Areas, n: Name)
    requires Editable(s) && s.Has(DYNAMIC) && s.Has(DYNSTR)
    requires a == Areas(s.Sec(DYNAMIC).offset, s.Sec(DYNAMIC).size, s.Sec(DYNSTR).offset, s.Sec(DYNSTR).size)
    requires t == s.(contents := t.contents, replaced := t.replaced)
    requires OnlyAreas(s.contents, t.contents, a) && OnlyTables(t.replaced)
    requires s.Backed(n) && n != DYNAMIC && n != DYNSTR
    ensures !Keyed(t.replaced, n) && s.InBuffer(n) && t.InBuffer(n) && t.Content(n) == s.Content(n)
  {
    hide S.Sortable, Terminated, Decoded, StringsInTable, Closed;
    var h := s.Sec(n);
    assert s.Backed(DYNAMIC) && s.Backed(DYNSTR);
    forall p | h.offset <= p < h.offset + h.size ensures t.contents[p] == s.contents[p] {
    }
    assert t.Content(n) == s.Content(n);
  }

  // ---------------------------------------------------------------- the run path

  /** The string at `pos`. */
  method ReadString(f: ElfFile, a: Areas, pos: nat, ghost l: seq<Dyn>, ghost str: seq<byte>) returns (p: Name)
    requires At(f.cfg.cls, f.contents[..], a, l, str)
    ensures p == S.CString(str, pos)
  {
    p := S.CString(f.contents[a.strOff..a.strOff + a.strSize], pos);
  }

  /** `--print-rpath`. */
  method PrintRPath(f: ElfFile) returns (r: EditEnding, p: Name)
    requires Editable(f.Snap())
    ensures r == Opening(f.Snap())
    ensures r.Fine? ==> p == Printed(TablesOf(f.Snap()))
  {
    hide Editable, At, Opening;
    var a;
    r, a := Open(f);
    p := [];
    if r.Fine? {
      ghost var t := TablesOf(f.Snap());
      EditableAreas(f.Snap(), a);
      var _, _, path := FindPath(f, a, t.dyn, t.str);
      if path.Some? {
        p := ReadString(f, a, path.value, t.dyn, t.str);
      }
    }
  }

  /** Changes the tags as `--force-rpath`, or its absence, asks; the entries that are to refer to the new path are left. */
  method Retag(f: ElfFile, a: Areas, rp: Option<nat>, run: Option<nat>, force: bool, ghost c0: seq<byte>, ghost l: seq<Dyn>, ghost str: seq<byte>)
    returns (rp': Option<nat>, run': Option<nat>)
    requires At(f.cfg.cls, f.contents[..], a, l, str) && OnlyAreas(c0, f.contents[..], a)
    requires rp == LastEntry(l, DT_RPATH) && run == LastEntry(l, DT_RUNPATH)
    modifies f.contents
    ensures At(f.cfg.cls, f.contents[..], a, Retagged(l, force), str) && OnlyAreas(c0, f.contents[..], a)
    ensures (rp', run') == if !force && rp.Some? && run.None? then (None, rp) else (rp, run)
  {
    hide At, OnlyAreas;
    rp', run' := rp, run;
    if !force && rp.Some? && run.None? {
      StoreTag(f, a, rp.value, DT_RUNPATH, c0, l, str);
      run', rp' := rp, None;
    }
    if force && rp.Some? && run.Some? {
      StoreTag(f, a, run.value, DT_IGNORE, c0, l, str);
    }
  }

  lemma {:induction false} PaddedSame(cls: ElfClass, d: seq<byte>, z: seq<byte>)
    requires Terminated(cls, d)
    ensures Terminated(cls, d + z) && Decoded(cls, d + z) == Decoded(cls, d)
    decreases |d|
  {
    hide FromLE;
    var w, sz := cls.OffSize(), cls.DynSize();
    assert (d + z)[..w] == d[..w] && (d + z)[w..sz] == d[w..sz];
    if FullTag(cls, d) != DT_NULL {
      PaddedSame(cls, d[sz..], z);
      assert (d + z)[sz..] == d[sz..] + z;
    }
  }

  /** The index of the entry with tag DT_NULL. */
  method NullIndex(cls: ElfClass, d: seq<byte>) returns (idx: nat)
    requires Terminated(cls, d)
    ensures idx == |Decoded(cls, d)| && Span(cls, idx) + cls.DynSize() <= |d|
  {
    hide FullTag, Decoded, Terminated;
    idx := 0;
    while true
      invariant idx <= |Decoded(cls, d)|
      decreases |Decoded(cls, d)| - idx
    {
      EntryAt(cls, d, idx);
      if FullTag(cls, d[Span(cls, idx)..]) == DT_NULL {
        return;
      }
      idx := idx + 1;
    }
  }

  /** Writes entries at the front of the replacement `b` of the dynamic section. */
  method WriteEntries(f: ElfFile, new_: seq<Dyn>, ghost b: seq<byte>)
    requires Keyed(f.replaced, DYNAMIC) && Data(f.replaced, DYNAMIC) == b && OnlyTables(f.replaced)
    requires Span(f.cfg.cls, |new_|) <= |b| <= 0x8000_0000
    modifies f`replaced
    ensures Span(f.cfg.cls, |new_|) <= |b| && ReplacedBy(old(f.replaced), f.replaced, DYNAMIC, Splice(b, 0, AllEncoded(f.cfg.cls, new_)))
  {
    hide IndexOf, Splice, OnlyTables, Encoded, AllEncoded, Span;
    ghost var cls := f.cfg.cls;
    SpliceNothing(b, 0);
    NothingEncoded(cls, new_);
    for i := 0 to |new_|
      invariant Span(cls, i) <= |b| && ReplacedBy(old(f.replaced), f.replaced, DYNAMIC, Splice(b, 0, AllEncoded(cls, new_[..i])))
    {
      ghost var rs := f.replaced;
      SpanMonotone(cls, i + 1, |new_|);
      OneMoreEncoded(cls, new_, i);
      SpliceAppend(b, 0, AllEncoded(cls, new_[..i]), Encoded(cls, new_[i]));
      SetSubstr(f, DYNAMIC, Splice(b, 0, AllEncoded(cls, new_[..i])), Span(f.cfg.cls, i), Encoded(f.cfg.cls, new_[i]));
      ReplacedAgain(old(f.replaced), rs, f.replaced, DYNAMIC, Splice(b, 0, AllEncoded(cls, new_[..i])),
                    Splice(b, 0, AllEncoded(cls, new_[..i + 1])));
    }
    assert new_[..|new_|] == new_;
  }

  lemma NothingEncoded(cls: ElfClass, l: seq<Dyn>)
    ensures AllEncoded(cls, l[..0]) == [] && Span(cls, 0) == 0
  {
  }

  lemma OneMoreEncoded(cls: ElfClass, l: seq<Dyn>, i: nat)
    requires i < |l|
    ensures AllEncoded(cls, l[..i + 1]) == AllEncoded(cls, l[..i]) + Encoded(cls, l[i])
    ensures |AllEncoded(cls, l[..i])| == Span(cls, i) && Span(cls, i + 1) == Span(cls, i) + |Encoded(cls, l[i])|
  {
    hide Encoded;
    assert l[..i + 1] == l[..i] + [l[i]];
    AllEncodedAppend(cls, l[..i], [l[i]]);
    assert AllEncoded(cls, [l[i]]) == Encoded(cls, l[i]) + AllEncoded(cls, []);
  }

  lemma SpanMonotone(cls: ElfClass, m: nat, n: nat)
    requires m <= n
    ensures Span(cls, m) <= Span(cls, n)
  {
    SpanAdd(cls, m, n - m);
  }

  /** Grows the dynamic section, whose bytes are `d`, by some entries at its front. */
  method AddEntries(f: ElfFile, new_: seq<Dyn>, size: nat, ghost d: seq<byte>)
    requires f.Snap().Has(DYNAMIC) && f.Snap().InBuffer(DYNAMIC) && !Keyed(f.replaced, DYNAMIC)
    requires d == f.Snap().Content(DYNAMIC) && |d| == size
    requires Terminated(f.cfg.cls, d) && OnlyTables(f.replaced) && size + Span(f.cfg.cls, |new_|) <= 0x8000_0000
    modifies f`replaced
    ensures ReplacedBy(old(f.replaced), f.replaced, DYNAMIC, Prepended(f.cfg.cls, d, new_))
  {
    hide IndexOf, Splice, OnlyTables, Encoded, AllEncoded, Terminated, Decoded, Span, Resized, Repeat, ReplacedBy;
    ghost var rs0 := f.replaced;
    var cls := f.cfg.cls;
    var n := Span(cls, |new_|);
    GrownByZeros(d, n);
    ghost var grown := d + Repeat(0, n);
    Resize(f, DYNAMIC, d, size + n);
    ReplacedParts(rs0, f.replaced, DYNAMIC, grown);
    ghost var rs1 := f.replaced;
    PaddedSame(cls, d, Repeat(0, n));
    var idx := NullIndex(cls, Data(f.replaced, DYNAMIC));
    Decomposed(cls, d);
    var kept := Data(f.replaced, DYNAMIC)[..Span(cls, idx) + cls.DynSize()];
    assert kept == d[..Span(cls, idx) + cls.DynSize()];
    SetSubstr(f, DYNAMIC, grown, n, kept);
    ReplacedParts(rs1, f.replaced, DYNAMIC, Splice(grown, n, kept));
    ReplacedAgain(rs0, rs1, f.replaced, DYNAMIC, grown, Splice(grown, n, kept));
    ghost var rs2 := f.replaced;
    WriteEntries(f, new_, Splice(grown, n, kept));
    ReplacedAgain(rs0, rs2, f.replaced, DYNAMIC, Splice(grown, n, kept), Prepended(cls, d, new_));
  }

  lemma ReplacedParts(rs0: seq<Replacement>, rs: seq<Replacement>, n: Name, d: seq<byte>)
    requires ReplacedBy(rs0, rs, n, d)
    ensures OnlyTables(rs) && Keyed(rs, n) && Data(rs, n) == d
  {
  }

  lemma GrownByZeros(d: seq<byte>, n: nat)
    ensures Resized(d, |d| + n) == d + Repeat(0, n)
  {
    if n == 0 {
      assert d[..|d|] == d && d + Repeat(0, 0) == d;
    }
  }

  // ---------------------------------------------------------------- setting the run path

  /** Setting the run path: in place if it fits, otherwise at the end of a longer string table. */
  method ChangePath(f: ElfFile, a: Areas, rp: Option<nat>, run: Option<nat>, path: Option<nat>, p: Name, force: bool,
                    ghost s: State, ghost t: Tables)
    requires Editable(s) && f.Snap() == s && s.Has(DYNAMIC) && s.Has(DYNSTR) && s.InBuffer(DYNAMIC) && s.InBuffer(DYNSTR)
    requires a == Areas(s.Sec(DYNAMIC).offset, s.Sec(DYNAMIC).size, s.Sec(DYNSTR).offset, s.Sec(DYNSTR).size)
    requires t == TablesOf(s) && StringsInTable(t) && Closed(t.str)
    requires rp == LastEntry(t.dyn, DT_RPATH) && run == LastEntry(t.dyn, DT_RUNPATH)
    requires path == if PathEntry(t.dyn) < |t.dyn| then Some(t.dyn[PathEntry(t.dyn)].val) else None
    requires NoNul(p) && (|p| <= 0x1000_0000 || |p| <= PathLength(t))
    modifies f`replaced, f`changed, f.contents
    ensures EditedTo(s, f.Snap(), WithPath(t, p, force))
    ensures f.changed == (old(f.changed) || Printed(t) != p)
  {
    hide Editable, At, OnlyAreas, EditedTo, S.CString, Closed, StringsInTable, NoNul, Last, OnlyTables, IndexOf, Overwritten, Lengthened,
         Blotted, Redirected, Retagged, Midway;
    EditableAreas(s, a);
    NoReplacements(s, a, t);
    var cur: Name := [];
    if path.Some? {
      cur := ReadString(f, a, path.value, t.dyn, t.str);
      PathInTable(t);
      TextEnds(t.str, path.value);
    }
    if cur == p {
      EditedIntro(s, f.Snap(), a, t.dyn, t.str, t);
      return;
    }
    f.changed := true;
    ghost var str1 := WithoutPath(t);
    if path.Some? {
      BlottedIs(t.str, path.value, |cur|);
      StoreString(f, a, path.value, Repeat(FILL, |cur|), s.contents, t.dyn, t.str);
    }
    var rp', run' := Retag(f, a, rp, run, force, s.contents, t.dyn, str1);
    ghost var l1 := Retagged(t.dyn, force);
    if |p| <= |cur| {
      OverwrittenIs(t.str, path.value, |cur|, p);
      StoreString(f, a, path.value, p + [0], s.contents, l1, str1);
      MidwayIntro(s, f.Snap(), a, l1, Overwritten(t.str, path.value, |cur|, p));
      EditedIntro(s, f.Snap(), a, l1, Overwritten(t.str, path.value, |cur|, p), WithPath(t, p, force));
      return;
    }
    MidwayIntro(s, f.Snap(), a, l1, str1);
    GrowPath(f, a, rp', run', p, force, s, t, l1, str1);
  }

  /** With an empty list of replacements the tables are in place. */
  lemma NoReplacements(s: State, a: Areas, t: Tables)
    requires Editable(s) && At(s.cfg.cls, s.contents, a, t.dyn, t.str) && OnlyAreas(s.contents, s.contents, a)
    ensures s.replaced == [] && Midway(s, s, a, t.dyn, t.str)
  {
    hide WellFormed, At, OnlyAreas;
  }

  lemma MidwayIntro(s: State, t: State, a: Areas, l: seq<Dyn>, str: seq<byte>)
    requires t == s.(contents := t.contents, replaced := []) && At(s.cfg.cls, t.contents, a, l, str) && OnlyAreas(s.contents, t.contents, a)
    ensures Midway(s, t, a, l, str)
  {
    hide At, OnlyAreas;
  }

  lemma BlottedIs(str: seq<byte>, pos: nat, n: nat)
    requires pos + n <= |str|
    ensures Blotted(str, pos, n) == Splice(str, pos, Repeat(FILL, n))
  {
  }

  lemma OverwrittenIs(str: seq<byte>, pos: nat, n: nat, p: Name)
    requires |p| <= n && pos + n < |str|
    ensures Overwritten(str, pos, n, p) == Splice(Blotted(str, pos, n), pos, p + [0])
  {
  }

  /** Adds the new path to the string table and makes the entries refer to it. */
  method GrowPath(f: ElfFile, a: Areas, rp: Option<nat>, run: Option<nat>, p: Name, force: bool,
                  ghost s: State, ghost t: Tables, ghost l1: seq<Dyn>, ghost str1: seq<byte>)
    requires Editable(s) && f.replaced == [] && s.Has(DYNAMIC) && s.Has(DYNSTR) && s.InBuffer(DYNAMIC) && s.InBuffer(DYNSTR)
    requires a == Areas(s.Sec(DYNAMIC).offset, s.Sec(DYNAMIC).size, s.Sec(DYNSTR).offset, s.Sec(DYNSTR).size)
    requires StringsInTable(t) && Closed(t.str) && Printed(t) != p && |p| > PathLength(t) && |p| <= 0x1000_0000
    requires l1 == Retagged(t.dyn, force) && str1 == WithoutPath(t)
    requires Midway(s, f.Snap(), a, l1, str1)
    requires var r, u := LastEntry(t.dyn, DT_RPATH), LastEntry(t.dyn, DT_RUNPATH);
      (rp, run) == if !force && r.Some? && u.None? then (None, r) else (r, u)
    modifies f`replaced, f.contents
    ensures EditedTo(s, f.Snap(), WithPath(t, p, force))
  {
    hide Editable, EditedTo, S.CString, Closed, StringsInTable, NoNul, Last, OnlyTables, IndexOf, Lengthened, At, OnlyAreas,
         Blotted, Terminated, Decoded, Resized, Splice, Prepended, Encoded, Retagged, ReplacedBy;
    MidwayParts(s, f.Snap(), a, l1, str1);
    ghost var str2 := Lengthened(str1, p);
    LengthenedIs(str1, p);
    Resize(f, DYNSTR, str1, a.strSize + |p| + 1);
    ghost var rs1 := f.replaced;
    ReplacedParts([], rs1, DYNSTR, Resized(str1, a.strSize + |p| + 1));
    SetSubstr(f, DYNSTR, Resized(str1, a.strSize + |p| + 1), a.strSize, p + [0]);
    ReplacedAgain([], rs1, f.replaced, DYNSTR, Resized(str1, a.strSize + |p| + 1), str2);
    OneReplaced(f.replaced, DYNSTR, DYNAMIC, str2);
    if run.Some? || rp.Some? {
      ghost var l2 := l1;
      if run.Some? {
        StoreVal(f, a, run.value, a.strSize, s.contents, l2, str1);
        l2 := l2[run.value := l2[run.value].(val := a.strSize)];
      }
      if rp.Some? {
        StoreVal(f, a, rp.value, a.strSize, s.contents, l2, str1);
        l2 := l2[rp.value := l2[rp.value].(val := a.strSize)];
      }
      RedirectedIs(t.dyn, l1, l2, rp, run, force, a.strSize);
      EditedIntro(s, f.Snap(), a, l2, str1, WithPath(t, p, force));
    } else {
      ghost var rs2 := f.replaced;
      ghost var d := f.Snap().Content(DYNAMIC);
      var e := Dyn(if force then DT_RPATH else DT_RUNPATH, a.strSize);
      OneEntry(f.cfg.cls, e);
      AddEntries(f, [e], a.dynSize, d);
      TwoReplaced(rs2, f.replaced, DYNAMIC, DYNSTR, Prepended(f.cfg.cls, d, [e]), str2);
      PrependedEntries(f.cfg.cls, d, [e]);
      EditedIntro(s, f.Snap(), a, l1, str1, WithPath(t, p, force));
    }
  }

  lemma OneEntry(cls: ElfClass, e: Dyn)
    requires 0 < e.tag < 0x1_0000_0000 && e.val < 0x1_0000_0000
    ensures AllStorable(cls, [e]) && Span(cls, 1) == cls.DynSize()
  {
    Pow256Values();
  }

  lemma MidwayParts(s: State, t: State, a: Areas, l: seq<Dyn>, str: seq<byte>)
    requires Editable(s) && Midway(s, t, a, l, str) && s.Has(DYNAMIC) && s.Has(DYNSTR)
    requires a == Areas(s.Sec(DYNAMIC).offset, s.Sec(DYNAMIC).size, s.Sec(DYNSTR).offset, s.Sec(DYNSTR).size)
    ensures t.Has(DYNAMIC) && t.InBuffer(DYNAMIC) && t.Has(DYNSTR) && t.InBuffer(DYNSTR)
    ensures Terminated(s.cfg.cls, t.Content(DYNAMIC)) && Decoded(s.cfg.cls, t.Content(DYNAMIC)) == l && t.Content(DYNSTR) == str
    ensures |str| == a.strSize <= 0x4000_0000 && |t.Content(DYNAMIC)| == a.dynSize <= 0x4000_0000 && OnlyTables(t.replaced)
  {
    hide S.Sortable, Terminated, Decoded;
    assert t.Has(DYNAMIC) && t.Sec(DYNAMIC) == s.Sec(DYNAMIC) && t.Has(DYNSTR) && t.Sec(DYNSTR) == s.Sec(DYNSTR);
  }

  lemma LengthenedIs(str: seq<byte>, p: Name)
    ensures Lengthened(str, p) == Splice(Resized(str, |str| + |p| + 1), |str|, p + [0])
  {
  }

  lemma OneReplaced(rs: seq<Replacement>, n: Name, m: Name, d: seq<byte>)
    requires ReplacedBy([], rs, n, d) && m != n
    ensures OnlyTables(rs) && Keyed(rs, n) && Data(rs, n) == d && !Keyed(rs, m)
  {
    assert !Keyed([], m);
  }

  lemma TwoReplaced(rs0: seq<Replacement>, rs: seq<Replacement>, n: Name, m: Name, d: seq<byte>, e: seq<byte>)
    requires ReplacedBy(rs0, rs, n, d) && m != n && Keyed(rs0, m) && Data(rs0, m) == e
    ensures OnlyTables(rs) && Keyed(rs, n) && Data(rs, n) == d && Keyed(rs, m) && Data(rs, m) == e
  {
  }

  lemma RedirectedIs(l: seq<Dyn>, l1: seq<Dyn>, l2: seq<Dyn>, rp: Option<nat>, run: Option<nat>, force: bool, val: nat)
    requires l1 == Retagged(l, force)
    requires var r, u := LastEntry(l, DT_RPATH), LastEntry(l, DT_RUNPATH);
      (rp, run) == if !force && r.Some? && u.None? then (None, r) else (r, u)
    requires var d1 := if run.Some? then l1[run.value := l1[run.value].(val := val)] else l1;
      l2 == if rp.Some? then d1[rp.value := d1[rp.value].(val := val)] else d1
    ensures l2 == Redirected(l1, Last(l, DT_RPATH), Last(l, DT_RUNPATH), val)
  {
    hide Last;
  }

  /** `--set-rpath`. */
  method SetRPath(f: ElfFile, p: Name, force: bool) returns (r: EditEnding)
    requires Editable(f.Snap()) && NoNul(p) && |p| <= 0x1000_0000
    modifies f`replaced, f`changed, f.contents
    ensures r == Opening(old(f.Snap()))
    ensures r.Fine? ==> StringsInTable(TablesOf(old(f.Snap()))) && Closed(TablesOf(old(f.Snap())).str)
    ensures r.Fine? ==> EditedTo(old(f.Snap()), f.Snap(), WithPath(TablesOf(old(f.Snap())), p, force))
    ensures r.Fine? ==> f.changed == (old(f.changed) || Printed(TablesOf(old(f.Snap()))) != p)
    ensures !r.Fine? ==> f.Snap() == old(f.Snap()) && f.changed == old(f.changed)
  {
    hide Editable, At, Opening, EditedTo, NoNul, WithPath, Printed;
    ghost var s := f.Snap();
    var a;
    r, a := Open(f);
    if r.Fine? {
      ghost var t := TablesOf(s);
      EditableAreas(s, a);
      var rp, run, path := FindPath(f, a, t.dyn, t.str);
      ChangePath(f, a, rp, run, path, p, force, s, t);
    }
  }

  // ---------------------------------------------------------------- removing entries

  /** The loop that closes the gaps has come to entry `k` and has kept `m` of the entries before it. */
  ghost predicate Compacting(cls: ElfClass, c: seq<byte>, a: Areas, d0: seq<byte>, l: seq<Dyn>, str: seq<byte>, drop: Dyn -> bool, m: nat, k: nat) {
    && a.dynOff + a.dynSize <= |c| && a.strOff + a.strSize <= |c|
    && Apart(a.dynOff, a.dynSize, a.strOff, a.strSize)
    && |d0| == a.dynSize && Terminated(cls, d0) && Decoded(cls, d0) == l
    && Slice(c, a.strOff, a.strSize) == str
    && m <= k <= |l| && m == |Dropped(l[..k], drop)|
    && Span(cls, m) <= Span(cls, k) <= a.dynSize
    && Slice(c, a.dynOff, a.dynSize)[..Span(cls, m)] == AllEncoded(cls, Dropped(l[..k], drop))
    && Slice(c, a.dynOff, a.dynSize)[Span(cls, k)..] == d0[Span(cls, k)..]
  }

  lemma CompactStart(cls: ElfClass, c: seq<byte>, a: Areas, l: seq<Dyn>, str: seq<byte>, drop: Dyn -> bool)
    requires At(cls, c, a, l, str)
    ensures Compacting(cls, c, a, Slice(c, a.dynOff, a.dynSize), l, str, drop, 0, 0)
  {
    hide Terminated, Decoded;
    assert l[..0] == [];
  }

  lemma CompactEntry(cls: ElfClass, c: seq<byte>, a: Areas, d0: seq<byte>, l: seq<Dyn>, str: seq<byte>, drop: Dyn -> bool, m: nat, k: nat)
    requires Compacting(cls, c, a, d0, l, str, drop, m, k)
    ensures Span(cls, k) + cls.DynSize() <= a.dynSize <= |c| - a.dynOff
    ensures var e := c[a.dynOff + Span(cls, k)..a.dynOff + Span(cls, k) + cls.DynSize()];
      if k < |l| then FullTag(cls, e) == l[k].tag != DT_NULL && DynVal(cls, e) == l[k].val && Storable(cls, l[k])
      else FullTag(cls, e) == DT_NULL
  {
    hide Terminated, Decoded, Span, FromLE, AllEncoded, Dropped;
    EntryAt(cls, d0, k);
    Decomposed(cls, d0);
    EntryBytes(c, a.dynOff, a.dynSize, Span(cls, k), cls.OffSize(), cls.DynSize());
  }

  lemma CompactDrop(cls: ElfClass, c: seq<byte>, a: Areas, d0: seq<byte>, l: seq<Dyn>, str: seq<byte>, drop: Dyn -> bool, m: nat, k: nat)
    requires Compacting(cls, c, a, d0, l, str, drop, m, k) && k < |l| && drop(l[k])
    ensures Compacting(cls, c, a, d0, l, str, drop, m, k + 1)
  {
    hide Terminated, Decoded, AllEncoded, Dropped, Splice;
    CompactEntry(cls, c, a, d0, l, str, drop, m, k);
    DroppedStep(l, k, drop);
    var d := Slice(c, a.dynOff, a.dynSize);
    assert Dropped(l[..k], drop) + [] == Dropped(l[..k], drop);
    assert d[Span(cls, k + 1)..] == d[Span(cls, k)..][cls.DynSize()..];
    assert d0[Span(cls, k + 1)..] == d0[Span(cls, k)..][cls.DynSize()..];
  }

  lemma CompactKeep(cls: ElfClass, c: seq<byte>, a: Areas, d0: seq<byte>, l: seq<Dyn>, str: seq<byte>, drop: Dyn -> bool, m: nat, k: nat)
    requires Compacting(cls, c, a, d0, l, str, drop, m, k) && k < |l| && !drop(l[k])
    ensures a.dynOff + Span(cls, m) + cls.DynSize() <= a.dynOff + a.dynSize <= |c|
    ensures Compacting(cls, Splice(c, a.dynOff + Span(cls, m), Encoded(cls, l[k])), a, d0, l, str, drop, m + 1, k + 1)
  {
    hide Terminated, Decoded, AllEncoded, Dropped, Splice, Encoded, Slice, Span;
    CompactEntry(cls, c, a, d0, l, str, drop, m, k);
    DroppedStep(l, k, drop);
    SpanAdd(cls, m, 1);
    SpanAdd(cls, k, 1);
    OneSpan(cls);
    var d, e := Slice(c, a.dynOff, a.dynSize), Encoded(cls, l[k]);
    SpanMonotone(cls, m + 1, k + 1);
    SliceOfSplice(c, a.dynOff, a.dynSize, Span(cls, m), e);
    SpliceFrame(c, a.dynOff + Span(cls, m), e, a.strOff, a.strSize);
    var kept := Dropped(l[..k], drop);
    AllEncodedAppend(cls, kept, [l[k]]);
    OneEncoded(cls, l[k]);
    CompactBytes(d, d0, e, Span(cls, m), Span(cls, k), cls.DynSize());
  }

  lemma OneSpan(cls: ElfClass)
    ensures Span(cls, 1) == cls.DynSize()
  {
  }

  lemma OneEncoded(cls: ElfClass, e: Dyn)
    ensures AllEncoded(cls, [e]) == Encoded(cls, e)
  {
  }

  lemma CompactBytes(d: seq<byte>, d0: seq<byte>, e: seq<byte>, m: nat, k: nat, sz: nat)
    requires |d| == |d0| && m <= k && k + sz <= |d| && |e| == sz && d[k..] == d0[k..]
    ensures Splice(d, m, e)[..m + sz] == d[..m] + e
    ensures Splice(d, m, e)[k + sz..] == d0[k + sz..]
  {
    assert d0[k + sz..] == d0[k..][sz..] == d[k..][sz..];
  }

  lemma CompactEnd(cls: ElfClass, c: seq<byte>, a: Areas, d0: seq<byte>, l: seq<Dyn>, str: seq<byte>, drop: Dyn -> bool, m: nat)
    requires Compacting(cls, c, a, d0, l, str, drop, m, |l|)
    ensures a.dynOff + Span(cls, m) + (Span(cls, |l|) - Span(cls, m)) <= |c|
    ensures At(cls, Splice(c, a.dynOff + Span(cls, m), Repeat(0, Span(cls, |l|) - Span(cls, m))), a, Dropped(l, drop), str)
  {
    hide Terminated, Decoded, AllEncoded, Dropped, Encoded, Span, Splice, Repeat;
    CompactEntry(cls, c, a, d0, l, str, drop, m, |l|);
    assert l[..|l|] == l;
    var d, n, z := Slice(c, a.dynOff, a.dynSize), Span(cls, |l|), Repeat(0, Span(cls, |l|) - Span(cls, m));
    SliceOfSplice(c, a.dynOff, a.dynSize, Span(cls, m), z);
    SpliceFrame(c, a.dynOff + Span(cls, m), z, a.strOff, a.strSize);
    KeptStorable(cls, d0, drop);
    var rest := z + d0[n..];
    EntryAt(cls, d0, |l|);
    SpanGap(cls, m, |l|);
    ZerosThenNull(cls, d0, n, |z|);
    Composed(cls, Dropped(l, drop), rest);
    ZeroedBytes(d, d0, z, Span(cls, m), n);
  }

  lemma SpanGap(cls: ElfClass, m: nat, n: nat)
    requires m <= n
    ensures Span(cls, n) == Span(cls, m) || Span(cls, n) >= Span(cls, m) + cls.DynSize()
  {
    if m < n {
      SpanMonotone(cls, m + 1, n);
    }
  }

  lemma ZeroedBytes(d: seq<byte>, d0: seq<byte>, z: seq<byte>, m: nat, n: nat)
    requires |d| == |d0| && m + |z| == n <= |d| && d[n..] == d0[n..]
    ensures Splice(d, m, z) == d[..m] + (z + d0[n..])
  {
  }

  lemma KeptStorable(cls: ElfClass, d0: seq<byte>, drop: Dyn -> bool)
    requires Terminated(cls, d0)
    ensures AllStorable(cls, Dropped(Decoded(cls, d0), drop))
  {
    hide AllEncoded, Span;
    Decomposed(cls, d0);
    KeptAreEntries(Decoded(cls, d0), drop);
  }

  lemma {:induction false} KeptAreEntries(l: seq<Dyn>, drop: Dyn -> bool)
    ensures forall i :: 0 <= i < |Dropped(l, drop)| ==> Dropped(l, drop)[i] in l
    decreases |l|
  {
    if l != [] {
      KeptAreEntries(l[1..], drop);
    }
  }

  lemma ZerosThenNull(cls: ElfClass, d0: seq<byte>, n: nat, z: nat)
    requires n + cls.DynSize() <= |d0| && FullTag(cls, d0[n..]) == DT_NULL && (z == 0 || z >= cls.DynSize())
    ensures FullTag(cls, Repeat(0, z) + d0[n..]) == DT_NULL
  {
    hide FromLE;
    if z == 0 {
      assert Repeat(0, z) + d0[n..] == d0[n..];
    } else {
      ZeroTag(cls, Repeat(0, z) + d0[n..]);
    }
  }

  /** A write inside the dynamic section leaves everything outside the two areas as it was. */
  lemma OnlyAreasWritten(c0: seq<byte>, c: seq<byte>, a: Areas, pos: nat, x: seq<byte>)
    requires OnlyAreas(c0, c, a) && a.dynOff <= pos && pos + |x| <= a.dynOff + a.dynSize <= |c|
    ensures OnlyAreas(c0, Splice(c, pos, x), a)
  {
    InsideArea(c0, c, a, pos, x);
  }

  /** Drops entries, closing the gaps; the places that become free are zeroed. */
  method Compact(f: ElfFile, a: Areas, drop: Dyn -> bool, ghost c0: seq<byte>, ghost l: seq<Dyn>, ghost str: seq<byte>)
    returns (any: bool)
    requires At(f.cfg.cls, f.contents[..], a, l, str) && OnlyAreas(c0, f.contents[..], a)
    modifies f.contents
    ensures At(f.cfg.cls, f.contents[..], a, Dropped(l, drop), str) && OnlyAreas(c0, f.contents[..], a)
    ensures any <==> exists i :: 0 <= i < |l| && drop(l[i])
  {
    hide At, OnlyAreas, Compacting, Dropped, Span, Encoded, FullTag, DynVal, Splice, Storable, Repeat;
    ghost var cls := f.cfg.cls;
    ghost var d0 := AreaOf(f.contents[..], a, l, str, cls);
    CompactStart(cls, f.contents[..], a, l, str, drop);
    var k, m := 0, 0;
    any := false;
    while true
      invariant k <= |l| && Compacting(cls, f.contents[..], a, d0, l, str, drop, m, k)
      invariant OnlyAreas(c0, f.contents[..], a)
      invariant any <==> exists i :: 0 <= i < k && drop(l[i])
      decreases |l| - k
    {
      CompactBounds(cls, f.contents[..], a, d0, l, str, drop, m, k);
      CompactEntry(cls, f.contents[..], a, d0, l, str, drop, m, k);
      var pos := a.dynOff + Span(f.cfg.cls, k);
      var bs := f.contents[pos..pos + f.cfg.cls.DynSize()];
      var e := Dyn(FullTag(f.cfg.cls, bs), DynVal(f.cfg.cls, bs));
      if e.tag == DT_NULL {
        CompactEnd(cls, f.contents[..], a, d0, l, str, drop, m);
        var from := a.dynOff + Span(f.cfg.cls, m);
        OnlyAreasWritten(c0, f.contents[..], a, from, Repeat(0, pos - from));
        f.Memset(from, 0, pos - from);
        return;
      }
      if drop(e) {
        CompactDrop(cls, f.contents[..], a, d0, l, str, drop, m, k);
        any := true;
      } else {
        CompactKeep(cls, f.contents[..], a, d0, l, str, drop, m, k);
        OnlyAreasWritten(c0, f.contents[..], a, a.dynOff + Span(cls, m), Encoded(cls, e));
        f.Memcpy(a.dynOff + Span(f.cfg.cls, m), Encoded(f.cfg.cls, e));
        m := m + 1;
      }
      k := k + 1;
    }
  }

  ghost function AreaOf(c: seq<byte>, a: Areas, l: seq<Dyn>, str: seq<byte>, cls: ElfClass): seq<byte>
    requires At(cls, c, a, l, str)
  {
    Slice(c, a.dynOff, a.dynSize)
  }

  lemma CompactBounds(cls: ElfClass, c: seq<byte>, a: Areas, d0: seq<byte>, l: seq<Dyn>, str: seq<byte>, drop: Dyn -> bool, m: nat, k: nat)
    requires Compacting(cls, c, a, d0, l, str, drop, m, k)
    ensures a.dynOff + a.dynSize <= |c| && m <= k && Span(cls, m) <= Span(cls, k)
  {
    hide Terminated, Decoded, AllEncoded, Dropped, Span;
  }

  /** `--remove-rpath`. */
  method RemoveRPath(f: ElfFile) returns (r: EditEnding)
    requires Editable(f.Snap())
    modifies f`changed, f.contents
    ensures r == Opening(old(f.Snap()))
    ensures r.Fine? ==> var t := TablesOf(old(f.Snap()));
      && EditedTo(old(f.Snap()), f.Snap(), Tables(WithoutPaths(t.dyn), t.str))
      && f.changed == (old(f.changed) || Present(t.dyn, DT_RPATH) || Present(t.dyn, DT_RUNPATH))
    ensures !r.Fine? ==> f.Snap() == old(f.Snap()) && f.changed == old(f.changed)
  {
    hide Editable, At, Opening, EditedTo, OnlyAreas, Last, Dropped, OnlyTables;
    ghost var s := f.Snap();
    var a;
    r, a := Open(f);
    if r.Fine? {
      ghost var t := TablesOf(s);
      EditableAreas(s, a);
      NoReplacements(s, a, t);
      var _, _, path := FindPath(f, a, t.dyn, t.str);
      NothingToDrop(t.dyn);
      if path.None? {
        EditedIntro(s, f.Snap(), a, t.dyn, t.str, t);
        return;
      }
      var any := Compact(f, a, e => IsPath(e), s.contents, t.dyn, t.str);
      f.changed := f.changed || any;
      MidwayIntro(s, f.Snap(), a, WithoutPaths(t.dyn), t.str);
      EditedIntro(s, f.Snap(), a, WithoutPaths(t.dyn), t.str, Tables(WithoutPaths(t.dyn), t.str));
    }
  }

  lemma NothingToDrop(d: seq<Dyn>)
    ensures PathEntry(d) == |d| ==> WithoutPaths(d) == d
    ensures PathEntry(d) < |d| <==> Present(d, DT_RPATH) || Present(d, DT_RUNPATH)
    ensures (exists i :: 0 <= i < |d| && IsPath(d[i])) <==> Present(d, DT_RPATH) || Present(d, DT_RUNPATH)
  {
    if PathEntry(d) == |d| {
      NoneDropped(d, e => IsPath(e));
    }
  }

  lemma {:induction false} NoneDropped(d: seq<Dyn>, drop: Dyn -> bool)
    requires forall i :: 0 <= i < |d| ==> !drop(d[i])
    ensures Dropped(d, drop) == d
    decreases |d|
  {
    if d != [] {
      NoneDropped(d[1..], drop);
      assert d == [d[0]] + d[1..];
    }
  }
}
