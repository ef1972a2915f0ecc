/** The rewriter itself: a file buffer and its headers, changed in place. */
module ElfFiles {
  import opened Bytes
  import opened ElfTypes
  import opened Rounding
  import opened Image
  import opened Layout
  import opened Patching
  import opened Headers
  import opened Carrying
  import opened Rewriting
  import opened Formats
  import opened Segments
  import opened Library
  import S = Sections

  class ElfFile {
    const cfg: Config
    const contents: array<byte>
    var fileSize: nat
    var hdr: Ehdr
    var phdrs: seq<Phdr>
    var shdrs: seq<Shdr>
    var replaced: seq<Replacement>
    var changed: bool

    /** The state of the file as a value. */
    ghost function Snap(): State
      reads this, contents
    {
      State(cfg, contents[..], fileSize, hdr, phdrs, shdrs, replaced)
    }

    constructor (cfg: Config, contents: array<byte>, fileSize: nat, hdr: Ehdr, phdrs: seq<Phdr>, shdrs: seq<Shdr>)
      ensures this.cfg == cfg && this.contents == contents && !changed
      ensures Snap() == State(cfg, contents[..], fileSize, hdr, phdrs, shdrs, [])
    {
      this.cfg, this.contents, this.fileSize := cfg, contents, fileSize;
      this.hdr, this.phdrs, this.shdrs := hdr, phdrs, shdrs;
      replaced, changed := [], false;
    }

    // -------------------------------------------------------------- bytes

    /** `memcpy` into the buffer. */
    method Memcpy(off: nat, d: seq<byte>)
      requires off + |d| <= contents.Length
      modifies contents
      ensures contents[..] == Splice(old(contents[..]), off, d)
    {
      forall k | 0 <= k < |d| {
        contents[off + k] := d[k];
      }
    }

    method Memset(off: nat, v: byte, n: nat)
      requires off + n <= contents.Length
      modifies contents
      ensures contents[..] == Splice(old(contents[..]), off, Repeat(v, n))
    {
      forall k | off <= k < off + n {
        contents[k] := v;
      }
    }

    /** `memmove` within the buffer. */
    method Memmove(dst: nat, src: nat, n: nat)
      requires dst + n <= contents.Length && src + n <= contents.Length
      modifies contents
      ensures contents[..] == Splice(old(contents[..]), dst, Slice(old(contents[..]), src, n))
    {
      forall k | 0 <= k < n {
        contents[dst + k] := contents[src + k];
      }
    }

    /** `growFile`; false stands for the error exit. */
    method GrowFile(newSize: nat) returns (ok: bool)
      requires fileSize <= cfg.maxSize <= contents.Length
      modifies this`fileSize, contents
      ensures ok <==> newSize <= cfg.maxSize
      ensures ok ==> Snap() == Grown(old(Snap()), newSize)
      ensures !ok ==> Snap() == old(Snap())
    {
      if newSize > cfg.maxSize {
        return false;
      }
      if newSize <= fileSize {
        return true;
      }
      Memset(fileSize, 0, newSize - fileSize);
      fileSize := newSize;
      return true;
    }

    // -------------------------------------------------------------- sections

    method FindSection3(n: Name) returns (i: nat)
      ensures i == S.Find(cfg.tab, shdrs, n)
    {
      i := 1;
      while i < |shdrs|
        invariant 1 <= i <= |shdrs| || |shdrs| == 0
        invariant S.Find(cfg.tab, shdrs, n) == S.FindFrom(cfg.tab, shdrs, n, i)
      {
        if S.NameOf(cfg.tab, shdrs[i]) == n {
          return i;
        }
        i := i + 1;
      }
      return 0;
    }

    /** `sortShdrs`. */
    method SortShdrs()
      requires S.Sortable(cfg.tab, shdrs) && |shdrs| == hdr.shnum && 1 <= hdr.shstrndx < |shdrs|
      modifies this`shdrs, this`hdr
      ensures S.Resorted(cfg.tab, old(shdrs), shdrs)
      ensures hdr == old(hdr).(shstrndx := hdr.shstrndx) && 1 <= hdr.shstrndx < |shdrs|
      ensures S.NameOf(cfg.tab, shdrs[hdr.shstrndx]) == old(S.NameOf(cfg.tab, shdrs[hdr.shstrndx]))
    {
      hide S.Relinked, S.Records, S.SameSection, S.SortedByOffset;
      var linkage, info := CollectReferences();
      var shstrtabName := S.NameOf(cfg.tab, shdrs[hdr.shstrndx]);
      ghost var a := shdrs;
      ghost var k := hdr.shstrndx;
      ghost var p;
      shdrs, p := S.SortByOffset(shdrs);
      ghost var s := shdrs;
      S.FirstStaysFirst(cfg.tab, a, s, p);
      S.AllRecorded(cfg.tab, a, s, p, linkage, info);
      RestoreReferences(linkage, info);
      S.RelinkedIsResorted(cfg.tab, a, s, shdrs, p, linkage, info);
      var index := FindSection3(shstrtabName);
      S.FindOwnName(cfg.tab, a, k);
      assert S.Has(cfg.tab, a, shstrtabName);
      hdr := hdr.(shstrndx := index);
    }

    /** The names behind the section links, and behind the section numbers of relocation sections. */
    method CollectReferences() returns (linkage: map<Name, Name>, info: map<Name, Name>)
      requires S.Sortable(cfg.tab, shdrs)
      ensures S.Records(cfg.tab, shdrs, linkage, info)
    {
      hide S.CString;
      linkage, info := map[], map[];
      for i := 1 to |shdrs|
        invariant forall j :: 1 <= j < i && shdrs[j].link != 0 ==>
          S.NameOf(cfg.tab, shdrs[j]) in linkage
          && linkage[S.NameOf(cfg.tab, shdrs[j])] == S.NameOf(cfg.tab, shdrs[shdrs[j].link])
      {
        if shdrs[i].link != 0 {
          linkage := linkage[S.NameOf(cfg.tab, shdrs[i]) := S.NameOf(cfg.tab, shdrs[shdrs[i].link])];
        }
      }
      for i := 1 to |shdrs|
        invariant forall j :: 1 <= j < i && shdrs[j].Relocations() && shdrs[j].info != 0 ==>
          S.NameOf(cfg.tab, shdrs[j]) in info
          && info[S.NameOf(cfg.tab, shdrs[j])] == S.NameOf(cfg.tab, shdrs[shdrs[j].info])
      {
        if shdrs[i].info != 0 && shdrs[i].Relocations() {
          info := info[S.NameOf(cfg.tab, shdrs[i]) := S.NameOf(cfg.tab, shdrs[shdrs[i].info])];
        }
      }
    }

    /** Turns the collected names back into indices of the table as it now is. */
    method RestoreReferences(linkage: map<Name, Name>, info: map<Name, Name>)
      requires |shdrs| >= 1
      requires forall i :: 1 <= i < |shdrs| && shdrs[i].link != 0 ==> S.NameOf(cfg.tab, shdrs[i]) in linkage
      requires forall i :: 1 <= i < |shdrs| && shdrs[i].Relocations() && shdrs[i].info != 0 ==>
                 S.NameOf(cfg.tab, shdrs[i]) in info
      modifies this`shdrs
      ensures |shdrs| == |old(shdrs)| && shdrs[0] == old(shdrs)[0]
      ensures forall i :: 1 <= i < |shdrs| ==>
                shdrs[i] == S.Relinked(cfg.tab, old(shdrs), old(shdrs)[i], linkage, info)
    {
      ghost var s := shdrs;
      for i := 1 to |shdrs|
        invariant |shdrs| == |s| && shdrs[0] == s[0]
        invariant forall j :: 0 <= j < |s| ==> shdrs[j].name == s[j].name
        invariant forall j :: i <= j < |s| ==> shdrs[j] == s[j]
        invariant forall j :: 1 <= j < i ==>
          shdrs[j] == s[j].(link := S.Relinked(cfg.tab, s, s[j], linkage, info).link)
      {
        if shdrs[i].link != 0 {
          var l := FindSection3(linkage[S.NameOf(cfg.tab, shdrs[i])]);
          S.FindDependsOnNames(cfg.tab, shdrs, s, linkage[S.NameOf(cfg.tab, shdrs[i])], 1);
          shdrs := shdrs[i := shdrs[i].(link := l)];
        }
      }
      for i := 1 to |shdrs|
        invariant |shdrs| == |s| && shdrs[0] == s[0]
        invariant forall j :: 0 <= j < |s| ==> shdrs[j].name == s[j].name
        invariant forall j :: i <= j < |s| ==>
          shdrs[j] == s[j].(link := S.Relinked(cfg.tab, s, s[j], linkage, info).link)
        invariant forall j :: 1 <= j < i ==> shdrs[j] == S.Relinked(cfg.tab, s, s[j], linkage, info)
      {
        if shdrs[i].info != 0 && shdrs[i].Relocations() {
          var f := FindSection3(info[S.NameOf(cfg.tab, shdrs[i])]);
          S.FindDependsOnNames(cfg.tab, shdrs, s, info[S.NameOf(cfg.tab, shdrs[i])], 1);
          shdrs := shdrs[i := shdrs[i].(info := f)];
        }
      }
    }

    // -------------------------------------------------------------- writing the replaced sections

    /** Overwrites the old contents of the replaced sections. */
    method XOutOldSections()
      requires Placeable(Snap())
      modifies contents
      ensures XedOut(old(Snap()), |replaced|, contents[..])
    {
      ghost var s := Snap();
      for k := 0 to |replaced|
        invariant XedOut(s, k, contents[..])
      {
        var i := FindSection3(replaced[k].name);
        assert s.Has(replaced[k].name) && s.InBuffer(replaced[k].name);
        XOutStep(s, k, contents[..]);
        Memset(shdrs[i].offset, FILL, shdrs[i].size);
      }
    }

    /** Keeps the segments of one type in step with the section at `i`. */
    method SyncSegments(ptype: nat, i: nat)
      requires i < |shdrs|
      modifies this`phdrs
      ensures |phdrs| == |old(phdrs)|
      ensures var h := shdrs[i]; forall j :: 0 <= j < |phdrs| ==>
                phdrs[j] == if old(phdrs)[j].ptype == ptype then Synced(old(phdrs)[j], h.offset, h.addr, h.size) else old(phdrs)[j]
    {
      var h := shdrs[i];
      for j := 0 to |phdrs|
        invariant |phdrs| == |old(phdrs)|
        invariant forall m :: j <= m < |phdrs| ==> phdrs[m] == old(phdrs)[m]
        invariant forall m :: 0 <= m < j ==>
          phdrs[m] == if old(phdrs)[m].ptype == ptype then Synced(old(phdrs)[m], h.offset, h.addr, h.size) else old(phdrs)[m]
      {
        if phdrs[j].ptype == ptype {
          phdrs := phdrs[j := Synced(phdrs[j], h.offset, h.addr, h.size)];
        }
      }
    }

    /** `writeReplacedSections`; `cur0` is the offset on entry, `curOff` the offset on exit. */
    method WriteReplacedSections(cur0: nat, startAddr: nat, startOffset: nat) returns (curOff: nat, ghost slots: seq<Slot>)
      requires Placeable(Snap()) && startOffset <= cur0
      requires cur0 + TotalAll(cfg.cls, replaced) <= contents.Length
      modifies this`phdrs, this`shdrs, this`replaced, contents
      ensures curOff == cur0 + TotalAll(cfg.cls, old(replaced))
      ensures InSequence(cfg.cls, old(replaced), slots, cur0)
      ensures SameSlide(cfg.cls, slots, startAddr, startOffset)
      ensures Spaced(old(replaced), slots, curOff)
      ensures WrittenOut(old(Snap()), Snap(), slots, cur0, curOff)
    {
      hide HeadersPlaced, DataPlaced, XedOut, WrittenOut, InSequence, SameSlide, Spaced, TotalAll;
      ghost var s := Snap();
      slots := MakeSlots(cfg.cls, replaced, cur0, startAddr, startOffset);
      XOutOldSections();
      ghost var x := contents[..];
      curOff := PlaceAll(s, slots, x, replaced, cur0, startAddr, startOffset);
      replaced := [];
      WrittenOutIntro(s, x, Snap(), slots, cur0, curOff);
    }

    /** Writes the replacements one after the other. */
    method PlaceAll(ghost s: State, ghost slots: seq<Slot>, ghost x: seq<byte>, rs: seq<Replacement>, cur0: nat, startAddr: nat, startOffset: nat)
      returns (curOff: nat)
      requires s.cfg == cfg && s.replaced == rs && s.shdrs == shdrs && s.phdrs == phdrs && Placeable(s)
      requires x == contents[..]
      requires InSequence(cfg.cls, rs, slots, cur0) && SameSlide(cfg.cls, slots, startAddr, startOffset)
      requires Spaced(rs, slots, cur0 + TotalAll(cfg.cls, rs))
      requires startOffset <= cur0 && cur0 + TotalAll(cfg.cls, rs) <= contents.Length
      modifies this`phdrs, this`shdrs, contents
      ensures curOff == cur0 + TotalAll(cfg.cls, rs)
      ensures HeadersPlaced(s, slots, Which(s), |rs|, shdrs, phdrs)
      ensures DataPlaced(contents[..], rs, slots, |rs|)
      ensures SameOutside(x, contents[..], cur0, curOff)
    {
      hide HeadersPlaced, DataPlaced, Which, Placeable, SameSlide, Spaced, RoundUp, ElfClass.Align, InSequence, Total, SameOutside;
      ghost var end := cur0 + TotalAll(cfg.cls, rs);
      curOff := cur0;
      SlotsCount(cfg.cls, rs, slots, cur0);
      NothingPlaced(s, slots, x);
      NothingInside(x, cur0, end);
      for k := 0 to |rs|
        invariant curOff == cur0 + Total(cfg.cls, rs, k)
        invariant PlacedUpTo(s, slots, x, rs, k, cur0, end)
      {
        SlotInSequence(cfg.cls, rs, slots, cur0, k);
        PlaceNext(s, slots, x, cur0, end, rs, k, curOff, startAddr, startOffset);
        curOff := curOff + cfg.cls.Align(|rs[k].data|);
      }
    }

    /** The first `k` replacements are in their places. */
    ghost predicate PlacedUpTo(s: State, slots: seq<Slot>, x: seq<byte>, rs: seq<Replacement>, k: nat, cur0: nat, end: nat)
      requires k <= |rs| == |slots| && s.replaced == rs && Placeable(s)
      reads this, contents
    {
      && HeadersPlaced(s, slots, Which(s), k, shdrs, phdrs)
      && DataPlaced(contents[..], rs, slots, k) && SameOutside(x, contents[..], cur0, end)
    }

    /** Places the replacement number `k` at `cur`. */
    method PlaceNext(ghost s: State, ghost slots: seq<Slot>, ghost x: seq<byte>, ghost cur0: nat, ghost end: nat,
                     rs: seq<Replacement>, k: nat, cur: nat, startAddr: nat, startOffset: nat)
      requires s.cfg == cfg && s.replaced == rs && Placeable(s)
      requires Spaced(rs, slots, end) && end <= contents.Length
      requires k < |rs| && cur0 <= cur == slots[k].offset && SameSlide(cfg.cls, slots, startAddr, startOffset)
      requires HeadersPlaced(s, slots, Which(s), k, shdrs, phdrs)
      requires DataPlaced(contents[..], rs, slots, k) && SameOutside(x, contents[..], cur0, end)
      modifies this`phdrs, this`shdrs, contents
      ensures HeadersPlaced(s, slots, Which(s), k + 1, shdrs, phdrs)
      ensures DataPlaced(contents[..], rs, slots, k + 1) && SameOutside(x, contents[..], cur0, end)
    {
      hide SameOutside;
      ghost var c := contents[..];
      PlaceOne(s, slots, end, rs, k, Slot(cur, cfg.cls.Wrap(startAddr + (cur - startOffset))));
      SpliceOutside(x, c, cur, rs[k].data, cur0, end);
    }

    /** Places the replacement number `k` in its slot. */
    method PlaceOne(ghost s: State, ghost slots: seq<Slot>, ghost end: nat, rs: seq<Replacement>, k: nat, slot: Slot)
      requires s.cfg == cfg && s.replaced == rs && Placeable(s)
      requires Spaced(rs, slots, end) && end <= contents.Length
      requires k < |rs| && slot == slots[k]
      requires HeadersPlaced(s, slots, Which(s), k, shdrs, phdrs)
      requires DataPlaced(contents[..], rs, slots, k)
      modifies this`phdrs, this`shdrs, contents
      ensures HeadersPlaced(s, slots, Which(s), k + 1, shdrs, phdrs)
      ensures DataPlaced(contents[..], rs, slots, k + 1)
      ensures contents[..] == Splice(old(contents[..]), slot.offset, rs[k].data)
    {
      var i := FindSection3(rs[k].name);
      S.FindDependsOnNames(cfg.tab, shdrs, s.shdrs, rs[k].name, 1);
      assert s.Has(rs[k].name);
      WriteKeepsEarlier(contents[..], rs, slots, end, k);
      Memcpy(slot.offset, rs[k].data);
      shdrs := shdrs[i := PlacedHeader(cfg.cls, shdrs[i], slot, |rs[k].data|)];
      SyncSegmentsWith(rs[k], i, slot);
      HeadersStep(s, slots, k, i, old(shdrs), old(phdrs), shdrs, phdrs);
    }

    /** If the section at `i` is the interpreter or the dynamic section, its segment follows it. */
    method SyncSegmentsWith(r: Replacement, i: nat, ghost slot: Slot)
      requires i < |shdrs| && shdrs[i].offset == slot.offset && shdrs[i].addr == slot.addr && shdrs[i].size == |r.data|
      modifies this`phdrs
      ensures |phdrs| == |old(phdrs)|
      ensures forall j :: 0 <= j < |phdrs| ==> phdrs[j] == SyncedFor(r, slot, old(phdrs)[j])
    {
      if r.name == INTERP {
        SyncSegments(PT_INTERP, i);
      }
      if r.name == DYNAMIC {
        SyncSegments(PT_DYNAMIC, i);
      }
    }

    // -------------------------------------------------------------- collecting replacements

    /** `replaceSection`; false stands for the error exit. */
    method ReplaceSection(n: Name, size: nat) returns (found: bool)
      requires Snap().Has(n) ==> Snap().InBuffer(n)
      modifies this`replaced
      ensures found <==> Keyed(old(replaced), n) || Snap().Has(n)
      ensures found && Keyed(old(replaced), n) ==> replaced == Put(old(replaced), n, Resized(Data(old(replaced), n), size))
      ensures found && !Keyed(old(replaced), n) ==> replaced == Put(old(replaced), n, Resized(Snap().Content(n), size))
      ensures !found ==> replaced == old(replaced)
    {
      hide IndexOf, Put, Resized;
      var d;
      if Keyed(replaced, n) {
        d := Data(replaced, n);
      } else {
        var i := FindSection3(n);
        if i == 0 {
          return false;
        }
        d := contents[shdrs[i].offset..shdrs[i].offset + shdrs[i].size];
      }
      replaced := Put(replaced, n, Resized(d, size));
      return true;
    }

    /** The index of the last section that is being replaced, or 0. */
    method LastReplaced() returns (last: nat)
      requires |shdrs| >= 1
      ensures last == LastKeyed(Snap(), |shdrs|)
    {
      hide S.CString, IndexOf;
      last := 0;
      for i := 1 to |shdrs|
        invariant last == LastKeyed(Snap(), i)
      {
        if Keyed(replaced, S.NameOf(cfg.tab, shdrs[i])) {
          last := i;
        }
      }
    }

    /** Replaces a section by itself. */
    method PullIn(ghost s: State, n: Name, size: nat)
      requires s.cfg == cfg && s.contents == contents[..] && s.shdrs == shdrs
      requires s.Has(n) && s.InBuffer(n) && size == s.Sec(n).size && !Keyed(replaced, n)
      modifies this`replaced
      ensures replaced == Put(old(replaced), n, s.Content(n))
    {
      hide IndexOf, Put, Resized;
      ResizedToSelf(s.Content(n));
      assert Snap().Has(n) && Snap().Sec(n) == s.Sec(n);
      var _ := ReplaceSection(n, size);
    }

    /**
     Replaces the sections that lie in the way of the replaced ones.  The result is where the room
     for the replacements ends; it is absent when the assertion fails that some section follows.
     */
    method ReplaceSectionsInTheWay() returns (ok: bool, startOffset: nat, startAddr: nat, ghost stop: nat)
      requires WellFormed(Snap()) && NobitsAfterCode(Snap()) && Requested(Snap()) && S.SortedByOffset(shdrs)
      requires replaced != []
      modifies this`replaced
      ensures ok <==> LastKeyed(old(Snap()), |shdrs|) + 1 < |shdrs|
      ensures ok ==> PulledIn(old(Snap()), Snap(), startOffset, startAddr)
      ensures ok ==> StopsAt(old(Snap()), replaced, stop) && startOffset == shdrs[stop].offset && startAddr == shdrs[stop].addr
      ensures !ok ==> Snap() == old(Snap())
    {
      hide Scanned, NobitsAfterCode, WellFormed, Requested, PulledIn, IndexOf, Put, Resized, LastKeyed, S.CString, S.FindFrom, Splice,
           S.SortedByOffset, StopsAt;
      ghost var s := Snap();
      LastKeyedPositive(s);
      var last := LastReplaced();
      assert last != 0;
      if last + 1 >= |shdrs| {
        return false, 0, 0, 0;
      }
      startOffset, startAddr := shdrs[last + 1].offset, shdrs[last + 1].addr;
      var prevSection: Name := [];
      var i := 1;
      ScanStart(s);
      while i <= last
        invariant 1 <= i <= last + 1
        invariant Scanned(s, replaced, i)
        invariant contents[..] == s.contents
        invariant prevSection == if i == 1 then [] else S.NameOf(cfg.tab, shdrs[i - 1])
        invariant forall j :: 1 <= j < i ==> !Stopper(s, j)
      {
        var n := S.NameOf(cfg.tab, shdrs[i]);
        if Immovable(n, shdrs[i]) || prevSection == DYNSTR {
          startOffset, startAddr := shdrs[i].offset, shdrs[i].addr;
          PulledInIntro(s, Snap(), i);
          StopsIntro(s, replaced, i);
          return true, startOffset, startAddr, i;
        }
        ScanStep(s, replaced, i);
        if !Keyed(replaced, n) {
          PullIn(s, n, shdrs[i].size);
        }
        prevSection := n;
        i := i + 1;
      }
      PulledInIntro(s, Snap(), i);
      StopsIntro(s, replaced, i);
      return true, startOffset, startAddr, i;
    }

    // -------------------------------------------------------------- header tables

    /** Writes the program header table. */
    method WriteProgramHeaders()
      requires hdr.phoff + |phdrs| * cfg.cls.PhdrSize() <= contents.Length
      modifies contents
      ensures contents[..] == Splice(old(contents[..]), hdr.phoff, EncodePhdrs(cfg.cls, phdrs))
    {
      hide EncodePhdr, Splice;
      ghost var c := contents[..];
      var pos := hdr.phoff;
      SpliceNothing(c, pos);
      for i := 0 to |phdrs|
        invariant pos == hdr.phoff + |EncodePhdrs(cfg.cls, phdrs[..i])| && pos <= hdr.phoff + |EncodePhdrs(cfg.cls, phdrs)|
        invariant contents[..] == Splice(c, hdr.phoff, EncodePhdrs(cfg.cls, phdrs[..i]))
      {
        assert phdrs[..i + 1][..i] == phdrs[..i];
        EncodePhdrsPrefix(cfg.cls, phdrs, i + 1);
        SpliceAppend(c, hdr.phoff, EncodePhdrs(cfg.cls, phdrs[..i]), EncodePhdr(cfg.cls, phdrs[i]));
        Memcpy(pos, EncodePhdr(cfg.cls, phdrs[i]));
        pos := pos + cfg.cls.PhdrSize();
      }
      assert phdrs[..|phdrs|] == phdrs;
    }

    /** Writes the section header table; entry 0 is left as it is. */
    method WriteSectionHeaders()
      requires |shdrs| >= 1 && hdr.shoff + |shdrs| * cfg.cls.ShdrSize() <= contents.Length
      modifies contents
      ensures hdr.shoff + cfg.cls.ShdrSize() + |EncodeShdrs(cfg.cls, shdrs[1..])| == hdr.shoff + |shdrs| * cfg.cls.ShdrSize()
      ensures contents[..] == Splice(old(contents[..]), hdr.shoff + cfg.cls.ShdrSize(), EncodeShdrs(cfg.cls, shdrs[1..]))
    {
      hide EncodeShdr, Splice;
      TableStep(|shdrs| - 1, cfg.cls.ShdrSize());
      ghost var c := contents[..];
      ghost var ss := shdrs[1..];
      ghost var start := hdr.shoff + cfg.cls.ShdrSize();
      var pos := hdr.shoff + cfg.cls.ShdrSize();
      SpliceNothing(c, pos);
      for i := 1 to |shdrs|
        invariant pos == start + |EncodeShdrs(cfg.cls, ss[..i - 1])| && pos <= start + |EncodeShdrs(cfg.cls, ss)|
        invariant contents[..] == Splice(c, start, EncodeShdrs(cfg.cls, ss[..i - 1]))
      {
        assert ss[..i][..i - 1] == ss[..i - 1] && ss[i - 1] == shdrs[i];
        EncodeShdrsPrefix(cfg.cls, ss, i);
        SpliceAppend(c, start, EncodeShdrs(cfg.cls, ss[..i - 1]), EncodeShdr(cfg.cls, shdrs[i]));
        Memcpy(pos, EncodeShdr(cfg.cls, shdrs[i]));
        pos := pos + cfg.cls.ShdrSize();
      }
      assert ss[..|ss|] == ss;
    }

    /** Moves the section header table to the end of the file when the replacements would overwrite it. */
    method MoveSectionTable(startOffset: nat) returns (ok: bool)
      requires WellFormed(Snap())
      modifies this`fileSize, this`hdr, this`shdrs, contents
      ensures ok <==> old(hdr.shoff) >= startOffset
                      || old(fileSize) + old(hdr.shoff) + old(hdr.shnum) * cfg.cls.ShdrSize() <= cfg.maxSize
      ensures ok ==> fileSize <= cfg.maxSize
      ensures ok && old(hdr.shoff) >= startOffset ==> Snap() == old(Snap())
      ensures ok && old(hdr.shoff) < startOffset ==> TableMoved(old(Snap()), Snap())
    {
      hide S.Resorted, S.Sortable, Splice, SectionsInFile, SectionsApart, TableApart, EncodeShdrs, S.NameOf;
      if hdr.shoff >= startOffset {
        return true;
      }
      ghost var s := Snap();
      var shoffNew := fileSize;
      var shSize := hdr.shoff + hdr.shnum * hdr.shentsize;
      ok := GrowFile(fileSize + shSize);
      if !ok {
        return false;
      }
      ghost var g := contents[..];
      hdr := hdr.(shoff := shoffNew);
      assert hdr.shnum == |shdrs|;
      SortShdrs();
      SortedSize(cfg.tab, s.shdrs, shdrs);
      WriteSectionHeaders();
    }

    // -------------------------------------------------------------- shifting the file

    /** Moves the offsets in the section headers. */
    method ShiftSectionHeaders(shift: nat)
      requires |shdrs| >= 1
      modifies this`shdrs
      ensures shdrs == ShiftedShdrs(old(shdrs), shift)
    {
      ghost var ss := shdrs;
      for i := 1 to |shdrs|
        invariant |shdrs| == |ss| && shdrs[0] == ss[0]
        invariant forall j :: 1 <= j < i ==> shdrs[j] == ShiftedShdr(ss[j], shift)
        invariant forall j :: i <= j < |ss| ==> shdrs[j] == ss[j]
      {
        shdrs := shdrs[i := shdrs[i].(offset := shdrs[i].offset + shift)];
      }
    }

    /** Moves the offsets in the program headers, changing alignments that no longer hold. */
    method ShiftProgramHeaders(shift: nat)
      requires cfg.pageSize > 0
      modifies this`phdrs
      ensures phdrs == ShiftedPhdrs(cfg, old(phdrs), shift)
    {
      ghost var ps := phdrs;
      for i := 0 to |phdrs|
        invariant |phdrs| == |ps|
        invariant forall j :: 0 <= j < i ==> phdrs[j] == ShiftedPhdr(cfg, ps[j], shift)
        invariant forall j :: i <= j < |ps| ==> phdrs[j] == ps[j]
      {
        var q := phdrs[i].(offset := phdrs[i].offset + shift);
        if q.align != 0 && cfg.cls.Wrap(q.vaddr - q.offset) % q.align != 0 {
          q := q.(align := cfg.pageSize);
        }
        phdrs := phdrs[i := q];
      }
    }

    /** `shiftFile`; false stands for the error exit. */
    method ShiftFile(extraPages: nat, startPage: nat) returns (ok: bool)
      requires fileSize <= cfg.maxSize <= contents.Length && |shdrs| >= 1 && cfg.pageSize > 0
      requires |phdrs| == hdr.phnum
      requires cfg.cls.EhdrSize() <= extraPages * cfg.pageSize
      modifies this`fileSize, this`hdr, this`phdrs, this`shdrs, contents
      ensures ok <==> old(fileSize) + extraPages * cfg.pageSize <= cfg.maxSize
      ensures ok ==> Snap() == Shifted(old(Snap()), extraPages, startPage)
    {
      hide Splice, Repeat, Slice, ShiftedPhdrs, ShiftedShdrs, ElfClass.Wrap;
      var oldSize := fileSize;
      var shift := extraPages * cfg.pageSize;
      ok := GrowFile(fileSize + shift);
      if !ok {
        return false;
      }
      ghost var g := contents[..];
      Memmove(shift, 0, oldSize);
      SliceFromStart(g, oldSize);
      Memset(cfg.cls.EhdrSize(), 0, shift - cfg.cls.EhdrSize());
      hdr := hdr.(phoff := cfg.cls.EhdrSize(), shoff := hdr.shoff + shift);
      ShiftSectionHeaders(shift);
      ShiftProgramHeaders(shift);
      hdr := hdr.(phnum := hdr.phnum + 1);
      phdrs := phdrs + [NewSegment(cfg, 0, startPage, shift)];
    }

    // -------------------------------------------------------------- repairing the references inside sections

    /** The address of a section that has to exist. */
    method AddrOfSection(n: Name) returns (fix: Fix)
      ensures fix == AddrOf(Snap(), n)
    {
      var i := FindSection3(n);
      fix := if i == 0 then NoSection else SetTo(shdrs[i].addr);
    }

    /** The address of the first of some sections that exists. */
    method AddrOfFirst(ns: seq<Name>, otherwise: Fix) returns (fix: Fix)
      ensures fix == FirstAddrOf(Snap(), ns, otherwise)
    {
      for k := 0 to |ns|
        invariant FirstAddrOf(Snap(), ns, otherwise) == FirstAddrOf(Snap(), ns[k..], otherwise)
      {
        var i := FindSection3(ns[k]);
        if i != 0 {
          return SetTo(shdrs[i].addr);
        }
        assert ns[k..][1..] == ns[k + 1..];
      }
      return otherwise;
    }

    /** What is to happen to a dynamic entry. */
    method FixForTag(tag: nat) returns (fix: Fix)
      ensures fix == FixFor(Snap(), tag)
    {
      if tag == DT_STRTAB {
        fix := AddrOfSection(DYNSTR);
      } else if tag == DT_STRSZ {
        var i := FindSection3(DYNSTR);
        fix := if i == 0 then NoSection else SetTo(shdrs[i].size);
      } else if tag == DT_SYMTAB {
        fix := AddrOfSection(DYNSYM);
      } else if tag == DT_HASH {
        fix := AddrOfSection(HASH);
      } else if tag == DT_GNU_HASH {
        fix := AddrOfSection(GNU_HASH);
      } else if tag == DT_JMPREL {
        fix := AddrOfFirst([REL_PLT, RELA_PLT, RELA_PLTOFF], NoSection);
      } else if tag == DT_REL {
        fix := AddrOfFirst([REL_DYN, REL_GOT], Unchanged);
      } else if tag == DT_RELA {
        fix := AddrOfFirst([RELA_DYN], Unchanged);
      } else if tag == DT_VERNEED {
        fix := AddrOfSection(VERSION_R);
      } else if tag == DT_VERSYM {
        fix := AddrOfSection(VERSION);
      } else {
        fix := Unchanged;
      }
    }

    /** Updates the dynamic section at `off`; false stands for the error exit for a missing section. */
    method UpdateDynamic(ghost s: State, off: nat, ghost size: nat) returns (ok: bool)
      requires s.cfg == cfg && s.shdrs == shdrs
      requires off + size <= contents.Length && HasNull(cfg.cls, Slice(contents[..], off, size))
      modifies contents
      ensures ok <==> PatchDynamic(s, Slice(old(contents[..]), off, size)).Some?
      ensures ok ==> contents[..] == Splice(old(contents[..]), off, PatchDynamic(s, Slice(old(contents[..]), off, size)).value)
    {
      hide Splice, HasNull, DynamicDone, FixFor, PatchDynamic;
      ghost var c := contents[..];
      ghost var d := Slice(c, off, size);
      ghost var prefix: seq<byte> := [];
      var sz, w := cfg.cls.DynSize(), cfg.cls.OffSize();
      var pos := off;
      DynamicStart(s, d);
      SpliceNothing(c, off);
      while true
        invariant DynamicDone(s, d, prefix, pos - off) && off <= pos <= off + size && |prefix| == pos - off
        invariant contents[..] == Splice(c, off, prefix)
        decreases off + size - pos
      {
        SpliceBehind(c, off, size, prefix);
        NullAhead(s, d, prefix, pos - off);
        ghost var done := pos - off;
        assert contents[pos..off + size] == d[done..];
        var e := contents[pos..pos + sz];
        FrontOfSlice(contents, pos, off + size, sz);
        FrontSlices(d, done, sz, w);
        assert DynTag(cfg.cls, e) == DynTag(cfg.cls, d[done..]);
        var tag := DynTag(cfg.cls, e);
        if tag == DT_NULL {
          DynamicEnd(s, d, prefix, done);
          SpliceFront(c, off, size, prefix);
          return true;
        }
        var fix := FixForTag(tag);
        FixDependsOnHeaders(s, Snap(), tag);
        if fix.NoSection? {
          DynamicMissing(s, d, prefix, done);
          return false;
        }
        DynamicStep(s, d, prefix, done);
        Memcpy(pos, Fixed(cfg.cls, e, fix));
        SpliceAppend(c, off, prefix, Fixed(cfg.cls, e, fix));
        prefix := prefix + Fixed(cfg.cls, e, fix);
        pos := pos + sz;
      }
    }

    lemma FrontOfSlice(a: array<byte>, i: nat, j: nat, n: nat)
      requires i + n <= j <= a.Length
      ensures a[i..i + n] == a[i..j][..n]
    {
    }

    lemma FrontSlices(d: seq<byte>, done: nat, sz: nat, w: nat)
      requires done + sz <= |d| && w <= sz
      ensures d[done..][..sz] == d[done..done + sz] && d[done..][..sz][..w] == d[done..][..w]
    {
    }

    /** Updates the symbol table at `off`. */
    method UpdateSymbols(ghost s: State, off: nat, size: nat)
      requires s.cfg == cfg && s.shdrs == shdrs
      requires off + size <= contents.Length && |shdrs| >= 1 && Named(cfg)
      modifies contents
      ensures contents[..] == Splice(old(contents[..]), off, PatchSymtab(s, Slice(old(contents[..]), off, size)))
    {
      hide Splice, SymbolsDone, PatchSymtab, PatchSym;
      ghost var c := contents[..];
      ghost var d := Slice(c, off, size);
      ghost var prefix: seq<byte> := [];
      var sz := cfg.cls.SymSize();
      var pos := off;
      SymbolsStart(s, d);
      SpliceNothing(c, off);
      while pos + sz <= off + size
        invariant off <= pos <= off + size && |prefix| == pos - off && SymbolsDone(s, d, prefix, pos - off)
        invariant contents[..] == Splice(c, off, prefix)
        decreases off + size - pos
      {
        SpliceBehind(c, off, size, prefix);
        ghost var done := pos - off;
        assert contents[pos..off + size] == d[done..];
        var e := contents[pos..pos + sz];
        assert e == d[done..][..sz] == d[done..done + sz];
        SymbolsStep(s, d, prefix, done);
        UpdateSymbol(s, pos);
        SpliceAppend(c, off, prefix, PatchSym(s, e));
        prefix := prefix + PatchSym(s, e);
        pos := pos + sz;
      }
      SymbolsEnd(s, d, prefix, pos - off);
      SpliceFront(c, off, size, prefix);
    }

    /** Updates one symbol. */
    method UpdateSymbol(ghost s: State, pos: nat)
      requires s.cfg == cfg && s.shdrs == shdrs && |shdrs| >= 1 && Named(cfg)
      requires pos + cfg.cls.SymSize() <= contents.Length
      modifies contents
      ensures contents[..] == Splice(old(contents[..]), pos, PatchSym(s, old(contents[pos..pos + cfg.cls.SymSize()])))
    {
      var cls := cfg.cls;
      var e := contents[pos..pos + cls.SymSize()];
      var shndx := SymShndx(cls, e);
      if shndx != SHN_UNDEF && shndx < SHN_LORESERVE && shndx < |cfg.oldNames| {
        var section := cfg.oldNames[shndx];
        assert section != [];
        var newIndex := FindSection3(section);
        e := Splice(e, ShndxAt(cls), LE(newIndex, 2));
        if SymType(cls, e) == STT_SECTION {
          e := Splice(e, ValueAt(cls), LE(shdrs[newIndex].addr, cls.OffSize()));
        }
      }
      Memcpy(pos, e);
    }

    /** Updates every symbol table of the file. */
    method UpdateAllSymbols()
      requires |shdrs| >= 1 && S.DistinctNames(cfg.tab, shdrs) && RangesApart(Snap()) && Named(cfg)
      modifies contents
      ensures SymtabsDone(old(Snap()), contents[..], |shdrs|)
    {
      hide SymtabsDone, RangesApart, PatchSymtab, Splice, S.DistinctNames;
      ghost var s := Snap();
      SymtabsStart(s);
      for i := 1 to |shdrs|
        invariant SymtabsDone(s, contents[..], i)
      {
        SymtabStep(s, contents[..], i);
        if shdrs[i].SymbolTable() {
          UpdateSymbols(s, shdrs[i].offset, shdrs[i].size);
        }
      }
    }

    /** `sortPhdrs`.  Callers know only that the headers are rearranged, and in order. */
    method SortPhdrs()
      modifies this`phdrs
      ensures |phdrs| == |old(phdrs)| && multiset(phdrs) == multiset(old(phdrs))
      ensures InOrder(phdrs)
    {
      hide InOrder, S.Insert;
      var ps, r: seq<Phdr> := phdrs, [];
      NothingInOrder();
      for k := 0 to |ps|
        invariant |r| == k && multiset(r) == multiset(ps[..k]) && InOrder(r)
      {
        var pos := k;
        while pos > 0 && Before(ps[k], r[pos - 1])
          invariant 0 <= pos <= k
          invariant pos < k ==> Before(ps[k], r[pos])
        {
          pos := pos - 1;
        }
        InsertKeepsInOrder(r, pos, ps[k]);
        PrefixAndNext(ps, k);
        S.InsertMultiset(r, pos, ps[k]);
        r := S.Insert(r, pos, ps[k]);
      }
      assert ps[..|ps|] == ps;
      phdrs := r;
    }

    /** The comparison of `sortPhdrs`. */
    predicate Before(x: Phdr, y: Phdr) {
      x.ptype == PT_PHDR || (y.ptype != PT_PHDR && x.paddr < y.paddr)
    }

    /** Updates the segment of the program header table, if there is one. */
    method UpdateTableSegment(phdrAddress: nat)
      modifies this`phdrs
      ensures phdrs == WithTableSegment(old(phdrs), hdr.phoff, phdrAddress, |phdrs| * cfg.cls.PhdrSize())
    {
      for i := 0 to |phdrs|
        invariant phdrs == old(phdrs)
        invariant forall j :: 0 <= j < i ==> phdrs[j].ptype != PT_PHDR
      {
        if phdrs[i].ptype == PT_PHDR {
          assert TableSegment(phdrs) == i;
          phdrs := phdrs[i := Synced(phdrs[i], hdr.phoff, phdrAddress, |phdrs| * cfg.cls.PhdrSize())];
          return;
        }
      }
    }

    /** `rewriteHeaders`; false stands for the error exit for a missing section. */
    method RewriteHeaders(phdrAddress: nat) returns (ok: bool)
      requires WellFormed(Snap()) && TableRoom(Snap()) && DynamicTerminated(Snap())
      modifies this`hdr, this`phdrs, this`shdrs, contents
      ensures ok ==> HeadersRewritten(old(Snap()), Snap(), phdrAddress)
      ensures ok && HeadersFit(Snap()) ==> TablesRead(Snap())
      ensures ok ==> InOrder(phdrs)
      ensures !ok ==> old(Snap()).Has(DYNAMIC) && old(Snap()).InBuffer(DYNAMIC)
                      && PatchDynamic(old(Snap()), old(Snap()).Content(DYNAMIC)).None?
    {
      hide Splice, Slice, S.Sortable, S.Resorted, SectionsInFile, SectionsApart, TableApart, EncodePhdrs, EncodeShdrs,
           S.NameOf, HasNull, PatchDynamic, WithTableSegment, TablesRead, HeadersFit, InOrder;
      ghost var s := Snap();
      TableFits(s);
      UpdateTableSegment(phdrAddress);
      SortPhdrs();
      WriteProgramHeaders();
      assert hdr.shnum == |shdrs|;
      SortShdrs();
      SortedSize(cfg.tab, s.shdrs, shdrs);
      WriteSectionHeaders();
      ghost var t := Snap();
      TablesWrittenKeep(s, t, phdrAddress);
      DynamicStaysTerminated(s, t);
      ok := UpdateDynamicSection();
      if ok {
        ghost var u := Snap();
        DynamicKeeps(t, u);
        SortableNames(t);
        UpdateAllSymbols();
        HeadersRewrittenIntro(s, t, u, Snap(), phdrAddress);
        RewrittenTablesRead(s, Snap(), phdrAddress);
      } else {
        MissingBefore(s, t);
      }
    }

    /** Updates the dynamic section, if there is one. */
    method UpdateDynamicSection() returns (ok: bool)
      requires DynamicTerminated(Snap())
      modifies contents
      ensures ok ==> DynamicPatched(old(Snap()), Snap())
      ensures !ok ==> old(Snap()).Has(DYNAMIC) && PatchDynamic(old(Snap()), old(Snap()).Content(DYNAMIC)).None?
    {
      hide Splice, HasNull, PatchDynamic;
      var i := FindSection3(DYNAMIC);
      ok := true;
      if i != 0 {
        ok := UpdateDynamic(Snap(), shdrs[i].offset, shdrs[i].size);
      }
    }

    // -------------------------------------------------------------- rewriting an executable

    /** The space for the ELF header, the program headers and the replacements. */
    method NeededSpace() returns (n: nat)
      ensures n == Snap().HeadersSize() + TotalAll(cfg.cls, replaced)
    {
      n := cfg.cls.EhdrSize() + |phdrs| * cfg.cls.PhdrSize();
      for k := 0 to |replaced|
        invariant n == Snap().HeadersSize() + Total(cfg.cls, replaced, k)
      {
        n := n + cfg.cls.Align(|replaced[k].data|);
      }
    }

    /** Settles what is to be replaced and moves the section header table out of the way. */
    method ClearTheWay() returns (r: Ending, startOffset: nat, startAddr: nat)
      requires Rewritable(Snap()) && NobitsAfterCode(Snap())
      modifies this`fileSize, this`hdr, this`shdrs, this`replaced, contents
      ensures r.Done? ==> Cleared(old(Snap()), Snap(), 0, startOffset) && startAddr % cfg.pageSize == startOffset % cfg.pageSize
      ensures r.Done? ==> hdr.phoff == old(hdr.phoff) && fileSize == SizeWithTable(old(Snap()), startOffset) <= cfg.maxSize
      ensures r in {Done, NotCongruent, TooLarge, NothingFollows}
      ensures r.NothingFollows? ==> Explained(old(Snap()), r)
      ensures !r.NothingFollows? ==> Chosen(old(Snap()), replaced, startOffset, startAddr)
      ensures r.NotCongruent? <==> !r.NothingFollows? && startAddr % cfg.pageSize != startOffset % cfg.pageSize
      ensures r.TooLarge? ==> SizeWithTable(old(Snap()), startOffset) > cfg.maxSize
      ensures r.Done? ==> TotalAll(cfg.cls, replaced) <= 0x8000_0000 + 8 * |shdrs|
    {
      hide S.Resorted, S.Sortable, S.SortedByOffset, UnderWay, NobitsAfterCode, PulledIn, Moves, Keeps, S.NameOf, Splice, Behind,
           Total, DynamicReady, SectionsInFile, SectionsApart, TableApart, LastKeyed, TableMoved, Cleared, WellFormed, Requested,
           TotalAll, S.Find;
      ghost var s := Snap();
      startOffset, startAddr := 0, 0;
      RewritableSorts(s);
      SortShdrs();
      SortedSize(cfg.tab, s.shdrs, shdrs);
      SortUnderWay(s, Snap());
      UnderWayParts(s, Snap(), 0);
      ghost var t := Snap();
      var ok;
      ghost var stop;
      ok, startOffset, startAddr, stop := ReplaceSectionsInTheWay();
      if !ok {
        NothingFollowsExplained(s, t);
        return NothingFollows, startOffset, startAddr;
      }
      ghost var u := Snap();
      PullUnderWay(s, t, u, startOffset, startAddr);
      ChosenIntro(s, t, u, startOffset, startAddr, stop);
      if startAddr % cfg.pageSize != startOffset % cfg.pageSize {
        return NotCongruent, startOffset, startAddr;
      }
      PulledInFits(t, u, startOffset, startAddr);
      UnderWayParts(s, u, 0);
      ok := MoveSectionTable(startOffset);
      if !ok {
        return TooLarge, startOffset, startAddr;
      }
      TableMoveClears(s, u, Snap(), startOffset);
      r := Done;
    }

    /** Shifts the file when the room at its front is too small; the file is shifted by whole pages. */
    method MakeRoom(ghost s: State, offset0: nat, page0: nat)
      returns (r: Ending, startOffset: nat, firstPage: nat, neededSpace: nat, ghost shift: nat)
      requires Cleared(s, Snap(), 0, offset0) && hdr.phoff == cfg.cls.EhdrSize() && |phdrs| < 0xFFFF
      requires TotalAll(cfg.cls, replaced) <= 0x8000_0000 + 8 * |shdrs|
      modifies this`fileSize, this`hdr, this`phdrs, this`shdrs, contents
      ensures replaced == old(replaced)
      ensures r.Done? ==> Cleared(s, Snap(), shift, startOffset) && hdr.phoff == cfg.cls.EhdrSize()
      ensures r.Done? ==> neededSpace == Snap().HeadersSize() + TotalAll(cfg.cls, replaced) <= startOffset
      ensures r.Done? || r.AddressUnderrun? || r.TooLarge?
      ensures shift == MissingSpace(old(Snap()), replaced, offset0)
      ensures r.AddressUnderrun? <==> page0 < shift
      ensures r.TooLarge? <==> shift <= page0 && old(fileSize) + shift > cfg.maxSize
      ensures r.Done? ==> startOffset == offset0 + shift && firstPage + shift == page0 && shift % cfg.pageSize == 0
      ensures r.Done? ==> phdrs == ShiftedSegments(cfg, old(phdrs), shift, firstPage)
    {
      hide Cleared, TotalAll, S.Sortable, S.NameOf, ShiftedShdrs, ShiftedPhdrs, ShiftedContents, Grown, RoundUp, PowerOfTwo,
           SectionsInFile, SectionsApart, TableApart, UnderWay;
      ClearedParts(s, Snap(), 0, offset0);
      neededSpace := NeededSpace();
      startOffset, firstPage, shift := offset0, page0, 0;
      if neededSpace > startOffset {
        neededSpace := neededSpace + cfg.cls.PhdrSize();
        PagesCover(neededSpace - startOffset, cfg.pageSize);
        var neededPages := RoundUp(neededSpace - startOffset, cfg.pageSize) / cfg.pageSize;
        shift := neededPages * cfg.pageSize;
        if neededPages * cfg.pageSize > firstPage {
          return AddressUnderrun, startOffset, firstPage, neededSpace, shift;
        }
        firstPage := firstPage - neededPages * cfg.pageSize;
        startOffset := startOffset + neededPages * cfg.pageSize;
        ghost var t := Snap();
        var ok := ShiftFile(neededPages, firstPage);
        if !ok {
          return TooLarge, startOffset, firstPage, neededSpace, shift;
        }
        ShiftClears(s, t, offset0, neededPages, firstPage);
        ModOfMultiple(neededPages, cfg.pageSize);
        TableStep(|t.phdrs|, cfg.cls.PhdrSize());
      } else {
        ModOfMultiple(0, cfg.pageSize);
      }
      r := Done;
    }

    /** Writes the replacements into the room at the front, and then the headers. */
    method FillRoom(ghost s: State, ghost shift: nat, startOffset: nat, firstPage: nat, neededSpace: nat)
      returns (ok: bool, ghost rs: seq<Replacement>, ghost cur0: nat)
      requires Rewritable(s) && Cleared(s, Snap(), shift, startOffset) && hdr.phoff == cfg.cls.EhdrSize()
      requires neededSpace == Snap().HeadersSize() + TotalAll(cfg.cls, replaced) <= startOffset
      modifies this`hdr, this`phdrs, this`shdrs, this`replaced, contents
      ensures cur0 == old(Snap().HeadersSize())
      ensures !ok ==> Explained(s, MissingSection)
      ensures ok ==> Rewritten(s, Snap(), rs, shift, cur0, neededSpace, firstPage, 0)
      ensures rs == old(replaced) && (ok ==> FrontRoom(Snap(), rs, cur0, neededSpace))
      ensures ok ==> SegmentsFollow(Snap(), rs, old(phdrs), cfg.cls.Wrap(firstPage + hdr.phoff))
      ensures ok ==> InOrder(phdrs)
    {
      hide Cleared, TotalAll, S.Sortable, S.NameOf, SectionsInFile, SectionsApart, TableApart, UnderWay, Rewritable, Splice,
           Placeable, WrittenOut, HeadersReplaced, FreeRegion, Spaced, SameSlide, TableRoom, DynamicTerminated,
           HeadersRewritten, Rewritten, Requested, Repeat, FrontRoom, SegmentsFollow, InOrder;
      ghost var t0 := Snap();
      ClearedParts(s, t0, shift, startOffset);
      var curOff := cfg.cls.EhdrSize() + |phdrs| * cfg.cls.PhdrSize();
      cur0 := curOff;
      Memset(curOff, 0, startOffset - curOff);
      ghost var t := Snap();
      ClearedFill(s, t0, t, shift, cur0, startOffset);
      ClearedIsFree(s, t, shift, startOffset, cur0, neededSpace);
      ClearedParts(s, t, shift, startOffset);
      rs := replaced;
      ghost var slots;
      curOff, slots := WriteReplacedSections(curOff, firstPage, 0);
      assert curOff == neededSpace;
      ghost var u := Snap();
      SlotsBegin(cfg.cls, rs, slots, cur0);
      WrittenHeaders(t, u, slots, cur0, curOff);
      WrittenIsWellFormed(t, u, slots, cur0, curOff);
      RoomForTable(s, t, u, slots, shift, startOffset, cur0, curOff);
      DynamicStillReady(s, t, u, slots, shift, cur0, curOff);
      var phdrAddress := cfg.cls.Wrap(firstPage + hdr.phoff);
      ok := RewriteHeaders(phdrAddress);
      if ok {
        RewrittenIntro(s, t, u, Snap(), slots, shift, cur0, curOff, firstPage, 0, phdrAddress);
        SegmentsFollowIntro(t, u, Snap(), slots, cur0, curOff, phdrAddress);
        HeadersRewrittenShape(u, Snap(), phdrAddress);
        FrontRoomIntro(s, t, u, Snap(), slots, shift, startOffset, cur0, curOff, phdrAddress);
      } else {
        MissingExplained(s, t, u, slots, shift, cur0, curOff);
      }
    }

    /**
     `rewriteSectionsExecutable`.  The replacements and the sections that were in their way, `rs`, end up
     between the headers and `roomEnd`; everything else, which begins at `startOffset` or behind it, is `shift` bytes further on.
     */
    method RewriteSectionsExecutable()
      returns (r: Ending, ghost rs: seq<Replacement>, ghost shift: nat, ghost room: nat, ghost roomEnd: nat, ghost firstPage: nat,
               ghost startOffset: nat, ghost startAddr: nat)
      requires Rewritable(Snap()) && NobitsAfterCode(Snap()) && hdr.phoff == cfg.cls.EhdrSize()
      modifies this`fileSize, this`hdr, this`phdrs, this`shdrs, this`replaced, contents
      ensures r.Done? ==> Rewritten(old(Snap()), Snap(), rs, shift, room, roomEnd, firstPage, 0)
      ensures r.Done? ==> shift % cfg.pageSize == 0 && firstPage % cfg.pageSize == 0
      ensures r.Done? ==> SegmentsFollow(Snap(), rs, ShiftedSegments(cfg, old(phdrs), shift, firstPage),
                                         cfg.cls.Wrap(firstPage + hdr.phoff))
      ensures r.Done? ==> ExecutableSegments(old(Snap()), Snap(), rs, shift, firstPage, cfg.cls.Wrap(firstPage + hdr.phoff))
      ensures r.Done? ==> InOrder(phdrs)
      ensures r.Done? ==> FrontRoom(Snap(), rs, room, roomEnd) && roomEnd <= startOffset + shift
      ensures r.Done? ==> shift == MissingSpace(old(Snap()), rs, startOffset)
                          && firstPage + shift == FrontAddress(cfg, startOffset, startAddr)
      ensures 0 < cfg.pageSize < 0x1_0000_0000
      ensures !r.NothingFollows? ==>
        Chosen(old(Snap()), rs, startOffset, startAddr) && FailsExactly(old(Snap()), r, rs, startOffset, startAddr)
      ensures Explained(old(Snap()), r)
    {
      hide Rewritable, Cleared, Rewritten, NobitsAfterCode, TotalAll, SegmentsFollow, ShiftedSegments, Chosen, FrontRoom, RoundUp,
           FailsExactly, MissingSpace, SizeWithTable, Explained, PowerOfTwo, ExecutableSegments, Keyed, InOrder;
      ghost var s := Snap();
      RewritableSizes(s);
      shift, room, roomEnd, firstPage := 0, 0, 0, 0;
      var start, addr;
      r, start, addr := ClearTheWay();
      rs, startOffset, startAddr := replaced, start, addr;
      ghost var u := Snap();
      if !r.Done? {
        if r.NotCongruent? {
          NotCongruentExplained(s, rs, start, addr);
        }
        if !r.NothingFollows? {
          FailsEarly(s, r, rs, start, addr);
        }
        return;
      }
      var offset, page, neededSpace;
      r, offset, page, neededSpace, shift := MakeRoom(s, start, cfg.cls.Wrap(addr as int - start));
      SameMissing(s, u, rs, start);
      FailsForRoom(s, r, rs, start, addr);
      if !r.Done? {
        return;
      }
      FirstPageIsPage(cfg, addr, start, page, shift);
      var ok;
      ok, rs, room := FillRoom(s, shift, offset, page, neededSpace);
      firstPage, roomEnd := page, neededSpace;
      r := if ok then Done else MissingSection;
      FailsForRoom(s, r, rs, start, addr);
      if ok {
        ReplacedExist(s, Snap(), rs, shift, room, roomEnd, firstPage, 0);
        ExecutableIsSaid(s, Snap(), rs, shift, firstPage, cfg.cls.Wrap(firstPage + hdr.phoff));
      }
    }

    // -------------------------------------------------------------- rewriting a library

    /** Grows the file and chooses the place of the new segment. */
    method GrowForLibrary() returns (ok: bool, startOffset: nat, startPage: nat, neededSpace: nat)
      requires Rewritable(Snap())
      modifies this`fileSize, contents
      ensures var s := old(Snap()); startOffset == LibraryOffset(s) && startPage == LibraryPage(s) && neededSpace == LibraryNeeded(s)
      ensures ok <==> startOffset + neededSpace <= cfg.maxSize
      ensures ok ==> UnderWay(old(Snap()), Snap(), 0) && fileSize == startOffset + neededSpace
    {
      hide UnderWay, S.Sortable, S.NameOf, Splice, Repeat, RoundUp, PowerOfTwo, SectionsInFile, SectionsApart, TableApart, TotalAll,
           Requested, DynamicReady, Moves, Keeps;
      ghost var s := Snap();
      startPage := 0;
      for i := 0 to |phdrs|
        invariant startPage == LastPage(cfg, phdrs[..i])
      {
        assert phdrs[..i + 1][..i] == phdrs[..i];
        var thisPage := RoundUp(phdrs[i].vaddr + phdrs[i].memsz, cfg.pageSize);
        if thisPage > startPage {
          startPage := thisPage;
        }
      }
      assert phdrs[..|phdrs|] == phdrs;
      neededSpace := (|phdrs| + 1) * cfg.cls.PhdrSize();
      for k := 0 to |replaced|
        invariant neededSpace == (|phdrs| + 1) * cfg.cls.PhdrSize() + Total(cfg.cls, replaced, k)
      {
        neededSpace := neededSpace + cfg.cls.Align(|replaced[k].data|);
      }
      NeededForLibrary(s, neededSpace);
      LibraryPlaceIsPage(s);
      UnderWayStart(s);
      startOffset := RoundUp(fileSize, cfg.pageSize);
      ok := GrowAndCarry(s, startOffset + neededSpace);
      if cfg.isExecutable {
        if startOffset < startPage {
          var hole := startPage - startOffset;
          HoleIsPages(s);
          assert hole % cfg.pageSize == 0;
          if ok {
            ok := GrowAndCarry(s, fileSize + hole);
          }
          startOffset := startOffset + hole;
        }
        startPage := startOffset;
      }
    }

    lemma NeededForLibrary(s: State, n: nat)
      requires n == (|s.phdrs| + 1) * s.cfg.cls.PhdrSize() + Total(s.cfg.cls, s.replaced, |s.replaced|)
      ensures n == LibraryNeeded(s) && n >= s.cfg.cls.PhdrSize()
    {
      TableStep(|s.phdrs|, s.cfg.cls.PhdrSize());
    }

    /** Grows the file, carrying the sections along. */
    method GrowAndCarry(ghost s: State, newSize: nat) returns (ok: bool)
      requires UnderWay(s, Snap(), 0) && fileSize <= newSize
      modifies this`fileSize, contents
      ensures ok <==> newSize <= cfg.maxSize
      ensures ok ==> UnderWay(s, Snap(), 0) && fileSize == newSize
    {
      hide UnderWay, Grown, SectionsInFile, SectionsApart, TableApart, S.Sortable, S.NameOf, Moves, Keeps;
      ghost var t := Snap();
      UnderWayParts(s, t, 0);
      ok := GrowFile(newSize);
      if ok {
        GrownCarries(t, newSize);
        KeepsFewer(t, Snap(), t.replaced);
        UnderWayStep(s, t, Snap(), 0, 0);
      }
    }

    /** Adds the segment, writes the replacements into it, and then the headers. */
    method FillLibrary(ghost s: State, startOffset: nat, startPage: nat, neededSpace: nat) returns (r: Ending)
      requires Rewritable(s) && UnderWay(s, Snap(), 0) && hdr == s.hdr && phdrs == s.phdrs && replaced == s.replaced
      requires startOffset == LibraryOffset(s) && startPage == LibraryPage(s) && neededSpace == LibraryNeeded(s)
      requires fileSize == startOffset + neededSpace
      modifies this`hdr, this`phdrs, this`shdrs, this`replaced, contents
      ensures r.Done? || (r.MissingSection? && Explained(s, r))
      ensures r.Done? ==> RewrittenLibrary(s, Snap()) && InOrder(phdrs)
    {
      hide TotalAll, S.Sortable, S.NameOf, SectionsInFile, SectionsApart, TableApart, UnderWay, Rewritable, Splice, Appended,
           Placeable, WrittenOut, HeadersReplaced, FreeRegion, Spaced, SameSlide, TableRoom, DynamicTerminated, WellFormed,
           HeadersRewritten, Rewritten, Requested, Repeat, LibraryOffset, LibraryPage, MappedBySegment, SegmentsFollow,
           DynamicReady, Explained, LibrarySegments, InOrder;
      ghost var g := Snap();
      LibraryStart(s, g);
      phdrs := phdrs + [NewSegment(cfg, startOffset, startPage, neededSpace)];
      hdr := hdr.(phnum := hdr.phnum + 1);
      ghost var t0 := Snap();
      ghost var t := t0.(hdr := t0.hdr.(phoff := startOffset));
      var curOff := startOffset + |phdrs| * cfg.cls.PhdrSize();
      ghost var cur0, end := curOff, startOffset + neededSpace;
      AppendedIntro(s, g, t0, startOffset);
      AppendedIntro(s, g, t, startOffset);
      AppendedIsFree(s, t0, startOffset, cur0, end);
      AppendedIsFree(s, t, startOffset, cur0, end);
      ghost var slots;
      curOff, slots := WriteReplacedSections(curOff, startPage, startOffset);
      assert curOff == startOffset + neededSpace;
      ghost var u0 := Snap();
      WrittenElsewhere(t0, u0, slots, cur0, end, t.hdr);
      WrittenShape(t0, u0, slots, cur0, end);
      hdr := hdr.(phoff := startOffset);
      ghost var u := Snap();
      SlotsBegin(cfg.cls, s.replaced, slots, cur0);
      WrittenHeaders(t, u, slots, cur0, end);
      WrittenIsWellFormed(t, u, slots, cur0, end);
      LibraryTableRoom(s, t, u, slots, startOffset, cur0, end);
      AppendedParts(s, t, startOffset);
      DynamicStillReady(s, t, u, slots, 0, cur0, end);
      var ok := RewriteHeaders(startPage);
      if !ok {
        MissingExplained(s, t, u, slots, 0, cur0, end);
        return MissingSection;
      }
      RewrittenIntro(s, t, u, Snap(), slots, 0, cur0, end, startPage, startOffset, startPage);
      SegmentsFollowIntro(t, u, Snap(), slots, cur0, end, startPage);
      HeadersRewrittenShape(u, Snap(), startPage);
      LibraryMapped(s, Snap());
      LibrarySegmentsIntro(s, Snap());
      r := Done;
    }

    /**
     `rewriteSectionsLibrary`.  The replacements end up behind the end of the file, in a segment of
     their own; everything else stays where it is.
     */
    method RewriteSectionsLibrary() returns (r: Ending)
      requires Rewritable(Snap())
      modifies this`fileSize, this`hdr, this`phdrs, this`shdrs, this`replaced, contents
      ensures r.TooLarge? <==> LibraryOffset(old(Snap())) + LibraryNeeded(old(Snap())) > cfg.maxSize
      ensures r.Done? || r.TooLarge? || (r.MissingSection? && Explained(old(Snap()), r))
      ensures r.Done? ==> RewrittenLibrary(old(Snap()), Snap()) && InOrder(phdrs)
    {
      hide UnderWay, Rewritable, RewrittenLibrary, LibraryOffset, LibraryPage, LibraryNeeded, Explained, InOrder;
      ghost var s := Snap();
      RewritableSizes(s);
      var ok, startOffset, startPage, neededSpace := GrowForLibrary();
      if !ok {
        return TooLarge;
      }
      r := FillLibrary(s, startOffset, startPage, neededSpace);
    }

    /** `rewriteSections`. */
    method RewriteSections() returns (r: Ending)
      requires replaced != [] ==> Rewritable(Snap())
      requires replaced != [] && hdr.etype == ET_EXEC ==> NobitsAfterCode(Snap()) && hdr.phoff == cfg.cls.EhdrSize()
      modifies this`fileSize, this`hdr, this`phdrs, this`shdrs, this`replaced, contents
      ensures old(replaced) == [] ==> r.Done? && Snap() == old(Snap())
      ensures r.UnknownType? <==> old(replaced) != [] && old(hdr.etype) != ET_DYN && old(hdr.etype) != ET_EXEC
      ensures r.Done? ==> Preserved(old(Snap()), Snap())
      ensures old(replaced) != [] && r.Done? ==> WellFormed(Snap()) && TablesInFile(Snap())
      ensures old(replaced) != [] && r.Done? && HeadersFit(Snap()) ==> TablesRead(Snap())
      ensures old(replaced) != [] && r.Done? ==> InOrder(phdrs)
    {
      hide ContentsPreserved, ReferencesPreserved, WellFormed, TablesInFile, Rewritable, NobitsAfterCode, SegmentsFollow, MappedBySegment,
           LibraryOffset, LibraryNeeded, LibraryPage, HeadersFit, TablesRead, ExecutableSegments, LibrarySegments,
           InOrder;
      if replaced == [] {
        return Done;
      }
      if hdr.etype == ET_DYN {
        r := RewriteSectionsLibrary();
      } else if hdr.etype == ET_EXEC {
        ghost var rs, shift, room, roomEnd, firstPage, startOffset, startAddr;
        r, rs, shift, room, roomEnd, firstPage, startOffset, startAddr := RewriteSectionsExecutable();
      } else {
        r := UnknownType;
      }
      if r.Done? {
        TablesInFileRead(Snap());
      }
    }
  }
}
