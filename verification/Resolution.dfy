/** Which libraries a run path leads to, before and after it has been shrunk. */
module Resolution {
  import opened Bytes
  import opened Wrappers
  import opened ElfTypes
  import opened Shrinking

  /** A run path split at every colon. */
  function Split(path: seq<byte>): (r: seq<Name>)
    ensures r != []
    decreases |path|
  {
    var k := ColonAt(path);
    if k < |path| then [path[..k]] + Split(path[k + 1..]) else [path]
  }

  /** Directories with a colon between any two. */
  function Rejoined(dirs: seq<Name>): seq<byte>
    requires dirs != []
  {
    if |dirs| == 1 then dirs[0] else dirs[0] + [0x3a] + Rejoined(dirs[1..])
  }

  /** The components are those pieces without a colon that make up the path again. */
  lemma {:induction false} SplitMeaning(path: seq<byte>)
    ensures Rejoined(Split(path)) == path
    ensures forall i :: 0 <= i < |Split(path)| ==> 0x3a !in Split(path)[i]
    decreases |path|
  {
    hide ColonAt;
    var k := ColonAt(path);
    if k < |path| {
      SplitMeaning(path[k + 1..]);
      assert Split(path)[1..] == Split(path[k + 1..]);
      assert path == path[..k] + [0x3a] + path[k + 1..];
    }
  }

  /** The directories in which the dynamic loader searches.  An empty one stands for the working directory; an empty run path is ignored. */
  function SearchList(path: seq<byte>): seq<Name> {
    if path == [] then [] else Split(path)
  }

  predicate EndsInColon(path: seq<byte>) {
    path != [] && path[|path| - 1] == COLON
  }

  // ---------------------------------------------------------------- search lists

  lemma SplitUnfold(path: seq<byte>)
    ensures var k := ColonAt(path);
      Split(path) == if k < |path| then [path[..k]] + Split(path[k + 1..]) else [path]
  {
    hide ColonAt;
  }

  /** An empty component that the loop of `--shrink-rpath` does not see. */
  function Unseen(path: seq<byte>): seq<Name> {
    if EndsInColon(path) then [[]] else []
  }

  /** The loop of `--shrink-rpath` sees all components but an empty one at the end. */
  lemma {:induction false} SplitIsComponents(path: seq<byte>)
    requires path != []
    ensures Split(path) == Components(path) + Unseen(path)
    decreases |path|
  {
    hide ColonAt, Components, Split, Unseen;
    NoComponents();
    ComponentsUnfold(path);
    SplitUnfold(path);
    var k := ColonAt(path);
    if k < |path| {
      var rest := path[k + 1..];
      UnseenBehind(path, k);
      if rest == [] {
        SplitOfNothing();
      } else {
        SplitIsComponents(rest);
        Assoc3([path[..k]], Components(rest), Unseen(rest));
      }
    } else {
      assert path[..k] == path;
      UnseenNot(path);
    }
  }

  lemma SplitOfNothing()
    ensures Split([]) == [[]]
  {
    assert ColonAt([]) == 0;
  }

  lemma UnseenBehind(path: seq<byte>, k: nat)
    requires k < |path| && path[k] == COLON
    ensures var rest := path[k + 1..]; Unseen(path) == if rest == [] then [[]] else Unseen(rest)
  {
  }

  lemma UnseenNot(path: seq<byte>)
    requires path != [] && ColonAt(path) == |path|
    ensures Unseen(path) == []
  {
    assert path[|path| - 1] != COLON;
  }

  lemma {:induction false} SplitOfJoined(dirs: seq<Name>)
    requires Plain(dirs) && dirs != []
    ensures Split(dirs[0] + Tail(dirs[1..])) == dirs
    decreases |dirs|
  {
    hide ColonAt, Tail, NoColon;
    var rest := dirs[1..];
    var s := dirs[0] + Tail(rest);
    TailShape(rest);
    NoColonInside(dirs[0]);
    ColonAtIs(s, |dirs[0]|);
    assert s[..|dirs[0]|] == dirs[0];
    if rest != [] {
      assert forall i :: 0 <= i < |rest| ==> rest[i] == dirs[i + 1];
      SplitOfJoined(rest);
      assert s[|dirs[0]| + 1..] == Tail(rest)[1..] == rest[0] + Tail(rest[1..]);
      assert Split(s) == [dirs[0]] + rest;
    } else {
      assert s == dirs[0];
    }
    assert dirs == [dirs[0]] + rest;
  }

  lemma NoColonInside(dir: Name)
    requires NoColon(dir)
    ensures forall i :: 0 <= i < |dir| ==> dir[i] != COLON
  {
  }

  /** The loader reads the shrunk run path as what was kept, without empty components in front. */
  lemma ShrunkSearchList(path: seq<byte>, needed: seq<Name>, onDisk: Oracle)
    ensures SearchList(Shrunk(path, needed, onDisk)) == Stripped(KeptOf(path, needed, onDisk))
  {
    hide Split, Tail;
    var ks := KeptOf(path, needed, onDisk);
    KeptPlain(path, needed, onDisk);
    JoinedStripped(ks);
    if Stripped(ks) != [] {
      SplitOfJoined(Stripped(ks));
    }
  }

  // ---------------------------------------------------------------- resolution

  /** A search for libraries: what a directory provides.  In absolute directories, that is what exists there. */
  ghost predicate Agrees(offers: (Name, Name) -> bool, onDisk: Oracle) {
    forall dir, lib :: dir != [] && dir[0] == 0x2f ==> (offers(dir, lib) <==> onDisk(dir + [0x2f] + lib))
  }

  lemma AgreesIs(offers: (Name, Name) -> bool, onDisk: Oracle)
    ensures Agrees(offers, onDisk) <==> forall dir, lib :: Absolute(dir) ==> (offers(dir, lib) <==> onDisk(In(dir, lib)))
  {
    if Agrees(offers, onDisk) {
      forall dir: Name, lib: Name | Absolute(dir) ensures offers(dir, lib) <==> onDisk(In(dir, lib)) {
        assert In(dir, lib) == dir + [0x2f] + lib;
      }
    } else {
      var dir: Name, lib: Name :| dir != [] && dir[0] == 0x2f && !(offers(dir, lib) <==> onDisk(dir + [0x2f] + lib));
      assert Absolute(dir) && In(dir, lib) == dir + [0x2f] + lib;
    }
  }

  /** The first of the directories that provides the library. */
  function FirstProvider(dirs: seq<Name>, lib: Name, offers: (Name, Name) -> bool): Option<Name> {
    if dirs == [] then None
    else if offers(dirs[0], lib) then Some(dirs[0])
    else FirstProvider(dirs[1..], lib, offers)
  }

  /** Each library that is still to be found is first found in the same directory, whatever the relative directories provide. */
  lemma {:induction false} KeptResolves(dirs: seq<Name>, needed: seq<Name>, found: seq<bool>, onDisk: Oracle,
                                        offers: (Name, Name) -> bool, j: nat)
    requires |found| == |needed| && j < |needed| && !found[j] && Agrees(offers, onDisk)
    ensures FirstProvider(Kept(dirs, needed, found, onDisk), needed[j], offers) == FirstProvider(dirs, needed[j], offers)
    decreases |dirs|
  {
    hide Agrees;
    AgreesIs(offers, onDisk);
    if dirs != [] {
      var d, rest := dirs[0], dirs[1..];
      var k := Kept(dirs, needed, found, onDisk);
      if !Absolute(d) {
        assert k[1..] == Kept(rest, needed, found, onDisk);
        KeptResolves(rest, needed, found, onDisk, offers, j);
      } else {
        var found' := FoundAfter(d, needed, found, onDisk);
        if offers(d, needed[j]) {
          assert Useful(d, needed, found, onDisk);
          assert k[0] == d;
        } else {
          KeptResolves(rest, needed, found', onDisk, offers, j);
          var r := Kept(rest, needed, found', onDisk);
          assert k == r || (k[0] == d && k[1..] == r);
        }
      }
    }
  }

  lemma {:induction false} ProviderOfBoth(a: seq<Name>, b: seq<Name>, lib: Name, offers: (Name, Name) -> bool)
    ensures FirstProvider(a + b, lib, offers)
         == if FirstProvider(a, lib, offers).Some? then FirstProvider(a, lib, offers) else FirstProvider(b, lib, offers)
  {
    if a == [] {
      assert a + b == b;
    } else {
      assert (a + b)[1..] == a[1..] + b;
      ProviderOfBoth(a[1..], b, lib, offers);
    }
  }

  lemma {:induction false} NoProvider(dirs: seq<Name>, lib: Name, offers: (Name, Name) -> bool)
    ensures FirstProvider(dirs, lib, offers) == None <==> forall d :: d in dirs ==> !offers(d, lib)
  {
    if dirs != [] {
      assert dirs == [dirs[0]] + dirs[1..];
      NoProvider(dirs[1..], lib, offers);
    }
  }

  /** An absolute directory is kept only for a needed library that it has. */
  lemma {:induction false} KeptHasNeeded(dirs: seq<Name>, needed: seq<Name>, found: seq<bool>, onDisk: Oracle, d: Name)
    requires |found| == |needed| && Absolute(d) && d in Kept(dirs, needed, found, onDisk)
    ensures exists j :: 0 <= j < |needed| && onDisk(In(d, needed[j]))
    decreases |dirs|
  {
    hide FoundAfter, Absolute, In;
    if Absolute(dirs[0]) {
      if !(d == dirs[0] && Useful(d, needed, found, onDisk)) {
        KeptHasNeeded(dirs[1..], needed, FoundAfter(dirs[0], needed, found, onDisk), onDisk, d);
      }
    } else {
      KeptHasNeeded(dirs[1..], needed, found, onDisk, d);
    }
  }

  /** Some absolute directory has the library. */
  ghost predicate OnDiskIn(dirs: seq<Name>, lib: Name, onDisk: Oracle) {
    exists d :: d in dirs && Absolute(d) && onDisk(In(d, lib))
  }

  /** Every needed library is found in the same directory with both run paths, whatever the relative directories have. */
  ghost predicate SameResolution(path: seq<byte>, path': seq<byte>, needed: seq<Name>, onDisk: Oracle) {
    forall offers: (Name, Name) -> bool, lib :: lib in needed && Agrees(offers, onDisk) ==>
      FirstProvider(SearchList(path'), lib, offers) == FirstProvider(SearchList(path), lib, offers)
  }

  /**
   The working directory, as an empty component, is not lost where it matters: what is kept does not begin with it, and
   if the run path ends with it, it occurs before as well, or is never searched.
   */
  ghost predicate WorkingDirectorySafe(path: seq<byte>, needed: seq<Name>, onDisk: Oracle) {
    var ks := KeptOf(path, needed, onDisk);
    && (ks == [] || ks[0] != [])
    && (EndsInColon(path) ==> [] in Components(path) || forall lib :: lib in needed ==> OnDiskIn(Components(path), lib, onDisk))
  }

  lemma Resolves(path: seq<byte>, needed: seq<Name>, onDisk: Oracle, offers: (Name, Name) -> bool, lib: Name)
    requires path == [] || WorkingDirectorySafe(path, needed, onDisk)
    requires lib in needed && Agrees(offers, onDisk)
    ensures FirstProvider(SearchList(Shrunk(path, needed, onDisk)), lib, offers) == FirstProvider(SearchList(path), lib, offers)
  {
    hide Kept, Components, Split, Agrees, OnDiskIn, FirstProvider;
    var dirs := Components(path);
    var j :| 0 <= j < |needed| && needed[j] == lib;
    KeptResolves(dirs, needed, NothingFound(|needed|), onDisk, offers, j);
    ShrunkSearchList(path, needed, onDisk);
    if path == [] {
      NothingShrunk(needed, onDisk);
    } else {
      StrippedAlready(KeptOf(path, needed, onDisk));
      SplitIsComponents(path);
      if EndsInColon(path) {
        ProviderOfBoth(dirs, [[]], lib, offers);
        if OnDiskIn(dirs, lib, onDisk) {
          OnDiskProvides(dirs, lib, onDisk, offers);
        } else {
          WorkingDirectoryInside(dirs, lib, offers);
        }
      } else {
        assert dirs + [] == dirs;
      }
    }
  }

  lemma OnDiskProvides(dirs: seq<Name>, lib: Name, onDisk: Oracle, offers: (Name, Name) -> bool)
    requires Agrees(offers, onDisk) && OnDiskIn(dirs, lib, onDisk)
    ensures FirstProvider(dirs, lib, offers).Some?
  {
    hide Agrees, Absolute, In;
    AgreesIs(offers, onDisk);
    NoProvider(dirs, lib, offers);
  }

  /** A directory searched before may as well be searched again. */
  lemma WorkingDirectoryInside(dirs: seq<Name>, lib: Name, offers: (Name, Name) -> bool)
    requires [] in dirs
    ensures FirstProvider(dirs, lib, offers) == None ==> FirstProvider([[]], lib, offers) == None
  {
    NoProvider(dirs, lib, offers);
  }

  lemma NothingShrunk(needed: seq<Name>, onDisk: Oracle)
    ensures Shrunk([], needed, onDisk) == []
  {
    NoComponents();
  }

  /** If what is kept begins with an empty component, a library that is found there is now found elsewhere or not at all. */
  lemma FrontLost(path: seq<byte>, needed: seq<Name>, onDisk: Oracle) returns (offers: (Name, Name) -> bool, lib: Name)
    requires needed != [] && path != [] && KeptOf(path, needed, onDisk) != [] && KeptOf(path, needed, onDisk)[0] == []
    ensures lib in needed && Agrees(offers, onDisk)
    ensures FirstProvider(SearchList(Shrunk(path, needed, onDisk)), lib, offers) != FirstProvider(SearchList(path), lib, offers)
  {
    hide Kept, KeptOf, Components, In, Split, NothingFound, Stripped, Shrunk, Absolute, FirstProvider, Agrees;
    var dirs, ks := Components(path), KeptOf(path, needed, onDisk);
    var found, s := NothingFound(|needed|), Stripped(ks);
    assert ks == Kept(dirs, needed, found, onDisk) by {
      KeptOfIs(path, needed, onDisk);
    }
    offers := (d: Name, l: Name) => if Absolute(d) then onDisk(In(d, l)) else true;
    AgreesIs(offers, onDisk);
    var j := 0;
    if s != [] && Absolute(s[0]) {
      assert s[0] in ks;
      KeptHasNeeded(dirs, needed, found, onDisk, s[0]);
      j :| 0 <= j < |needed| && onDisk(In(s[0], needed[j]));
    }
    lib := needed[j];
    KeptResolves(dirs, needed, found, onDisk, offers, j);
    ShrunkSearchList(path, needed, onDisk);
    SplitIsComponents(path);
    ProviderOfBoth(dirs, Unseen(path), lib, offers);
    NothingAbsolute();
    FirstProvides(ks, lib, offers);
    if s != [] {
      FirstProvides(s, lib, offers);
    } else {
      NoProvider(s, lib, offers);
    }
  }

  lemma KeptOfIs(path: seq<byte>, needed: seq<Name>, onDisk: Oracle)
    ensures KeptOf(path, needed, onDisk) == Kept(Components(path), needed, NothingFound(|needed|), onDisk)
  {
  }

  lemma NothingAbsolute()
    ensures !Absolute([])
  {
  }

  lemma FirstProvides(dirs: seq<Name>, lib: Name, offers: (Name, Name) -> bool)
    requires dirs != [] && offers(dirs[0], lib)
    ensures FirstProvider(dirs, lib, offers) == Some(dirs[0])
  {
  }

  /** If the only empty component is at the end, a library that is found only there is lost. */
  lemma EndLost(path: seq<byte>, needed: seq<Name>, onDisk: Oracle, lib: Name) returns (offers: (Name, Name) -> bool)
    requires EndsInColon(path) && [] !in Components(path) && lib in needed && !OnDiskIn(Components(path), lib, onDisk)
    ensures Agrees(offers, onDisk)
    ensures FirstProvider(SearchList(Shrunk(path, needed, onDisk)), lib, offers) != FirstProvider(SearchList(path), lib, offers)
  {
    hide Kept, Components, In, Split, Agrees;
    var dirs, ks := Components(path), KeptOf(path, needed, onDisk);
    offers := (d: Name, l: Name) => if Absolute(d) then onDisk(In(d, l)) else d == [];
    AgreesIs(offers, onDisk);
    KeptAmong(dirs, needed, NothingFound(|needed|), onDisk);
    ShrunkSearchList(path, needed, onDisk);
    SplitIsComponents(path);
    NoProvider(dirs, lib, offers);
    NoProvider(Stripped(ks), lib, offers);
    ProviderOfBoth(dirs, [[]], lib, offers);
  }

  /** Shrinking keeps the resolution of all needed libraries exactly when the working directory is not lost where it matters. */
  lemma ShrinkingResolves(path: seq<byte>, needed: seq<Name>, onDisk: Oracle)
    ensures SameResolution(path, Shrunk(path, needed, onDisk), needed, onDisk)
       <==> needed == [] || path == [] || WorkingDirectorySafe(path, needed, onDisk)
  {
    hide Shrunk, SearchList, FirstProvider, Agrees, KeptOf, Components, EndsInColon;
    if path == [] || WorkingDirectorySafe(path, needed, onDisk) {
      forall offers: (Name, Name) -> bool, lib | lib in needed && Agrees(offers, onDisk)
        ensures FirstProvider(SearchList(Shrunk(path, needed, onDisk)), lib, offers) == FirstProvider(SearchList(path), lib, offers)
      {
        Resolves(path, needed, onDisk, offers, lib);
      }
    } else if needed != [] {
      var ks := KeptOf(path, needed, onDisk);
      if ks != [] && ks[0] == [] {
        var offers, lib := FrontLost(path, needed, onDisk);
      } else {
        var lib :| lib in needed && !OnDiskIn(Components(path), lib, onDisk);
        var offers := EndLost(path, needed, onDisk, lib);
      }
    }
  }

  /** A disk without files. */
  predicate NoFile(n: Name) {
    false
  }

  /** ":a" loses its first component, the working directory. */
  lemma LeadingEmptyIsLost()
    ensures !SameResolution([COLON, 0x61], Shrunk([COLON, 0x61], [[0x62]], NoFile), [[0x62]], NoFile)
  {
    hide SameResolution, Shrunk, FoundAfter;
    var path: seq<byte> := [COLON, 0x61];
    assert ColonAt(path) == 0;
    assert path[..0] == [];
    assert Components(path)[0] == [];
    ShrinkingResolves(path, [[0x62]], NoFile);
  }

  /** "/x:" loses its last component, the working directory, if the library is not in `/x`; the loop does not even see it. */
  lemma TrailingEmptyIsLost()
    ensures !SameResolution([SLASH, 0x78, COLON], Shrunk([SLASH, 0x78, COLON], [[0x62]], NoFile), [[0x62]], NoFile)
  {
    hide SameResolution, Shrunk, Kept, ColonAt;
    var path: seq<byte> := [SLASH, 0x78, COLON];
    ColonAtIs(path, 2);
    assert path[3..] == [];
    assert Components(path) == [path[..2]];
    assert [0x62] in [[0x62]] && !OnDiskIn(Components(path), [0x62], NoFile);
    ShrinkingResolves(path, [[0x62]], NoFile);
  }
}
