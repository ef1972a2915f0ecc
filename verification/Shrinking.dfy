/** Shrinking the run path to the directories in which needed libraries are found. */
module Shrinking {
  import opened Bytes
  import opened ElfTypes
  import opened Dynamic

  const COLON: byte := 0x3a
  const SLASH: byte := 0x2f

  /** Whether a file exists. */
  type Oracle = Name -> bool

  /** The position of the first colon, or the length. */
  function ColonAt(path: seq<byte>): (k: nat)
    ensures k <= |path| && (k < |path| ==> path[k] == COLON)
    ensures forall i :: 0 <= i < k ==> path[i] != COLON
  {
    if path == [] then 0
    else if path[0] == COLON then 0
    else
      var k := ColonAt(path[1..]);
      assert forall i :: 1 <= i < k + 1 ==> path[i] == path[1..][i - 1];
      k + 1
  }

  /** What is left behind the first component and its colon. */
  function Behind(path: seq<byte>): (r: seq<byte>)
    ensures path != [] ==> |r| < |path|
  {
    var k := ColonAt(path);
    if k < |path| then path[k + 1..] else []
  }

  /** The components of a run path, as the loop comes upon them: one behind a last colon is not seen. */
  function Components(path: seq<byte>): seq<Name>
    decreases |path|
  {
    if path == [] then [] else [path[..ColonAt(path)]] + Components(Behind(path))
  }

  /** `concatToRPath`. */
  function Concat(path: seq<byte>, dir: Name): seq<byte> {
    if path == [] then dir else path + [COLON] + dir
  }

  function JoinedOnto(path: seq<byte>, dirs: seq<Name>): seq<byte>
    decreases |dirs|
  {
    if dirs == [] then path else JoinedOnto(Concat(path, dirs[0]), dirs[1..])
  }

  predicate Absolute(dir: Name) {
    dir != [] && dir[0] == SLASH
  }

  /** The name of a library in a directory. */
  function In(dir: Name, lib: Name): Name {
    dir + [SLASH] + lib
  }

  /** The libraries that have been found once `dir` has been searched as well. */
  function FoundAfter(dir: Name, needed: seq<Name>, found: seq<bool>, onDisk: Oracle): (r: seq<bool>)
    requires |found| == |needed|
    ensures |r| == |needed|
    ensures forall j :: 0 <= j < |needed| ==> (r[j] <==> found[j] || onDisk(In(dir, needed[j])))
  {
    if needed == [] then []
    else
      var n := |needed| - 1;
      FoundAfter(dir, needed[..n], found[..n], onDisk) + [found[n] || onDisk(In(dir, needed[n]))]
  }

  /** The directory has a needed library that has not been found before. */
  predicate Useful(dir: Name, needed: seq<Name>, found: seq<bool>, onDisk: Oracle)
    requires |found| == |needed|
  {
    exists j :: 0 <= j < |needed| && !found[j] && onDisk(In(dir, needed[j]))
  }

  /** The components that are kept. */
  function Kept(dirs: seq<Name>, needed: seq<Name>, found: seq<bool>, onDisk: Oracle): seq<Name>
    requires |found| == |needed|
    decreases |dirs|
  {
    if dirs == [] then []
    else if !Absolute(dirs[0]) then [dirs[0]] + Kept(dirs[1..], needed, found, onDisk)
    else
      (if Useful(dirs[0], needed, found, onDisk) then [dirs[0]] else [])
      + Kept(dirs[1..], needed, FoundAfter(dirs[0], needed, found, onDisk), onDisk)
  }

  function NothingFound(n: nat): (r: seq<bool>)
    ensures |r| == n && forall j :: 0 <= j < n ==> !r[j]
  {
    if n == 0 then [] else NothingFound(n - 1) + [false]
  }

  /** The components kept of a whole run path. */
  function KeptOf(path: seq<byte>, needed: seq<Name>, onDisk: Oracle): seq<Name> {
    Kept(Components(path), needed, NothingFound(|needed|), onDisk)
  }

  /** `--shrink-rpath`. */
  function Shrunk(path: seq<byte>, needed: seq<Name>, onDisk: Oracle): seq<byte> {
    JoinedOnto([], KeptOf(path, needed, onDisk))
  }

  // ---------------------------------------------------------------- exactly which directories are kept

  /** The component at `i` is relative, or the first absolute directory with some library that was not found before. */
  ghost predicate Deserves(dirs: seq<Name>, needed: seq<Name>, found: seq<bool>, onDisk: Oracle, i: nat)
    requires i < |dirs| && |found| == |needed|
  {
    dirs[i] == [] || dirs[i][0] != 0x2f
    || exists j :: 0 <= j < |needed| && !found[j] && onDisk(dirs[i] + [0x2f] + needed[j])
                   && forall k :: 0 <= k < i && dirs[k] != [] && dirs[k][0] == 0x2f ==> !onDisk(dirs[k] + [0x2f] + needed[j])
  }

  /** The deserving ones among the first `n` components, in order. */
  ghost function Deserving(dirs: seq<Name>, needed: seq<Name>, found: seq<bool>, onDisk: Oracle, n: nat): seq<Name>
    requires n <= |dirs| && |found| == |needed|
  {
    if n == 0 then []
    else Deserving(dirs, needed, found, onDisk, n - 1) + (if Deserves(dirs, needed, found, onDisk, n - 1) then [dirs[n - 1]] else [])
  }

  /** The libraries found in the first `n` components. */
  function FoundUpTo(dirs: seq<Name>, needed: seq<Name>, found: seq<bool>, onDisk: Oracle, n: nat): (r: seq<bool>)
    requires n <= |dirs| && |found| == |needed|
    ensures |r| == |needed|
  {
    if n == 0 then found
    else
      var f := FoundUpTo(dirs, needed, found, onDisk, n - 1);
      if Absolute(dirs[n - 1]) then FoundAfter(dirs[n - 1], needed, f, onDisk) else f
  }

  lemma {:induction false} FoundMeans(dirs: seq<Name>, needed: seq<Name>, found: seq<bool>, onDisk: Oracle, n: nat, j: nat)
    requires n <= |dirs| && |found| == |needed| && j < |needed|
    ensures FoundUpTo(dirs, needed, found, onDisk, n)[j]
            <==> found[j] || exists k :: 0 <= k < n && Absolute(dirs[k]) && onDisk(In(dirs[k], needed[j]))
  {
    if n > 0 {
      FoundMeans(dirs, needed, found, onDisk, n - 1, j);
    }
  }

  /** Kept from the back: the last component is added or not. */
  lemma {:induction false} KeptStep(dirs: seq<Name>, needed: seq<Name>, found: seq<bool>, onDisk: Oracle, n: nat)
    requires n < |dirs| && |found| == |needed|
    ensures Kept(dirs[..n + 1], needed, found, onDisk)
         == Kept(dirs[..n], needed, found, onDisk)
            + (if !Absolute(dirs[n]) || Useful(dirs[n], needed, FoundUpTo(dirs, needed, found, onDisk, n), onDisk) then [dirs[n]] else [])
    decreases n
  {
    hide Useful, FoundAfter;
    var d := dirs[0];
    if n == 0 {
      assert dirs[..1][1..] == [] && dirs[..0] == [];
      assert [d] + [] == [d];
    } else {
      var f := if Absolute(d) then FoundAfter(d, needed, found, onDisk) else found;
      assert dirs[..n + 1][1..] == dirs[1..][..n] && dirs[..n][1..] == dirs[1..][..n - 1];
      KeptStep(dirs[1..], needed, f, onDisk, n - 1);
      FoundShift(dirs, needed, found, onDisk, n);
      var h := if !Absolute(d) || Useful(d, needed, found, onDisk) then [d] else [];
      var t := Kept(dirs[1..][..n - 1], needed, f, onDisk);
      var x := if !Absolute(dirs[n]) || Useful(dirs[n], needed, FoundUpTo(dirs, needed, found, onDisk, n), onDisk) then [dirs[n]] else [];
      assert h + (t + x) == (h + t) + x;
    }
  }

  lemma {:induction false} FoundShift(dirs: seq<Name>, needed: seq<Name>, found: seq<bool>, onDisk: Oracle, n: nat)
    requires 1 <= n <= |dirs| && |found| == |needed|
    ensures FoundUpTo(dirs, needed, found, onDisk, n)
         == FoundUpTo(dirs[1..], needed, if Absolute(dirs[0]) then FoundAfter(dirs[0], needed, found, onDisk) else found, onDisk, n - 1)
  {
    hide FoundAfter;
    if n > 1 {
      FoundShift(dirs, needed, found, onDisk, n - 1);
    }
  }

  lemma {:induction false} KeptIsDeserving(dirs: seq<Name>, needed: seq<Name>, found: seq<bool>, onDisk: Oracle, n: nat)
    requires n <= |dirs| && |found| == |needed|
    ensures Kept(dirs[..n], needed, found, onDisk) == Deserving(dirs, needed, found, onDisk, n)
  {
    if n == 0 {
      assert dirs[..0] == [];
    } else {
      hide Kept, Useful, Deserves, Deserving, FoundUpTo, Absolute;
      var m := n - 1;
      KeptIsDeserving(dirs, needed, found, onDisk, m);
      KeptStep(dirs, needed, found, onDisk, m);
      UsefulIsDeserving(dirs, needed, found, onDisk, m);
      DeservingStep(dirs, needed, found, onDisk, m);
    }
  }

  lemma DeservingStep(dirs: seq<Name>, needed: seq<Name>, found: seq<bool>, onDisk: Oracle, n: nat)
    requires n < |dirs| && |found| == |needed|
    ensures Deserving(dirs, needed, found, onDisk, n + 1)
         == Deserving(dirs, needed, found, onDisk, n) + (if Deserves(dirs, needed, found, onDisk, n) then [dirs[n]] else [])
  {
    hide Deserves;
  }

  lemma UsefulIsDeserving(dirs: seq<Name>, needed: seq<Name>, found: seq<bool>, onDisk: Oracle, i: nat)
    requires i < |dirs| && |found| == |needed|
    ensures !Absolute(dirs[i]) || Useful(dirs[i], needed, FoundUpTo(dirs, needed, found, onDisk, i), onDisk)
            <==> Deserves(dirs, needed, found, onDisk, i)
  {
    hide FoundUpTo;
    forall j | 0 <= j < |needed|
      ensures FoundUpTo(dirs, needed, found, onDisk, i)[j]
              <==> found[j] || exists k :: 0 <= k < i && Absolute(dirs[k]) && onDisk(In(dirs[k], needed[j]))
    {
      FoundMeans(dirs, needed, found, onDisk, i, j);
    }
  }

  /** Kept are, in order, exactly the relative directories and the first absolute provider of each needed library. */
  lemma KeptExactly(path: seq<byte>, needed: seq<Name>, onDisk: Oracle)
    ensures KeptOf(path, needed, onDisk)
         == Deserving(Components(path), needed, NothingFound(|needed|), onDisk, |Components(path)|)
  {
    var dirs := Components(path);
    KeptIsDeserving(dirs, needed, NothingFound(|needed|), onDisk, |dirs|);
    assert dirs[..|dirs|] == dirs;
  }

  // ---------------------------------------------------------------- shrinking twice

  /** What has been kept is kept again. */
  lemma {:induction false} KeptTwice(dirs: seq<Name>, needed: seq<Name>, found: seq<bool>, onDisk: Oracle)
    requires |found| == |needed|
    ensures Kept(Kept(dirs, needed, found, onDisk), needed, found, onDisk) == Kept(dirs, needed, found, onDisk)
    decreases |dirs|
  {
    if dirs != [] {
      var d, rest := dirs[0], dirs[1..];
      var k := Kept(dirs, needed, found, onDisk);
      if !Absolute(d) {
        KeptTwice(rest, needed, found, onDisk);
        assert k[1..] == Kept(rest, needed, found, onDisk);
      } else {
        var found' := FoundAfter(d, needed, found, onDisk);
        KeptTwice(rest, needed, found', onDisk);
        if Useful(d, needed, found, onDisk) {
          assert k[1..] == Kept(rest, needed, found', onDisk);
        } else {
          assert found' == found;
          assert k == Kept(rest, needed, found, onDisk);
        }
      }
    }
  }

  predicate NoColon(dir: Name) {
    COLON !in dir
  }

  predicate Plain(dirs: seq<Name>) {
    forall i :: 0 <= i < |dirs| ==> NoColon(dirs[i])
  }

  /** Components behind a first one, each with its colon. */
  function Tail(dirs: seq<Name>): seq<byte> {
    if dirs == [] then [] else [COLON] + dirs[0] + Tail(dirs[1..])
  }

  lemma {:induction false} JoinedOntoSome(path: seq<byte>, dirs: seq<Name>)
    requires path != []
    ensures JoinedOnto(path, dirs) == path + Tail(dirs)
    decreases |dirs|
  {
    if dirs == [] {
      assert path + [] == path;
    } else {
      JoinedOntoSome(Concat(path, dirs[0]), dirs[1..]);
      assert (path + [COLON] + dirs[0]) + Tail(dirs[1..]) == path + ([COLON] + dirs[0] + Tail(dirs[1..]));
    }
  }

  /** Without leading empty components, which do not show in the result. */
  function Stripped(dirs: seq<Name>): (r: seq<Name>)
    ensures r == [] || r[0] != []
    ensures |r| <= |dirs| && r == dirs[|dirs| - |r|..]
    ensures forall i :: 0 <= i < |dirs| - |r| ==> dirs[i] == []
  {
    if dirs == [] || dirs[0] != [] then dirs
    else
      var r := Stripped(dirs[1..]);
      assert forall i :: 1 <= i < |dirs| - |r| ==> dirs[i] == dirs[1..][i - 1];
      r
  }

  lemma {:induction false} JoinedStripped(dirs: seq<Name>)
    ensures JoinedOnto([], dirs) == if Stripped(dirs) == [] then [] else Stripped(dirs)[0] + Tail(Stripped(dirs)[1..])
    decreases |dirs|
  {
    if dirs != [] {
      if dirs[0] == [] {
        JoinedStripped(dirs[1..]);
      } else {
        JoinedOntoSome(dirs[0], dirs[1..]);
      }
    }
  }

  lemma ColonAtIs(s: seq<byte>, k: nat)
    requires k <= |s| && (k < |s| ==> s[k] == COLON) && forall i :: 0 <= i < k ==> s[i] != COLON
    ensures ColonAt(s) == k
  {
  }

  /** The first component of a path that is put together from it and a rest. */
  lemma FirstComponent(dir: Name, rest: seq<byte>)
    requires NoColon(dir) && (rest == [] || rest[0] == COLON) && dir + rest != []
    ensures Components(dir + rest) == [dir] + (if rest == [] then [] else Components(rest[1..]))
  {
    hide ColonAt, Components;
    var s := dir + rest;
    ColonAtIs(s, |dir|);
    ComponentsUnfold(s);
    NoComponents();
    assert s[..|dir|] == dir;
    if rest != [] {
      assert s[|dir| + 1..] == rest[1..];
    }
  }

  lemma TailShape(dirs: seq<Name>)
    ensures dirs == [] <==> Tail(dirs) == []
    ensures dirs != [] ==> Tail(dirs)[0] == COLON && Tail(dirs)[1..] == dirs[0] + Tail(dirs[1..])
  {
    if dirs != [] {
      assert Tail(dirs) == [COLON] + (dirs[0] + Tail(dirs[1..]));
    }
  }

  /** Reading back what was joined, if the last component is not empty. */
  lemma {:induction false} ComponentsOfJoined(dirs: seq<Name>)
    requires Plain(dirs) && dirs != [] && dirs[|dirs| - 1] != []
    ensures dirs[0] + Tail(dirs[1..]) != []
    ensures Components(dirs[0] + Tail(dirs[1..])) == dirs
    decreases |dirs|
  {
    hide Components, Tail, NoColon;
    var rest := dirs[1..];
    TailShape(rest);
    if rest != [] {
      assert Tail(rest) != [];
      assert forall i :: 0 <= i < |rest| ==> rest[i] == dirs[i + 1];
      ComponentsOfJoined(rest);
    }
    FirstComponent(dirs[0], Tail(rest));
    assert dirs == [dirs[0]] + rest;
  }

  lemma NoComponents()
    ensures Components([]) == []
  {
  }

  /** An empty last component is lost. */
  lemma {:induction false} LastEmptyLost(dirs: seq<Name>)
    requires Plain(dirs) && dirs != [] && dirs[|dirs| - 1] == []
    ensures Components(dirs[0] + Tail(dirs[1..])) == dirs[..|dirs| - 1]
    decreases |dirs|
  {
    hide Components, Tail, NoColon;
    var rest := dirs[1..];
    TailShape(rest);
    if rest == [] {
      assert dirs[0] + Tail(rest) == [];
      NoComponents();
      assert dirs[..|dirs| - 1] == [];
    } else {
      assert forall i :: 0 <= i < |rest| ==> rest[i] == dirs[i + 1];
      LastEmptyLost(rest);
      FirstComponent(dirs[0], Tail(rest));
      assert dirs[..|dirs| - 1] == [dirs[0]] + rest[..|rest| - 1];
    }
  }

  lemma {:induction false} ComponentsPlain(path: seq<byte>)
    ensures Plain(Components(path))
    decreases |path|
  {
    if path != [] {
      ComponentsPlain(Behind(path));
    }
  }

  lemma {:induction false} KeptAmong(dirs: seq<Name>, needed: seq<Name>, found: seq<bool>, onDisk: Oracle)
    requires |found| == |needed|
    ensures forall i :: 0 <= i < |Kept(dirs, needed, found, onDisk)| ==> Kept(dirs, needed, found, onDisk)[i] in dirs
    decreases |dirs|
  {
    if dirs != [] {
      KeptAmong(dirs[1..], needed, found, onDisk);
      KeptAmong(dirs[1..], needed, FoundAfter(dirs[0], needed, found, onDisk), onDisk);
    }
  }

  lemma KeptPlain(path: seq<byte>, needed: seq<Name>, onDisk: Oracle)
    ensures Plain(KeptOf(path, needed, onDisk))
  {
    ComponentsPlain(path);
    KeptAmong(Components(path), needed, NothingFound(|needed|), onDisk);
  }

  /** The components of the new run path are those kept, exactly when the first and the last of these are not empty. */
  lemma ShrunkComponents(path: seq<byte>, needed: seq<Name>, onDisk: Oracle)
    ensures var ks := KeptOf(path, needed, onDisk);
      Components(Shrunk(path, needed, onDisk)) == ks <==> ks == [] || (ks[0] != [] && ks[|ks| - 1] != [])
  {
    var ks := KeptOf(path, needed, onDisk);
    KeptPlain(path, needed, onDisk);
    JoinedStripped(ks);
    var s := Stripped(ks);
    if s != [] {
      assert Plain(s);
      if s[|s| - 1] == [] {
        LastEmptyLost(s);
      } else {
        ComponentsOfJoined(s);
      }
    }
  }

  lemma {:induction false} KeptOfStripped(dirs: seq<Name>, needed: seq<Name>, found: seq<bool>, onDisk: Oracle)
    requires |found| == |needed| && Kept(dirs, needed, found, onDisk) == dirs
    ensures Kept(Stripped(dirs), needed, found, onDisk) == Stripped(dirs)
    decreases |dirs|
  {
    if dirs != [] && dirs[0] == [] {
      assert Kept(dirs, needed, found, onDisk)[1..] == Kept(dirs[1..], needed, found, onDisk);
      KeptOfStripped(dirs[1..], needed, found, onDisk);
    }
  }

  /** Shrinking twice is shrinking once, exactly when the last component kept is not empty, or all are. */
  lemma ShrinkTwice(path: seq<byte>, needed: seq<Name>, onDisk: Oracle)
    ensures var ks := KeptOf(path, needed, onDisk);
      Shrunk(Shrunk(path, needed, onDisk), needed, onDisk) == Shrunk(path, needed, onDisk)
      <==> ks == [] || ks[|ks| - 1] != [] || (forall i :: 0 <= i < |ks| ==> ks[i] == [])
  {
    var found := NothingFound(|needed|);
    var ks := KeptOf(path, needed, onDisk);
    var p := Shrunk(path, needed, onDisk);
    KeptPlain(path, needed, onDisk);
    KeptTwice(Components(path), needed, found, onDisk);
    KeptOfStripped(ks, needed, found, onDisk);
    JoinedStripped(ks);
    var s := Stripped(ks);
    if s == [] {
      assert Components(p) == [];
    } else {
      assert s[0] == ks[|ks| - |s|] && s[|s| - 1] == ks[|ks| - 1] && Plain(s);
      if s[|s| - 1] != [] {
        ComponentsOfJoined(s);
        JoinedStripped(s);
      } else {
        LastEmptyLost(s);
        ShorterWithoutLast(s, needed, found, onDisk);
      }
    }
  }

  /** If what is kept ends with an empty component, the next time it is lost. */
  lemma ShorterWithoutLast(s: seq<Name>, needed: seq<Name>, found: seq<bool>, onDisk: Oracle)
    requires |found| == |needed| && s != [] && s[0] != [] && s[|s| - 1] == [] && Kept(s, needed, found, onDisk) == s
    ensures JoinedOnto([], Kept(s[..|s| - 1], needed, found, onDisk)) != s[0] + Tail(s[1..])
  {
    FrontIsKept(s, needed, found, onDisk, |s| - 1);
    FrontIsShorter(s);
  }

  lemma FrontIsKept(s: seq<Name>, needed: seq<Name>, found: seq<bool>, onDisk: Oracle, n: nat)
    requires |found| == |needed| && |s| == n + 1 && !Absolute(s[n]) && Kept(s, needed, found, onDisk) == s
    ensures Kept(s[..n], needed, found, onDisk) == s[..n]
  {
    hide Kept, Useful, FoundUpTo, Absolute;
    KeptStep(s, needed, found, onDisk, n);
    WholeSeq(s, n + 1);
    WithoutLast(s, Kept(s[..n], needed, found, onDisk), n);
  }

  lemma WholeSeq(s: seq<Name>, n: nat)
    requires n == |s|
    ensures s[..n] == s
  {
  }

  lemma FrontIsShorter(s: seq<Name>)
    requires s != [] && s[0] != [] && s[|s| - 1] == []
    ensures JoinedOnto([], s[..|s| - 1]) != s[0] + Tail(s[1..])
  {
    hide Stripped, Tail, JoinedOnto;
    var front := s[..|s| - 1];
    JoinedStripped(front);
    StrippedAlready(front);
    TailOfLast(s[1..]);
    MiddleOf(s);
    assert |Tail(front[1..])| < |Tail(s[1..])|;
  }

  lemma MiddleOf(s: seq<Name>)
    requires |s| >= 2
    ensures s[1..][..|s| - 2] == s[..|s| - 1][1..]
  {
  }

  lemma WithoutLast(s: seq<Name>, t: seq<Name>, n: nat)
    requires |s| == n + 1 && s == t + [s[n]]
    ensures t == s[..n]
  {
  }

  lemma StrippedAlready(dirs: seq<Name>)
    requires dirs == [] || dirs[0] != []
    ensures Stripped(dirs) == dirs
  {
  }

  lemma {:induction false} TailOfLast(dirs: seq<Name>)
    requires dirs != [] && dirs[|dirs| - 1] == []
    ensures |Tail(dirs)| == |Tail(dirs[..|dirs| - 1])| + 1
    decreases |dirs|
  {
    if |dirs| > 1 {
      TailOfLast(dirs[1..]);
      assert dirs[1..][..|dirs| - 2] == dirs[..|dirs| - 1][1..];
    }
  }

  // ---------------------------------------------------------------- the loop

  lemma BehindIs(path: seq<byte>, pos: nat, end: nat)
    requires pos <= end <= |path| && pos < |path|
    requires (forall i :: pos <= i < end ==> path[i] != COLON) && (end < |path| ==> path[end] == COLON)
    ensures Components(path[pos..]) == [path[pos..end]] + Components(path[if end < |path| then end + 1 else end..])
  {
    hide Components, ColonAt;
    var rest, k := path[pos..], end - pos;
    ColonAtIs(rest, k);
    ComponentsUnfold(rest);
    SubOfRest(path, pos, end);
    if end < |path| {
      SubOfRest(path, pos, end + 1);
      assert rest[k + 1..] == path[end + 1..];
      assert Components(rest) == [rest[..k]] + Components(rest[k + 1..]);
    } else {
      assert path[end..] == [];
      assert Components(rest) == [rest[..k]] + Components([]);
    }
  }

  lemma ComponentsUnfold(path: seq<byte>)
    requires path != []
    ensures var k := ColonAt(path);
      Components(path) == [path[..k]] + Components(if k < |path| then path[k + 1..] else [])
  {
  }

  lemma SubOfRest(path: seq<byte>, pos: nat, end: nat)
    requires pos <= end <= |path|
    ensures path[pos..][..end - pos] == path[pos..end] && path[pos..][end - pos..] == path[end..]
  {
  }

  /** Looks for the libraries not found yet. */
  method Search(dir: Name, needed: seq<Name>, found0: seq<bool>, onDisk: Oracle) returns (found: seq<bool>, useful: bool)
    requires |found0| == |needed|
    ensures found == FoundAfter(dir, needed, found0, onDisk)
    ensures useful <==> Useful(dir, needed, found0, onDisk)
  {
    found, useful := found0, false;
    for j := 0 to |needed|
      invariant |found| == |needed|
      invariant forall k :: 0 <= k < j ==> (found[k] <==> found0[k] || onDisk(In(dir, needed[k])))
      invariant forall k :: j <= k < |needed| ==> found[k] == found0[k]
      invariant useful <==> exists k :: 0 <= k < j && !found0[k] && onDisk(In(dir, needed[k]))
    {
      if !found[j] {
        if onDisk(In(dir, needed[j])) {
          found := found[j := true];
          useful := true;
        }
      }
    }
    var r := FoundAfter(dir, needed, found0, onDisk);
    assert forall k :: 0 <= k < |needed| ==> found[k] == r[k];
  }

  /** The new run path. */
  method Shrink(path: seq<byte>, needed: seq<Name>, onDisk: Oracle) returns (r: seq<byte>)
    ensures r == Shrunk(path, needed, onDisk)
  {
    hide Components, FoundAfter, Useful, Concat, Absolute;
    r := [];
    var found := NothingFound(|needed|);
    var pos := 0;
    assert path[0..] == path;
    while pos < |path|
      invariant pos <= |path| && |found| == |needed|
      invariant JoinedOnto(r, Kept(Components(path[pos..]), needed, found, onDisk)) == Shrunk(path, needed, onDisk)
    {
      var end := pos;
      while end < |path| && path[end] != COLON
        invariant pos <= end <= |path| && forall i :: pos <= i < end ==> path[i] != COLON
      {
        end := end + 1;
      }
      var dirName := path[pos..end];
      BehindIs(path, pos, end);
      ghost var before := path[pos..];
      if end < |path| {
        end := end + 1;
      }
      pos := end;
      OneKept(r, Components(before), dirName, Components(path[pos..]), needed, found, onDisk);
      if !Absolute(dirName) {
        r := Concat(r, dirName);
      } else {
        var libFound;
        found, libFound := Search(dirName, needed, found, onDisk);
        if libFound {
          r := Concat(r, dirName);
        }
      }
    }
    assert path[pos..] == [];
    NoComponents();
  }

  /** One component more. */
  lemma OneKept(r: seq<byte>, all: seq<Name>, dir: Name, rest: seq<Name>, needed: seq<Name>, found: seq<bool>, onDisk: Oracle)
    requires all == [dir] + rest && |found| == |needed|
    ensures JoinedOnto(r, Kept(all, needed, found, onDisk))
         == if !Absolute(dir) then JoinedOnto(Concat(r, dir), Kept(rest, needed, found, onDisk))
            else JoinedOnto(if Useful(dir, needed, found, onDisk) then Concat(r, dir) else r,
                            Kept(rest, needed, FoundAfter(dir, needed, found, onDisk), onDisk))
  {
    hide Useful, FoundAfter, Absolute;
    assert all[1..] == rest;
    var k := Kept(rest, needed, FoundAfter(dir, needed, found, onDisk), onDisk);
    assert ([dir] + k)[1..] == k && [] + k == k;
    var k1 := Kept(rest, needed, found, onDisk);
    assert ([dir] + k1)[1..] == k1;
  }

  // ---------------------------------------------------------------- the result is no longer and still a string

  /** The room that the components take with their colons. */
  function Room(dirs: seq<Name>): nat {
    if dirs == [] then 0 else |dirs[0]| + 1 + Room(dirs[1..])
  }

  lemma {:induction false} ComponentsRoom(path: seq<byte>)
    ensures Room(Components(path)) <= |path| + 1
    decreases |path|
  {
    if path != [] {
      ComponentsRoom(Behind(path));
    }
  }

  lemma {:induction false} KeptRoom(dirs: seq<Name>, needed: seq<Name>, found: seq<bool>, onDisk: Oracle)
    requires |found| == |needed|
    ensures Room(Kept(dirs, needed, found, onDisk)) <= Room(dirs)
    decreases |dirs|
  {
    hide Useful, FoundAfter;
    if dirs != [] {
      var d, rest := dirs[0], dirs[1..];
      var f := if Absolute(d) then FoundAfter(d, needed, found, onDisk) else found;
      var k := Kept(rest, needed, f, onDisk);
      KeptRoom(rest, needed, f, onDisk);
      assert ([d] + k)[1..] == k && [] + k == k;
    }
  }

  lemma {:induction false} JoinedRoom(path: seq<byte>, dirs: seq<Name>)
    ensures |JoinedOnto(path, dirs)| <= |path| + Room(dirs)
    ensures path == [] ==> |JoinedOnto(path, dirs)| + 1 <= Room(dirs) || JoinedOnto(path, dirs) == []
    decreases |dirs|
  {
    if dirs != [] {
      JoinedRoom(Concat(path, dirs[0]), dirs[1..]);
    }
  }

  /** A shrunk run path fits where the old one was. */
  lemma ShrunkIsNoLonger(path: seq<byte>, needed: seq<Name>, onDisk: Oracle)
    ensures |Shrunk(path, needed, onDisk)| <= |path|
  {
    ComponentsRoom(path);
    KeptRoom(Components(path), needed, NothingFound(|needed|), onDisk);
    JoinedRoom([], KeptOf(path, needed, onDisk));
  }

  lemma {:induction false} JoinedNoNul(path: seq<byte>, dirs: seq<Name>)
    requires NoNul(path) && forall i :: 0 <= i < |dirs| ==> NoNul(dirs[i])
    ensures NoNul(JoinedOnto(path, dirs))
    decreases |dirs|
  {
    if dirs != [] {
      assert forall i :: 0 <= i < |dirs[1..]| ==> dirs[1..][i] == dirs[i + 1];
      JoinedNoNul(Concat(path, dirs[0]), dirs[1..]);
    }
  }

  lemma {:induction false} ComponentsNoNul(path: seq<byte>)
    requires NoNul(path)
    ensures forall i :: 0 <= i < |Components(path)| ==> NoNul(Components(path)[i])
    decreases |path|
  {
    if path != [] {
      ComponentsNoNul(Behind(path));
    }
  }

  lemma ShrunkNoNul(path: seq<byte>, needed: seq<Name>, onDisk: Oracle)
    requires NoNul(path)
    ensures NoNul(Shrunk(path, needed, onDisk))
  {
    hide NoNul, Kept, Components, JoinedOnto;
    assert NoNul([]) by { NothingNoNul(); }
    ComponentsNoNul(path);
    KeptAmong(Components(path), needed, NothingFound(|needed|), onDisk);
    var ks := KeptOf(path, needed, onDisk);
    forall i | 0 <= i < |ks| ensures NoNul(ks[i]) {
      assert ks[i] in Components(path);
    }
    JoinedNoNul([], ks);
  }

  lemma NothingNoNul()
    ensures NoNul([])
  {
  }
}
