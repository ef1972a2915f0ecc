/** The decoder's buffers: borrowed from a free list, repacked into one allocation, and given back. */
module ScriptPools {
  import opened Bytes
  import opened Wrappers
  import opened VarInts
  import opened Transactions

  const POOLED := 1000      // the capacity of the buffers on the free list
  const LIST_LENGTH := 1000 // the most buffers that the free list holds

  /** `scriptFreeList`.  The ghost field says which buffers are lent out, and what has been read into them. */
  class ScriptPool {
    var free: seq<array<byte>>
    ghost var lent: map<array<byte>, seq<byte>>

    ghost predicate Valid()
      reads this, free, lent.Keys
    {
      && |free| <= LIST_LENGTH
      && (forall i, j :: 0 <= i < j < |free| ==> free[i] != free[j])
      && (forall i :: 0 <= i < |free| ==> free[i].Length == POOLED && free[i] !in lent)
      && (forall b :: b in lent ==> |lent[b]| <= b.Length && b[..|lent[b]|] == lent[b])
    }

    /** All buffers that the pool has to do with. */
    ghost function Arrays(): set<array<byte>>
      reads this
    {
      (set b | b in free) + lent.Keys
    }

    /** The buffers on the free list. */
    ghost function Free(): set<array<byte>>
      reads this
    {
      set b | b in free
    }

    constructor ()
      ensures Valid() && free == [] && lent == map[]
    {
      free, lent := [], map[];
    }

    /** `Borrow`. */
    method Borrow(size: nat) returns (b: array<byte>)
      requires Valid()
      modifies this
      ensures Valid()
      ensures b !in old(lent) && lent == old(lent)[b := []]
      ensures b.Length == if size > 1000 then size else 1000
      ensures b in old(free) || fresh(b)
      ensures forall a :: a in free ==> a in old(free)
    {
      if size > POOLED {
        b := new byte[size];
      } else if free == [] {
        b := new byte[POOLED];
      } else {
        b := free[0];
        free := free[1..];
      }
      lent := lent[b := []];
    }

    /** `io.ReadFull` into a borrowed buffer. */
    method Fill(b: array<byte>, d: seq<byte>)
      requires Valid() && b in lent && |d| <= b.Length
      modifies this`lent, b
      ensures Valid() && lent == old(lent)[b := d]
    {
      forall k | 0 <= k < |d| {
        b[k] := d[k];
      }
      lent := lent[b := d];
      assert b[..|d|] == d;
      forall a | a in lent && a != b ensures a[..|lent[a]|] == lent[a] {
        assert lent[a] == old(lent)[a] && a[..|lent[a]|] == old(a[..|lent[a]|]);
      }
    }

    /** `Return`.  Only what has been borrowed and not been returned since may be offered. */
    method Return(b: array<byte>)
      requires Valid() && b in lent
      modifies this
      ensures Valid() && lent == old(lent) - {b}
      ensures free == old(free) + (if b.Length == 1000 && |old(free)| < 1000 then [b] else [])
    {
      lent := lent - {b};
      if b.Length == POOLED {
        if |free| < LIST_LENGTH {
          free := free + [b];
        }
      }
    }
  }

  /** A slice of a borrowed buffer, from its beginning. */
  datatype Buf = Buf(a: array<byte>, len: nat)

  /** An input whose scripts are still in borrowed buffers. */
  datatype InB = InB(hash: seq<byte>, index: nat, sequence: nat, sig: Option<Buf>, stack: seq<Option<Buf>>)

  /** An output likewise. */
  datatype OutB = OutB(value: int, pk: Option<Buf>)

  // ---------------------------------------------------------------- which buffers a message has

  function Arr(b: Option<Buf>): seq<array<byte>> {
    if b.Some? then [b.value.a] else []
  }

  function Arrs(bs: seq<Option<Buf>>): seq<array<byte>> {
    if bs == [] then [] else Arrs(bs[..|bs| - 1]) + Arr(bs[|bs| - 1])
  }

  function InArrs(ti: InB): seq<array<byte>> {
    Arr(ti.sig) + Arrs(ti.stack)
  }

  function InsArrs(ins: seq<InB>): seq<array<byte>> {
    if ins == [] then [] else InsArrs(ins[..|ins| - 1]) + InArrs(ins[|ins| - 1])
  }

  function OutsArrs(outs: seq<OutB>): seq<array<byte>> {
    if outs == [] then [] else OutsArrs(outs[..|outs| - 1]) + Arr(outs[|outs| - 1].pk)
  }

  /** The message holds exactly the buffers that are lent out, each once. */
  ghost predicate Holds(lent: map<array<byte>, seq<byte>>, ins: seq<InB>, outs: seq<OutB>) {
    multiset(InsArrs(ins)) + multiset(OutsArrs(outs)) == multiset(lent.Keys)
  }

  // ---------------------------------------------------------------- what the buffers hold

  /** `b` holds `s`. */
  ghost predicate IsScript(lent: map<array<byte>, seq<byte>>, b: Option<Buf>, s: seq<byte>) {
    b.Some? && b.value.a in lent && lent[b.value.a] == s && b.value.len == |s|
  }

  ghost predicate IsStack(lent: map<array<byte>, seq<byte>>, bs: seq<Option<Buf>>, w: seq<seq<byte>>) {
    |bs| == |w| && forall j :: 0 <= j < |w| ==> IsScript(lent, bs[j], w[j])
  }

  ghost predicate IsIn(lent: map<array<byte>, seq<byte>>, b: InB, ti: TxIn) {
    && b.hash == ti.hash && b.index == ti.index && b.sequence == ti.sequence
    && IsScript(lent, b.sig, ti.signatureScript) && IsStack(lent, b.stack, ti.stack)
  }

  ghost predicate AreIns(lent: map<array<byte>, seq<byte>>, bs: seq<InB>, ins: seq<TxIn>) {
    |bs| == |ins| && forall i :: 0 <= i < |ins| ==> IsIn(lent, bs[i], ins[i])
  }

  ghost predicate IsOut(lent: map<array<byte>, seq<byte>>, b: OutB, to: TxOut) {
    b.value == to.value && IsScript(lent, b.pk, to.pkScript)
  }

  ghost predicate AreOuts(lent: map<array<byte>, seq<byte>>, bs: seq<OutB>, outs: seq<TxOut>) {
    |bs| == |outs| && forall i :: 0 <= i < |outs| ==> IsOut(lent, bs[i], outs[i])
  }

  /** More buffers have been lent; those that were keep their contents. */
  ghost predicate Grows(a: map<array<byte>, seq<byte>>, b: map<array<byte>, seq<byte>>) {
    forall k :: k in a ==> k in b && b[k] == a[k]
  }

  lemma StillIns(a: map<array<byte>, seq<byte>>, b: map<array<byte>, seq<byte>>, bs: seq<InB>, ins: seq<TxIn>)
    requires Grows(a, b) && AreIns(a, bs, ins)
    ensures AreIns(b, bs, ins)
  {
    forall i | 0 <= i < |ins| ensures IsIn(b, bs[i], ins[i]) {
      assert IsIn(a, bs[i], ins[i]);
    }
  }

  lemma StillOuts(a: map<array<byte>, seq<byte>>, b: map<array<byte>, seq<byte>>, bs: seq<OutB>, outs: seq<TxOut>)
    requires Grows(a, b) && AreOuts(a, bs, outs)
    ensures AreOuts(b, bs, outs)
  {
    forall i | 0 <= i < |outs| ensures IsOut(b, bs[i], outs[i]) {
      assert IsOut(a, bs[i], outs[i]);
    }
  }

  // ---------------------------------------------------------------- reading

  /** `readScript`.  A buffer whose bytes cannot be read goes back at once. */
  method ReadScriptInto(pool: ScriptPool, bs: seq<byte>, max: nat) returns (r: Outcome<Parsed<Buf>>)
    requires pool.Valid()
    modifies pool, pool.free
    ensures pool.Valid() && fresh(pool.Arrays() - old(pool.Arrays())) && fresh(pool.Free() - old(pool.Free()))
    ensures r.Err? <==> ReadScript(bs, max).Err?
    ensures r.Panic? <==> ReadScript(bs, max).Panic?
    ensures r.Ok? ==>
      && ReadScript(bs, max).Ok?
      && var p := ReadScript(bs, max).value;
      && r.value.rest == p.rest && r.value.value.len == |p.value|
      && r.value.value.a !in old(pool.lent) && pool.lent == old(pool.lent)[r.value.value.a := p.value]
    ensures !r.Ok? ==> pool.lent == old(pool.lent)
  {
    hide ReadVarInt, ScriptPool.Valid;
    var n := ReadVarInt(bs);
    if n.Err? {
      return Err;
    }
    if n.Panic? {
      return Panic;
    }
    var count, rest := n.value.value, n.value.rest;
    if count > max {
      return Err;
    }
    var b := pool.Borrow(count);
    if |rest| < count {
      pool.Return(b);
      return Err;
    }
    pool.Fill(b, rest[..count]);
    return Ok(Parsed(Buf(b, count), rest[count..]));
  }

  // ---------------------------------------------------------------- giving back

  /** All buffers of a message. */
  ghost function Total(ins: seq<InB>, outs: seq<OutB>): multiset<array<byte>> {
    multiset(InsArrs(ins)) + multiset(OutsArrs(outs))
  }

  /** The buffers `done` have been given back; the others are still lent out. */
  ghost predicate Remaining(lent: map<array<byte>, seq<byte>>, done: multiset<array<byte>>, total: multiset<array<byte>>) {
    done + multiset(lent.Keys) == total
  }

  lemma OneBack(lent: map<array<byte>, seq<byte>>, done: multiset<array<byte>>, total: multiset<array<byte>>, b: array<byte>)
    requires Remaining(lent, done, total) && done + multiset{b} <= total
    ensures b in lent && Remaining(lent - {b}, done + multiset{b}, total)
  {
    assert total[b] >= done[b] + 1;
    assert multiset(lent.Keys)[b] >= 1;
    var l := lent - {b};
    assert l.Keys == lent.Keys - {b};
    assert multiset(lent.Keys) == multiset(l.Keys) + multiset{b};
  }

  lemma {:induction false} InsPrefix(ins: seq<InB>, i: nat)
    requires i <= |ins|
    ensures multiset(InsArrs(ins[..i])) <= multiset(InsArrs(ins))
    decreases |ins| - i
  {
    hide InsArrs, InArrs;
    if i < |ins| {
      InsPrefix(ins, i + 1);
      InsNext(ins, i);
    } else {
      assert ins[..i] == ins;
    }
  }

  lemma InsNext(ins: seq<InB>, i: nat)
    requires i < |ins|
    ensures multiset(InsArrs(ins[..i + 1])) == multiset(InsArrs(ins[..i])) + multiset(InArrs(ins[i]))
  {
    assert ins[..i + 1][..i] == ins[..i];
  }

  lemma {:induction false} OutsPrefix(outs: seq<OutB>, i: nat)
    requires i <= |outs|
    ensures multiset(OutsArrs(outs[..i])) <= multiset(OutsArrs(outs))
    decreases |outs| - i
  {
    hide OutsArrs, Arr;
    if i < |outs| {
      OutsPrefix(outs, i + 1);
      OutsNext(outs, i);
    } else {
      assert outs[..i] == outs;
    }
  }

  lemma OutsNext(outs: seq<OutB>, i: nat)
    requires i < |outs|
    ensures multiset(OutsArrs(outs[..i + 1])) == multiset(OutsArrs(outs[..i])) + multiset(Arr(outs[i].pk))
  {
    assert outs[..i + 1][..i] == outs[..i];
  }

  lemma {:induction false} ArrsPrefix(bs: seq<Option<Buf>>, j: nat)
    requires j <= |bs|
    ensures multiset(Arrs(bs[..j])) <= multiset(Arrs(bs))
    decreases |bs| - j
  {
    hide Arrs, Arr;
    if j < |bs| {
      ArrsPrefix(bs, j + 1);
      ArrsNext(bs, j);
    } else {
      assert bs[..j] == bs;
    }
  }

  lemma ArrsNext(bs: seq<Option<Buf>>, j: nat)
    requires j < |bs|
    ensures multiset(Arrs(bs[..j + 1])) == multiset(Arrs(bs[..j])) + multiset(Arr(bs[j]))
  {
    assert bs[..j + 1][..j] == bs[..j];
  }

  /** Gives back one buffer, if there is one. */
  method GiveBack(pool: ScriptPool, b: Option<Buf>, ghost done: multiset<array<byte>>, ghost total: multiset<array<byte>>)
    requires pool.Valid() && Remaining(pool.lent, done, total) && done + multiset(Arr(b)) <= total
    modifies pool
    ensures pool.Valid() && Remaining(pool.lent, done + multiset(Arr(b)), total)
    ensures fresh(pool.Arrays() - old(pool.Arrays()))
    ensures b.Some? ==> b.value.a in old(pool.lent) && pool.lent == old(pool.lent) - {b.value.a}
    ensures b.None? ==> pool.lent == old(pool.lent)
  {
    hide Remaining;
    if b.Some? {
      OneBack(pool.lent, done, total, b.value.a);
      assert multiset(Arr(b)) == multiset{b.value.a};
      pool.Return(b.value.a);
    } else {
      assert done + multiset(Arr(b)) == done;
    }
  }

  /** Gives back the buffers of a witness. */
  method GiveBackStack(pool: ScriptPool, stack: seq<Option<Buf>>, ghost done: multiset<array<byte>>, ghost total: multiset<array<byte>>)
    requires pool.Valid() && Remaining(pool.lent, done, total) && done + multiset(Arrs(stack)) <= total
    modifies pool
    ensures pool.Valid() && Remaining(pool.lent, done + multiset(Arrs(stack)), total)
    ensures fresh(pool.Arrays() - old(pool.Arrays()))
  {
    hide Remaining, Arrs, Arr;
    NoArrs(stack, done);
    for j := 0 to |stack|
      invariant pool.Valid() && Remaining(pool.lent, done + multiset(Arrs(stack[..j])), total)
      invariant fresh(pool.Arrays() - old(pool.Arrays()))
    {
      ArrsPrefix(stack, j + 1);
      ArrsNext(stack, j);
      MoreDone(done, multiset(Arrs(stack[..j])), multiset(Arr(stack[j])));
      GiveBack(pool, stack[j], done + multiset(Arrs(stack[..j])), total);
    }
    assert stack[..|stack|] == stack;
  }

  lemma NoArrs(stack: seq<Option<Buf>>, done: multiset<array<byte>>)
    ensures done + multiset(Arrs(stack[..0])) == done
  {
  }

  lemma MoreDone(a: multiset<array<byte>>, b: multiset<array<byte>>, c: multiset<array<byte>>)
    ensures (a + b) + c == a + (b + c)
  {
  }

  /** Gives back the buffers of the inputs. */
  method ReturnIns(pool: ScriptPool, ins: seq<InB>, ghost total: multiset<array<byte>>)
    requires pool.Valid() && Remaining(pool.lent, multiset{}, total) && multiset(InsArrs(ins)) <= total
    modifies pool
    ensures pool.Valid() && Remaining(pool.lent, multiset(InsArrs(ins)), total)
    ensures fresh(pool.Arrays() - old(pool.Arrays()))
  {
    hide Remaining, Arrs, Arr, InsArrs, InArrs, ScriptPool.Valid;
    NoIns(ins);
    for i := 0 to |ins|
      invariant pool.Valid() && Remaining(pool.lent, multiset(InsArrs(ins[..i])), total)
      invariant fresh(pool.Arrays() - old(pool.Arrays()))
    {
      InsPrefix(ins, i + 1);
      InsNext(ins, i);
      InParts(ins[i]);
      ghost var done := multiset(InsArrs(ins[..i]));
      MoreDone(done, multiset(Arr(ins[i].sig)), multiset(Arrs(ins[i].stack)));
      GiveBack(pool, ins[i].sig, done, total);
      GiveBackStack(pool, ins[i].stack, done + multiset(Arr(ins[i].sig)), total);
    }
    assert ins[..|ins|] == ins;
  }

  lemma NoIns(ins: seq<InB>)
    ensures multiset(InsArrs(ins[..0])) == multiset{}
  {
  }

  /** Gives back the buffers of the outputs. */
  method ReturnOuts(pool: ScriptPool, outs: seq<OutB>, ghost done: multiset<array<byte>>, ghost total: multiset<array<byte>>)
    requires pool.Valid() && Remaining(pool.lent, done, total) && done + multiset(OutsArrs(outs)) <= total
    modifies pool
    ensures pool.Valid() && Remaining(pool.lent, done + multiset(OutsArrs(outs)), total)
    ensures fresh(pool.Arrays() - old(pool.Arrays()))
  {
    hide Remaining, Arr, OutsArrs, ScriptPool.Valid;
    NoOuts(outs, done);
    for i := 0 to |outs|
      invariant pool.Valid() && Remaining(pool.lent, done + multiset(OutsArrs(outs[..i])), total)
      invariant fresh(pool.Arrays() - old(pool.Arrays()))
    {
      OutsPrefix(outs, i + 1);
      OutsNext(outs, i);
      MoreDone(done, multiset(OutsArrs(outs[..i])), multiset(Arr(outs[i].pk)));
      GiveBack(pool, outs[i].pk, done + multiset(OutsArrs(outs[..i])), total);
    }
    assert outs[..|outs|] == outs;
  }

  lemma NoOuts(outs: seq<OutB>, done: multiset<array<byte>>)
    ensures done + multiset(OutsArrs(outs[..0])) == done
  {
  }

  /** The closure `returnScriptBuffers`. */
  method ReturnScriptBuffers(pool: ScriptPool, ins: seq<InB>, outs: seq<OutB>)
    requires pool.Valid() && Holds(pool.lent, ins, outs)
    modifies pool
    ensures pool.Valid() && pool.lent == map[]
    ensures fresh(pool.Arrays() - old(pool.Arrays()))
  {
    hide Remaining, InsArrs, OutsArrs, ScriptPool.Valid;
    ghost var total := Total(ins, outs);
    NothingBack(pool.lent, ins, outs);
    ReturnIns(pool, ins, total);
    ReturnOuts(pool, outs, multiset(InsArrs(ins)), total);
    AllBack(pool.lent, total);
  }

  lemma InParts(ti: InB)
    ensures multiset(InArrs(ti)) == multiset(Arr(ti.sig)) + multiset(Arrs(ti.stack))
  {
  }

  lemma NothingBack(lent: map<array<byte>, seq<byte>>, ins: seq<InB>, outs: seq<OutB>)
    requires Holds(lent, ins, outs)
    ensures Remaining(lent, multiset{}, Total(ins, outs))
  {
  }

  lemma AllBack(lent: map<array<byte>, seq<byte>>, total: multiset<array<byte>>)
    requires Remaining(lent, total, total)
    ensures lent == map[]
  {
    forall b ensures b !in lent.Keys {
      assert (total + multiset(lent.Keys))[b] == total[b];
      assert multiset(lent.Keys)[b] == 0;
    }
  }

  // ---------------------------------------------------------------- reading a message

  /** Since `a`, exactly the buffers `new_` have been lent. */
  ghost predicate Adds(a: map<array<byte>, seq<byte>>, b: map<array<byte>, seq<byte>>, new_: multiset<array<byte>>) {
    Grows(a, b) && multiset(b.Keys) == multiset(a.Keys) + new_
  }

  lemma AddsNothing(a: map<array<byte>, seq<byte>>)
    ensures Adds(a, a, multiset{})
  {
  }

  lemma AddsOne(a: map<array<byte>, seq<byte>>, b: Buf, d: seq<byte>)
    requires b.a !in a
    ensures Adds(a, a[b.a := d], multiset(Arr(Some(b))))
  {
    var m := a[b.a := d];
    assert m.Keys == a.Keys + {b.a};
    assert multiset(m.Keys) == multiset(a.Keys) + multiset{b.a};
    assert multiset(Arr(Some(b))) == multiset{b.a};
  }

  lemma AddsTwice(a: map<array<byte>, seq<byte>>, b: map<array<byte>, seq<byte>>, c: map<array<byte>, seq<byte>>,
                  x: multiset<array<byte>>, y: multiset<array<byte>>)
    requires Adds(a, b, x) && Adds(b, c, y)
    ensures Adds(a, c, x + y)
  {
    MoreDone(multiset(a.Keys), x, y);
  }

  /** The outcome of the rest of a list, with what has been read before. */
  function Then<T>(done: seq<T>, rest: Outcome<Parsed<seq<T>>>): Outcome<Parsed<seq<T>>> {
    match rest
    case Err => Err
    case Panic => Panic
    case Ok(p) => Ok(Parsed(done + p.value, p.rest))
  }

  lemma ThenStep<T>(done: seq<T>, x: T, rest: Outcome<Parsed<seq<T>>>)
    ensures Then(done, Then([x], rest)) == Then(done + [x], rest)
  {
    if rest.Ok? {
      assert done + ([x] + rest.value.value) == (done + [x]) + rest.value.value;
    }
  }

  lemma ThenNothing<T>(rest: Outcome<Parsed<seq<T>>>)
    ensures Then([], rest) == rest
  {
    if rest.Ok? {
      assert [] + rest.value.value == rest.value.value;
    }
  }

  lemma ThenEnd<T>(done: seq<T>, bs: seq<byte>)
    ensures Then(done, Ok(Parsed([], bs))) == Ok(Parsed(done, bs))
  {
    assert done + [] == done;
  }

  /** `readTxIn`.  When it fails, a buffer may already be held. */
  method ReadInInto(pool: ScriptPool, bs: seq<byte>) returns (r: Outcome<seq<byte>>, ti: InB)
    requires pool.Valid()
    modifies pool, pool.free
    ensures pool.Valid() && fresh(pool.Arrays() - old(pool.Arrays())) && fresh(pool.Free() - old(pool.Free()))
    ensures r.Err? <==> ReadIn(bs).Err?
    ensures r.Panic? <==> ReadIn(bs).Panic?
    ensures !r.Panic? ==> Adds(old(pool.lent), pool.lent, multiset(InArrs(ti)))
    ensures r.Ok? ==> ReadIn(bs).Ok? && r.value == ReadIn(bs).value.rest && IsIn(pool.lent, ti, ReadIn(bs).value.value) && ti.stack == []
  {
    hide ReadScript, ReadBytes, ReadUint, ScriptPool.Valid, Adds;
    ghost var lent := pool.lent;
    AddsNothing(lent);
    ti := InB([], 0, 0, None, []);
    assert InArrs(ti) == [];
    var h := ReadBytes(bs, 32);
    if !h.Ok? {
      r := if h.Err? then Err else Panic;
      return;
    }
    var i := ReadUint(h.value.rest, 4);
    if !i.Ok? {
      r := if i.Err? then Err else Panic;
      return;
    }
    ti := ti.(hash := h.value.value, index := i.value.value);
    var s := ReadScriptInto(pool, i.value.rest, MAX_SCRIPT);
    if !s.Ok? {
      r := if s.Err? then Err else Panic;
      return;
    }
    ti := ti.(sig := Some(s.value.value));
    AddsOne(lent, s.value.value, ReadScript(i.value.rest, MAX_SCRIPT).value.value);
    assert InArrs(ti) == Arr(ti.sig);
    var q := ReadUint(s.value.rest, 4);
    if !q.Ok? {
      r := if q.Err? then Err else Panic;
      return;
    }
    ti := ti.(sequence := q.value.value);
    r := Ok(q.value.rest);
  }

  /** The inputs; `size` is the room that their scripts need. */
  method ReadInsInto(pool: ScriptPool, bs: seq<byte>, n: nat) returns (r: Outcome<seq<byte>>, ins: seq<InB>, size: nat)
    requires pool.Valid()
    modifies pool, pool.free
    ensures pool.Valid() && fresh(pool.Arrays() - old(pool.Arrays())) && fresh(pool.Free() - old(pool.Free()))
    ensures r.Err? <==> ReadIns(bs, n).Err?
    ensures r.Panic? <==> ReadIns(bs, n).Panic?
    ensures !r.Panic? ==> Adds(old(pool.lent), pool.lent, multiset(InsArrs(ins)))
    ensures r.Ok? ==> ReadIns(bs, n).Ok? && r.value == ReadIns(bs, n).value.rest && AreIns(pool.lent, ins, ReadIns(bs, n).value.value)
    ensures r.Ok? ==> size == SigSize(ReadIns(bs, n).value.value) && forall i :: 0 <= i < |ins| ==> ins[i].stack == []
  {
    hide ReadIn, ScriptPool.Valid, Adds, AreIns, IsIn, InArrs, InsArrs, Then, SigSize;
    ghost var lent := pool.lent;
    NoInsRead(lent);
    ins, size := [], 0;
    var rest := bs;
    ghost var vals: seq<TxIn> := [];
    ThenNothing(ReadIns(bs, n));
    for i := 0 to n
      invariant pool.Valid() && fresh(pool.Arrays() - old(pool.Arrays())) && fresh(pool.Free() - old(pool.Free()))
      invariant Adds(lent, pool.lent, multiset(InsArrs(ins))) && AreIns(pool.lent, ins, vals)
      invariant ReadIns(bs, n) == Then(vals, ReadIns(rest, n - i))
      invariant size == SigSize(vals) && forall i :: 0 <= i < |ins| ==> ins[i].stack == []
    {
      ghost var before := pool.lent;
      var x, ti := ReadInInto(pool, rest);
      ghost var spec := ReadIn(rest);
      InsUnfold(bs, n, vals, rest, n - i);
      if x.Panic? {
        return Panic, ins, size;
      }
      OneMoreIn(lent, before, pool.lent, ins, vals, ti);
      ins := ins + [ti];
      if x.Err? {
        return Err, ins, size;
      }
      SigSizeStep(vals, spec.value.value);
      vals := vals + [spec.value.value];
      SigLength(ti, pool.lent, spec.value.value);
      size := size + ti.sig.value.len;
      rest := x.value;
    }
    ThenEnd(vals, rest);
    return Ok(rest), ins, size;
  }

  lemma InsUnfold(bs: seq<byte>, n: nat, done: seq<TxIn>, rest: seq<byte>, k: nat)
    requires k > 0 && ReadIns(bs, n) == Then(done, ReadIns(rest, k))
    ensures ReadIn(rest).Err? ==> ReadIns(bs, n).Err?
    ensures ReadIn(rest).Panic? ==> ReadIns(bs, n).Panic?
    ensures ReadIn(rest).Ok? ==> var w := ReadIn(rest).value; ReadIns(bs, n) == Then(done + [w.value], ReadIns(w.rest, k - 1))
  {
    hide ReadIn;
    if ReadIn(rest).Ok? {
      var w := ReadIn(rest).value;
      ThenStep(done, w.value, ReadIns(w.rest, k - 1));
    }
  }

  lemma NoInsRead(lent: map<array<byte>, seq<byte>>)
    ensures Adds(lent, lent, multiset(InsArrs([]))) && AreIns(lent, [], []) && SigSize([]) == 0
  {
    AddsNothing(lent);
  }

  lemma SigLength(ti: InB, lent: map<array<byte>, seq<byte>>, v: TxIn)
    requires IsIn(lent, ti, v)
    ensures ti.sig.Some? && ti.sig.value.len == |v.signatureScript|
  {
  }

  function SigSize(ins: seq<TxIn>): nat {
    if ins == [] then 0 else SigSize(ins[..|ins| - 1]) + |ins[|ins| - 1].signatureScript|
  }

  lemma SigSizeStep(ins: seq<TxIn>, ti: TxIn)
    ensures SigSize(ins + [ti]) == SigSize(ins) + |ti.signatureScript|
  {
    assert (ins + [ti])[..|ins|] == ins;
  }

  lemma OneMoreIn(lent: map<array<byte>, seq<byte>>, before: map<array<byte>, seq<byte>>, after: map<array<byte>, seq<byte>>,
                  ins: seq<InB>, vals: seq<TxIn>, ti: InB)
    requires Adds(lent, before, multiset(InsArrs(ins))) && Adds(before, after, multiset(InArrs(ti))) && AreIns(before, ins, vals)
    ensures Adds(lent, after, multiset(InsArrs(ins + [ti]))) && AreIns(after, ins, vals)
    ensures forall v :: IsIn(after, ti, v) ==> AreIns(after, ins + [ti], vals + [v])
  {
    hide IsIn, Adds, InsArrs, InArrs;
    AddsTwice(lent, before, after, multiset(InsArrs(ins)), multiset(InArrs(ti)));
    LastIn(ins, ti);
    AddsOnly(before, after, multiset(InArrs(ti)));
    StillIns(before, after, ins, vals);
  }

  lemma LastIn(ins: seq<InB>, ti: InB)
    ensures multiset(InsArrs(ins + [ti])) == multiset(InsArrs(ins)) + multiset(InArrs(ti))
  {
    hide InArrs;
    Front(ins, ti);
  }

  lemma AddsOnly(a: map<array<byte>, seq<byte>>, b: map<array<byte>, seq<byte>>, new_: multiset<array<byte>>)
    requires Adds(a, b, new_)
    ensures Grows(a, b)
  {
  }

  /** `readTxOut`. */
  method ReadOutInto(pool: ScriptPool, bs: seq<byte>) returns (r: Outcome<seq<byte>>, to: OutB)
    requires pool.Valid()
    modifies pool, pool.free
    ensures pool.Valid() && fresh(pool.Arrays() - old(pool.Arrays())) && fresh(pool.Free() - old(pool.Free()))
    ensures r.Err? <==> ReadOut(bs).Err?
    ensures r.Panic? <==> ReadOut(bs).Panic?
    ensures !r.Panic? ==> Adds(old(pool.lent), pool.lent, multiset(Arr(to.pk)))
    ensures r.Ok? ==> ReadOut(bs).Ok? && r.value == ReadOut(bs).value.rest && IsOut(pool.lent, to, ReadOut(bs).value.value)
  {
    hide ReadScript, ReadUint, ScriptPool.Valid, Adds;
    ghost var lent := pool.lent;
    AddsNothing(lent);
    to := OutB(0, None);
    assert Arr(to.pk) == [];
    var v := ReadUint(bs, 8);
    if !v.Ok? {
      r := if v.Err? then Err else Panic;
      return;
    }
    ReadUintBound(bs, 8);
    to := to.(value := ToSigned(v.value.value, 8));
    var s := ReadScriptInto(pool, v.value.rest, MAX_SCRIPT);
    if !s.Ok? {
      r := if s.Err? then Err else Panic;
      return;
    }
    to := to.(pk := Some(s.value.value));
    AddsOne(lent, s.value.value, ReadScript(v.value.rest, MAX_SCRIPT).value.value);
    r := Ok(s.value.rest);
  }

  function PkSize(outs: seq<TxOut>): nat {
    if outs == [] then 0 else PkSize(outs[..|outs| - 1]) + |outs[|outs| - 1].pkScript|
  }

  lemma PkSizeStep(outs: seq<TxOut>, to: TxOut)
    ensures PkSize(outs + [to]) == PkSize(outs) + |to.pkScript|
  {
    assert (outs + [to])[..|outs|] == outs;
  }

  lemma PkLength(to: OutB, lent: map<array<byte>, seq<byte>>, v: TxOut)
    requires IsOut(lent, to, v)
    ensures to.pk.Some? && to.pk.value.len == |v.pkScript|
  {
  }

  lemma OneMoreOut(lent: map<array<byte>, seq<byte>>, before: map<array<byte>, seq<byte>>, after: map<array<byte>, seq<byte>>,
                   outs: seq<OutB>, vals: seq<TxOut>, to: OutB)
    requires Adds(lent, before, multiset(OutsArrs(outs))) && Adds(before, after, multiset(Arr(to.pk))) && AreOuts(before, outs, vals)
    ensures Adds(lent, after, multiset(OutsArrs(outs + [to]))) && AreOuts(after, outs, vals)
    ensures forall v :: IsOut(after, to, v) ==> AreOuts(after, outs + [to], vals + [v])
  {
    hide IsOut;
    AddsTwice(lent, before, after, multiset(OutsArrs(outs)), multiset(Arr(to.pk)));
    assert (outs + [to])[..|outs|] == outs;
    StillOuts(before, after, outs, vals);
  }

  /** The outputs. */
  method ReadOutsInto(pool: ScriptPool, bs: seq<byte>, n: nat) returns (r: Outcome<seq<byte>>, outs: seq<OutB>, size: nat)
    requires pool.Valid()
    modifies pool, pool.free
    ensures pool.Valid() && fresh(pool.Arrays() - old(pool.Arrays())) && fresh(pool.Free() - old(pool.Free()))
    ensures r.Err? <==> ReadOuts(bs, n).Err?
    ensures r.Panic? <==> ReadOuts(bs, n).Panic?
    ensures !r.Panic? ==> Adds(old(pool.lent), pool.lent, multiset(OutsArrs(outs)))
    ensures r.Ok? ==> ReadOuts(bs, n).Ok? && r.value == ReadOuts(bs, n).value.rest && AreOuts(pool.lent, outs, ReadOuts(bs, n).value.value)
    ensures r.Ok? ==> size == PkSize(ReadOuts(bs, n).value.value)
  {
    hide ReadOut, ScriptPool.Valid, Adds, AreOuts, Arr, OutsArrs, Then, PkSize;
    ghost var lent := pool.lent;
    NoOutsRead(lent);
    outs, size := [], 0;
    var rest := bs;
    ghost var vals: seq<TxOut> := [];
    ThenNothing(ReadOuts(bs, n));
    for i := 0 to n
      invariant pool.Valid() && fresh(pool.Arrays() - old(pool.Arrays())) && fresh(pool.Free() - old(pool.Free()))
      invariant Adds(lent, pool.lent, multiset(OutsArrs(outs))) && AreOuts(pool.lent, outs, vals)
      invariant ReadOuts(bs, n) == Then(vals, ReadOuts(rest, n - i))
      invariant size == PkSize(vals)
    {
      ghost var before := pool.lent;
      var x, to := ReadOutInto(pool, rest);
      ghost var spec := ReadOut(rest);
      OutsUnfold(bs, n, vals, rest, n - i);
      if x.Panic? {
        return Panic, outs, size;
      }
      OneMoreOut(lent, before, pool.lent, outs, vals, to);
      outs := outs + [to];
      if x.Err? {
        return Err, outs, size;
      }
      PkSizeStep(vals, spec.value.value);
      vals := vals + [spec.value.value];
      PkLength(to, pool.lent, spec.value.value);
      size := size + to.pk.value.len;
      rest := x.value;
    }
    ThenEnd(vals, rest);
    return Ok(rest), outs, size;
  }

  lemma OutsUnfold(bs: seq<byte>, n: nat, done: seq<TxOut>, rest: seq<byte>, k: nat)
    requires k > 0 && ReadOuts(bs, n) == Then(done, ReadOuts(rest, k))
    ensures ReadOut(rest).Err? ==> ReadOuts(bs, n).Err?
    ensures ReadOut(rest).Panic? ==> ReadOuts(bs, n).Panic?
    ensures ReadOut(rest).Ok? ==> var w := ReadOut(rest).value; ReadOuts(bs, n) == Then(done + [w.value], ReadOuts(w.rest, k - 1))
  {
    hide ReadOut;
    if ReadOut(rest).Ok? {
      var w := ReadOut(rest).value;
      ThenStep(done, w.value, ReadOuts(w.rest, k - 1));
    }
  }

  lemma NoOutsRead(lent: map<array<byte>, seq<byte>>)
    ensures Adds(lent, lent, multiset(OutsArrs([]))) && AreOuts(lent, [], []) && PkSize([]) == 0
  {
    AddsNothing(lent);
  }

  function StackSize(w: seq<seq<byte>>): nat {
    if w == [] then 0 else StackSize(w[..|w| - 1]) + |w[|w| - 1]|
  }

  lemma StackSizeStep(w: seq<seq<byte>>, s: seq<byte>)
    ensures StackSize(w + [s]) == StackSize(w) + |s|
  {
    assert (w + [s])[..|w|] == w;
  }

  lemma OneMoreItem(lent: map<array<byte>, seq<byte>>, before: map<array<byte>, seq<byte>>, stack: seq<Option<Buf>>, w: seq<seq<byte>>,
                    b: Buf, d: seq<byte>)
    requires Adds(lent, before, multiset(Arrs(stack))) && IsStack(before, stack, w) && b.a !in before && b.len == |d|
    ensures Adds(lent, before[b.a := d], multiset(Arrs(stack + [Some(b)])))
    ensures IsStack(before[b.a := d], stack + [Some(b)], w + [d])
  {
    hide Adds;
    var after := before[b.a := d];
    AddsOne(before, b, d);
    AddsTwice(lent, before, after, multiset(Arrs(stack)), multiset(Arr(Some(b))));
    Front(stack, Some(b));
    LongerStack(before, stack, w, b, d);
  }

  lemma Front<T>(s: seq<T>, x: T)
    ensures (s + [x])[..|s|] == s
  {
  }

  lemma LongerStack(before: map<array<byte>, seq<byte>>, stack: seq<Option<Buf>>, w: seq<seq<byte>>, b: Buf, d: seq<byte>)
    requires IsStack(before, stack, w) && b.a !in before && b.len == |d|
    ensures IsStack(before[b.a := d], stack + [Some(b)], w + [d])
  {
    hide Arr;
    var after := before[b.a := d];
    forall j | 0 <= j < |w| ensures IsScript(after, stack[j], w[j]) {
      assert IsScript(before, stack[j], w[j]);
    }
  }

  /** The items of one witness. */
  method ReadItemsInto(pool: ScriptPool, bs: seq<byte>, n: nat) returns (r: Outcome<seq<byte>>, stack: seq<Option<Buf>>, size: nat)
    requires pool.Valid()
    modifies pool, pool.free
    ensures pool.Valid() && fresh(pool.Arrays() - old(pool.Arrays())) && fresh(pool.Free() - old(pool.Free()))
    ensures r.Err? <==> ReadItems(bs, n).Err?
    ensures r.Panic? <==> ReadItems(bs, n).Panic?
    ensures !r.Panic? ==> Adds(old(pool.lent), pool.lent, multiset(Arrs(stack)))
    ensures r.Ok? ==> ReadItems(bs, n).Ok? && r.value == ReadItems(bs, n).value.rest && IsStack(pool.lent, stack, ReadItems(bs, n).value.value)
    ensures r.Ok? ==> size == StackSize(ReadItems(bs, n).value.value)
  {
    hide ReadScript, ScriptPool.Valid, Adds, IsStack, Arrs;
    ghost var lent := pool.lent;
    stack, size := [], 0;
    var rest := bs;
    ghost var vals: seq<seq<byte>> := [];
    NoItems(lent);
    ThenNothing(ReadItems(bs, n));
    for i := 0 to n
      invariant pool.Valid() && fresh(pool.Arrays() - old(pool.Arrays())) && fresh(pool.Free() - old(pool.Free()))
      invariant Adds(lent, pool.lent, multiset(Arrs(stack))) && IsStack(pool.lent, stack, vals)
      invariant ReadItems(bs, n) == Then(vals, ReadItems(rest, n - i))
      invariant size == StackSize(vals)
    {
      ghost var before := pool.lent;
      var x := ReadScriptInto(pool, rest, MAX_WITNESS_ITEM);
      ghost var spec := ReadScript(rest, MAX_WITNESS_ITEM);
      assert !x.Ok? ==> !ReadItems(bs, n).Ok?;
      if !x.Ok? {
        r := if x.Err? then Err else Panic;
        return;
      }
      OneMoreItem(lent, before, stack, vals, x.value.value, spec.value.value);
      stack := stack + [Some(x.value.value)];
      ThenStep(vals, spec.value.value, ReadItems(spec.value.rest, n - i - 1));
      StackSizeStep(vals, spec.value.value);
      vals := vals + [spec.value.value];
      size := size + x.value.value.len;
      rest := x.value.rest;
    }
    ThenEnd(vals, rest);
    r := Ok(rest);
  }

  lemma NoItems(lent: map<array<byte>, seq<byte>>)
    ensures Adds(lent, lent, multiset(Arrs([]))) && IsStack(lent, [], [])
  {
    AddsNothing(lent);
  }

  /** One witness. */
  method ReadStackInto(pool: ScriptPool, bs: seq<byte>) returns (r: Outcome<seq<byte>>, stack: seq<Option<Buf>>, size: nat)
    requires pool.Valid()
    modifies pool, pool.free
    ensures pool.Valid() && fresh(pool.Arrays() - old(pool.Arrays())) && fresh(pool.Free() - old(pool.Free()))
    ensures r.Err? <==> ReadStack(bs).Err?
    ensures r.Panic? <==> ReadStack(bs).Panic?
    ensures !r.Panic? ==> Adds(old(pool.lent), pool.lent, multiset(Arrs(stack)))
    ensures r.Ok? ==> ReadStack(bs).Ok? && r.value == ReadStack(bs).value.rest && IsStack(pool.lent, stack, ReadStack(bs).value.value)
    ensures r.Ok? ==> size == StackSize(ReadStack(bs).value.value)
  {
    hide ReadVarInt, ReadItems, ScriptPool.Valid, Adds, IsStack, Arrs;
    NoItems(pool.lent);
    stack, size := [], 0;
    var n := ReadVarInt(bs);
    if !n.Ok? {
      r := if n.Err? then Err else Panic;
      return;
    }
    if n.value.value > MAX_WITNESS_ITEMS {
      r := Err;
      return;
    }
    r, stack, size := ReadItemsInto(pool, n.value.rest, n.value.value);
  }

  function StacksSize(ws: seq<seq<seq<byte>>>): nat {
    if ws == [] then 0 else StacksSize(ws[..|ws| - 1]) + StackSize(ws[|ws| - 1])
  }

  lemma StacksSizeStep(ws: seq<seq<seq<byte>>>, w: seq<seq<byte>>)
    ensures StacksSize(ws + [w]) == StacksSize(ws) + StackSize(w)
  {
    assert (ws + [w])[..|ws|] == ws;
  }

  /** Replacing an input's empty witness adds the buffers of the new one. */
  lemma {:induction false} StackAdded(ins: seq<InB>, i: nat, stack: seq<Option<Buf>>)
    requires i < |ins| && ins[i].stack == []
    ensures multiset(InsArrs(ins[i := ins[i].(stack := stack)])) == multiset(InsArrs(ins)) + multiset(Arrs(stack))
    decreases |ins|
  {
    hide Arr, Arrs;
    var t := ins[i].(stack := stack);
    var n := |ins| - 1;
    InParts(ins[i]);
    InParts(t);
    assert Arrs([]) == [] by { EmptyArrs(); }
    if i == n {
      assert ins[i := t][..n] == ins[..n];
    } else {
      StackAdded(ins[..n], i, stack);
      assert ins[i := t][..n] == ins[..n][i := t];
    }
  }

  lemma EmptyArrs()
    ensures Arrs([]) == []
  {
  }

  /** The first `i` inputs have their witnesses. */
  ghost predicate Attached(bare: seq<TxIn>, ws: seq<seq<seq<byte>>>, vals: seq<TxIn>) {
    && |ws| <= |bare| == |vals|
    && (forall j :: 0 <= j < |ws| ==> vals[j] == bare[j].(stack := ws[j]))
    && (forall j :: |ws| <= j < |bare| ==> vals[j] == bare[j])
  }

  lemma OneMoreStack(before: map<array<byte>, seq<byte>>, after: map<array<byte>, seq<byte>>, lent: map<array<byte>, seq<byte>>, base: multiset<array<byte>>,
                     ins: seq<InB>, vals: seq<TxIn>, i: nat, stack: seq<Option<Buf>>)
    requires multiset(before.Keys) == base + multiset(InsArrs(ins)) && Adds(before, after, multiset(Arrs(stack)))
    requires AreIns(before, ins, vals) && i < |ins| && ins[i].stack == []
    ensures multiset(after.Keys) == base + multiset(InsArrs(ins[i := ins[i].(stack := stack)]))
    ensures forall w :: IsStack(after, stack, w) ==>
              AreIns(after, ins[i := ins[i].(stack := stack)], vals[i := vals[i].(stack := w)])
  {
    hide Arrs, InsArrs, InArrs;
    StackAdded(ins, i, stack);
    StillIns(before, after, ins, vals);
    MoreDone(base, multiset(InsArrs(ins)), multiset(Arrs(stack)));
    forall w | IsStack(after, stack, w)
      ensures AreIns(after, ins[i := ins[i].(stack := stack)], vals[i := vals[i].(stack := w)])
    {
      var ins', vals' := ins[i := ins[i].(stack := stack)], vals[i := vals[i].(stack := w)];
      forall j | 0 <= j < |ins| ensures IsIn(after, ins'[j], vals'[j]) {
        assert IsIn(after, ins[j], vals[j]);
      }
    }
  }

  /** The witnesses of all inputs. */
  method ReadStacksInto(pool: ScriptPool, bs: seq<byte>, ins0: seq<InB>, ghost bare: seq<TxIn>, ghost base: multiset<array<byte>>)
    returns (r: Outcome<seq<byte>>, ins: seq<InB>, size: nat)
    requires pool.Valid() && AreIns(pool.lent, ins0, bare) && forall i :: 0 <= i < |ins0| ==> ins0[i].stack == []
    requires multiset(pool.lent.Keys) == base + multiset(InsArrs(ins0))
    modifies pool, pool.free
    ensures pool.Valid() && fresh(pool.Arrays() - old(pool.Arrays())) && fresh(pool.Free() - old(pool.Free()))
    ensures r.Err? <==> ReadStacks(bs, |bare|).Err?
    ensures r.Panic? <==> ReadStacks(bs, |bare|).Panic?
    ensures !r.Panic? ==> multiset(pool.lent.Keys) == base + multiset(InsArrs(ins)) && Grows(old(pool.lent), pool.lent)
    ensures r.Ok? ==>
      && ReadStacks(bs, |bare|).Ok? && r.value == ReadStacks(bs, |bare|).value.rest
      && AreIns(pool.lent, ins, Attach(bare, ReadStacks(bs, |bare|).value.value))
      && size == StacksSize(ReadStacks(bs, |bare|).value.value)
  {
    hide ReadStack, ScriptPool.Valid, Adds, AreIns, IsStack, Arrs, InsArrs, Attach, Attached, StacksSize, Grows, Witnessing, Then;
    ghost var lent, n := pool.lent, |bare|;
    ins, size := ins0, 0;
    var rest := bs;
    ghost var done: seq<seq<seq<byte>>>, vals := [], bare;
    WitnessStart(lent, base, ins, bare);
    ThenNothing(ReadStacks(bs, n));
    for i := 0 to |ins0|
      invariant pool.Valid() && fresh(pool.Arrays() - old(pool.Arrays())) && fresh(pool.Free() - old(pool.Free()))
      invariant |ins| == |ins0| == n && Witnessing(lent, pool.lent, base, ins, bare, done, vals) && |done| == i
      invariant ReadStacks(bs, n) == Then(done, ReadStacks(rest, n - i))
      invariant size == StacksSize(done)
    {
      ghost var before := pool.lent;
      var x, stack, more := ReadStackInto(pool, rest);
      StacksUnfold(bs, n, done, rest, n - i);
      if x.Panic? {
        return Panic, ins, size;
      }
      WitnessStep(lent, before, pool.lent, base, ins, bare, done, vals, stack);
      ins := ins[i := ins[i].(stack := stack)];
      if x.Err? {
        return Err, ins, size;
      }
      ghost var w := ReadStack(rest).value.value;
      StacksSizeStep(done, w);
      vals := vals[i := vals[i].(stack := w)];
      done := done + [w];
      size := size + more;
      rest := x.value;
    }
    ThenEnd(done, rest);
    WitnessEnd(lent, pool.lent, base, ins, bare, done, vals);
    return Ok(rest), ins, size;
  }

  /** What reading one more witness comes to. */
  lemma StacksUnfold(bs: seq<byte>, n: nat, done: seq<seq<seq<byte>>>, rest: seq<byte>, k: nat)
    requires k > 0 && ReadStacks(bs, n) == Then(done, ReadStacks(rest, k))
    ensures ReadStack(rest).Err? ==> ReadStacks(bs, n).Err?
    ensures ReadStack(rest).Panic? ==> ReadStacks(bs, n).Panic?
    ensures ReadStack(rest).Ok? ==> var w := ReadStack(rest).value; ReadStacks(bs, n) == Then(done + [w.value], ReadStacks(w.rest, k - 1))
  {
    hide ReadStack;
    if ReadStack(rest).Ok? {
      var w := ReadStack(rest).value;
      ThenStep(done, w.value, ReadStacks(w.rest, k - 1));
    }
  }

  /** The inputs, the first of which have their witnesses. */
  ghost predicate Witnessing(lent0: map<array<byte>, seq<byte>>, lent: map<array<byte>, seq<byte>>, base: multiset<array<byte>>,
                             ins: seq<InB>, bare: seq<TxIn>, done: seq<seq<seq<byte>>>, vals: seq<TxIn>) {
    && Grows(lent0, lent) && multiset(lent.Keys) == base + multiset(InsArrs(ins))
    && AreIns(lent, ins, vals) && Attached(bare, done, vals)
    && forall j :: |done| <= j < |ins| ==> ins[j].stack == []
  }

  lemma WitnessStart(lent: map<array<byte>, seq<byte>>, base: multiset<array<byte>>, ins: seq<InB>, bare: seq<TxIn>)
    requires AreIns(lent, ins, bare) && forall i :: 0 <= i < |ins| ==> ins[i].stack == []
    requires multiset(lent.Keys) == base + multiset(InsArrs(ins))
    ensures Witnessing(lent, lent, base, ins, bare, [], bare) && |ins| == |bare| && StacksSize([]) == 0
  {
    hide InsArrs, IsIn;
  }

  lemma WitnessStep(lent0: map<array<byte>, seq<byte>>, before: map<array<byte>, seq<byte>>, after: map<array<byte>, seq<byte>>,
                    base: multiset<array<byte>>, ins: seq<InB>, bare: seq<TxIn>, done: seq<seq<seq<byte>>>, vals: seq<TxIn>,
                    stack: seq<Option<Buf>>)
    requires Witnessing(lent0, before, base, ins, bare, done, vals) && Adds(before, after, multiset(Arrs(stack)))
    requires |done| < |ins|
    ensures |vals| == |ins| && ins[|done|].stack == []
    ensures var i := |done|;
      && Grows(lent0, after) && multiset(after.Keys) == base + multiset(InsArrs(ins[i := ins[i].(stack := stack)]))
      && forall w :: IsStack(after, stack, w) ==>
           Witnessing(lent0, after, base, ins[i := ins[i].(stack := stack)], bare, done + [w], vals[i := vals[i].(stack := w)])
  {
    hide InsArrs, IsIn, Arrs, IsStack;
    var i := |done|;
    OneMoreStack(before, after, lent0, base, ins, vals, i, stack);
    AddsGrows(lent0, before, after, multiset(Arrs(stack)));
  }

  lemma WitnessEnd(lent0: map<array<byte>, seq<byte>>, lent: map<array<byte>, seq<byte>>, base: multiset<array<byte>>,
                   ins: seq<InB>, bare: seq<TxIn>, done: seq<seq<seq<byte>>>, vals: seq<TxIn>)
    requires Witnessing(lent0, lent, base, ins, bare, done, vals) && |done| == |ins| == |bare|
    ensures Grows(lent0, lent) && multiset(lent.Keys) == base + multiset(InsArrs(ins))
    ensures AreIns(lent, ins, Attach(bare, done))
  {
    hide InsArrs, IsIn;
    assert vals == Attach(bare, done);
  }

  lemma AddsGrows(a: map<array<byte>, seq<byte>>, b: map<array<byte>, seq<byte>>, c: map<array<byte>, seq<byte>>, new_: multiset<array<byte>>)
    requires Grows(a, b) && Adds(b, c, new_)
    ensures Grows(a, c)
  {
  }

  // ---------------------------------------------------------------- repacking

  /** A part of the one allocation. */
  datatype Span = Span(off: nat, len: nat)

  datatype InS = InS(hash: seq<byte>, index: nat, sequence: nat, sig: Span, stack: seq<Span>)

  datatype OutS = OutS(value: int, pk: Span)

  /** A message whose scripts lie in one allocation. */
  datatype Packed = Packed(version: int, ins: seq<InS>, outs: seq<OutS>, lockTime: nat, scripts: array<byte>)

  predicate SpanIs(c: seq<byte>, sp: Span, s: seq<byte>) {
    sp.off + sp.len <= |c| && c[sp.off..sp.off + sp.len] == s
  }

  predicate StackIs(c: seq<byte>, sps: seq<Span>, w: seq<seq<byte>>) {
    |sps| == |w| && forall j :: 0 <= j < |w| ==> SpanIs(c, sps[j], w[j])
  }

  predicate InIs(c: seq<byte>, p: InS, ti: TxIn) {
    && p.hash == ti.hash && p.index == ti.index && p.sequence == ti.sequence
    && SpanIs(c, p.sig, ti.signatureScript) && StackIs(c, p.stack, ti.stack)
  }

  predicate InsAre(c: seq<byte>, ps: seq<InS>, ins: seq<TxIn>) {
    |ps| == |ins| && forall i :: 0 <= i < |ins| ==> InIs(c, ps[i], ins[i])
  }

  predicate OutsAre(c: seq<byte>, ps: seq<OutS>, outs: seq<TxOut>) {
    |ps| == |outs| && forall i :: 0 <= i < |outs| ==> ps[i].value == outs[i].value && SpanIs(c, ps[i].pk, outs[i].pkScript)
  }

  /** The message says the same as the transaction. */
  ghost predicate Represents(p: Packed, tx: MsgTx)
    reads p.scripts
  {
    && p.version == tx.version && p.lockTime == tx.lockTime
    && InsAre(p.scripts[..], p.ins, tx.ins) && OutsAre(p.scripts[..], p.outs, tx.outs)
  }

  /** The scripts of a message, in the order in which they are laid out. */
  function InsSpans(ps: seq<InS>): seq<Span> {
    if ps == [] then [] else InsSpans(ps[..|ps| - 1]) + ([ps[|ps| - 1].sig] + ps[|ps| - 1].stack)
  }

  function OutsSpans(ps: seq<OutS>): seq<Span> {
    if ps == [] then [] else OutsSpans(ps[..|ps| - 1]) + [ps[|ps| - 1].pk]
  }

  function AllSpans(p: Packed): seq<Span> {
    InsSpans(p.ins) + OutsSpans(p.outs)
  }

  /** The spans lie one behind the other, from 0 to `end`. */
  predicate Chain(sps: seq<Span>, end: nat) {
    if sps == [] then end == 0
    else
      var l := sps[|sps| - 1];
      l.off + l.len == end && Chain(sps[..|sps| - 1], l.off)
  }

  lemma ChainStep(sps: seq<Span>, end: nat, len: nat)
    requires Chain(sps, end)
    ensures Chain(sps + [Span(end, len)], end + len)
  {
    assert (sps + [Span(end, len)])[..|sps|] == sps;
  }

  /** No two scripts of a message share a byte, and all lie in the allocation. */
  lemma {:induction false} ChainApart(sps: seq<Span>, end: nat, i: nat, j: nat)
    requires Chain(sps, end) && i < j < |sps|
    ensures sps[i].off + sps[i].len <= sps[j].off && sps[j].off + sps[j].len <= end
    decreases |sps|
  {
    var n := |sps| - 1;
    if j < n {
      ChainApart(sps[..n], sps[n].off, i, j);
    } else {
      ChainEnds(sps[..n], sps[n].off, i);
    }
  }

  lemma {:induction false} ChainEnds(sps: seq<Span>, end: nat, i: nat)
    requires Chain(sps, end) && i < |sps|
    ensures sps[i].off + sps[i].len <= end
    decreases |sps|
  {
    var n := |sps| - 1;
    if i < n {
      ChainEnds(sps[..n], sps[n].off, i);
    }
  }

  lemma StaysSpan(c: seq<byte>, d: seq<byte>, sp: Span, s: seq<byte>)
    requires c <= d && SpanIs(c, sp, s)
    ensures SpanIs(d, sp, s)
  {
    assert d[sp.off..sp.off + sp.len] == d[..|c|][sp.off..sp.off + sp.len];
  }

  lemma StaysStack(c: seq<byte>, d: seq<byte>, sps: seq<Span>, w: seq<seq<byte>>)
    requires c <= d && StackIs(c, sps, w)
    ensures StackIs(d, sps, w)
  {
    forall j | 0 <= j < |w| ensures SpanIs(d, sps[j], w[j]) {
      StaysSpan(c, d, sps[j], w[j]);
    }
  }

  /** What has been written stays. */
  lemma StaysIns(c: seq<byte>, d: seq<byte>, ps: seq<InS>, ins: seq<TxIn>)
    requires c <= d && InsAre(c, ps, ins)
    ensures InsAre(d, ps, ins)
  {
    forall i | 0 <= i < |ins| ensures InIs(d, ps[i], ins[i]) {
      assert InIs(c, ps[i], ins[i]);
      StaysStack(c, d, ps[i].stack, ins[i].stack);
      StaysSpan(c, d, ps[i].sig, ins[i].signatureScript);
    }
  }

  lemma StaysOuts(c: seq<byte>, d: seq<byte>, ps: seq<OutS>, outs: seq<TxOut>)
    requires c <= d && OutsAre(c, ps, outs)
    ensures OutsAre(d, ps, outs)
  {
    forall i | 0 <= i < |outs| ensures SpanIs(d, ps[i].pk, outs[i].pkScript) {
      StaysSpan(c, d, ps[i].pk, outs[i].pkScript);
    }
  }

  /** The allocation is none of the pool's buffers. */
  ghost predicate Separate(pool: ScriptPool, scripts: array<byte>)
    reads pool
  {
    scripts !in pool.free && scripts !in pool.lent
  }

  /** The buffers `done` have been given back; what the others hold is in `lent0`. */
  ghost predicate Emptying(pool: ScriptPool, scripts: array<byte>, lent0: map<array<byte>, seq<byte>>,
                           done: multiset<array<byte>>, total: multiset<array<byte>>)
    reads pool, pool.free, pool.lent.Keys
  {
    && pool.Valid() && Separate(pool, scripts) && Grows(pool.lent, lent0) && Remaining(pool.lent, done, total)
  }

  /** Copies one script to its place and gives its buffer back. */
  method CopyOut(pool: ScriptPool, scripts: array<byte>, offset: nat, b: Option<Buf>,
                 ghost s: seq<byte>, ghost lent0: map<array<byte>, seq<byte>>, ghost done: multiset<array<byte>>, ghost total: multiset<array<byte>>)
    returns (sp: Span)
    requires Emptying(pool, scripts, lent0, done, total) && IsScript(lent0, b, s) && done + multiset(Arr(b)) <= total
    requires offset + |s| <= scripts.Length
    modifies pool, scripts
    ensures Emptying(pool, scripts, lent0, done + multiset(Arr(b)), total)
    ensures fresh(pool.Arrays() - old(pool.Arrays()))
    ensures sp == Span(offset, |s|) && scripts[..offset + |s|] == old(scripts[..offset]) + s
  {
    hide Remaining;
    assert multiset(Arr(b)) == multiset{b.value.a};
    OneBack(pool.lent, done, total, b.value.a);
    var a, n := b.value.a, b.value.len;
    assert a in pool.lent && a[..n] == s;
    ghost var c := scripts[..offset];
    forall k | 0 <= k < n {
      scripts[offset + k] := a[k];
    }
    assert scripts[offset..offset + n] == s;
    assert scripts[..offset + n] == c + s;
    GiveBack(pool, b, done, total);
    sp := Span(offset, n);
  }

  lemma {:induction false} StackSizePrefix(w: seq<seq<byte>>, j: nat)
    requires j <= |w|
    ensures StackSize(w[..j]) <= StackSize(w)
    decreases |w| - j
  {
    if j < |w| {
      StackSizePrefix(w, j + 1);
      assert w[..j + 1][..j] == w[..j];
    } else {
      assert w[..j] == w;
    }
  }

  /** Lays out one witness. */
  method PackStack(pool: ScriptPool, scripts: array<byte>, offset: nat, stack: seq<Option<Buf>>, ghost sps0: seq<Span>,
                   ghost w: seq<seq<byte>>, ghost lent0: map<array<byte>, seq<byte>>, ghost done: multiset<array<byte>>, ghost total: multiset<array<byte>>)
    returns (sps: seq<Span>, end: nat)
    requires Emptying(pool, scripts, lent0, done, total) && IsStack(lent0, stack, w) && done + multiset(Arrs(stack)) <= total
    requires Chain(sps0, offset) && offset + StackSize(w) <= scripts.Length
    modifies pool, scripts
    ensures Emptying(pool, scripts, lent0, done + multiset(Arrs(stack)), total)
    ensures fresh(pool.Arrays() - old(pool.Arrays()))
    ensures end == offset + StackSize(w) && Chain(sps0 + sps, end)
    ensures scripts[..offset] == old(scripts[..offset]) && StackIs(scripts[..end], sps, w)
  {
    hide Emptying, Arrs, Arr, Chain, StackSize, IsScript, StackIs;
    NoArrs(stack, done);
    sps, end := [], offset;
    PackStart(sps0, w);
    ghost var c, back, soFar := scripts[..offset], done, scripts[..offset];
    for j := 0 to |stack|
      invariant Emptying(pool, scripts, lent0, back, total) && back == done + multiset(Arrs(stack[..j]))
      invariant fresh(pool.Arrays() - old(pool.Arrays()))
      invariant end == offset + StackSize(w[..j]) <= scripts.Length && Chain(sps0 + sps, end)
      invariant scripts[..end] == soFar && c <= soFar && StackIs(soFar, sps, w[..j])
    {
      ArrsPrefix(stack, j + 1);
      ArrsNext(stack, j);
      MoreDone(done, multiset(Arrs(stack[..j])), multiset(Arr(stack[j])));
      OneItem(w, j);
      StackSizePrefix(w, j + 1);
      ItemPlaced(sps0, sps, end, |w[j]|);
      var sp := CopyOut(pool, scripts, end, stack[j], w[j], lent0, back, total);
      back := back + multiset(Arr(stack[j]));
      StackLonger(soFar, soFar + w[j], sps, w[..j], sp, w[j]);
      PrefixAndNext(w, j);
      soFar := soFar + w[j];
      sps := sps + [sp];
      end := end + sp.len;
    }
    assert stack[..|stack|] == stack && w[..|w|] == w;
    assert scripts[..offset] == scripts[..end][..offset] == c;
  }

  lemma ItemPlaced(sps0: seq<Span>, sps: seq<Span>, end: nat, len: nat)
    requires Chain(sps0 + sps, end)
    ensures Chain(sps0 + (sps + [Span(end, len)]), end + len)
  {
    hide Chain;
    ChainStep(sps0 + sps, end, len);
    Assoc3(sps0, sps, [Span(end, len)]);
  }

  lemma PackStart(sps0: seq<Span>, w: seq<seq<byte>>)
    ensures sps0 + [] == sps0 && StackSize(w[..0]) == 0
    ensures forall c: seq<byte> :: StackIs(c, [], w[..0])
  {
  }

  lemma OneItem(w: seq<seq<byte>>, j: nat)
    requires j < |w|
    ensures StackSize(w[..j + 1]) == StackSize(w[..j]) + |w[j]|
  {
    assert w[..j + 1][..j] == w[..j];
  }

  lemma StackLonger(c: seq<byte>, d: seq<byte>, sps: seq<Span>, w: seq<seq<byte>>, sp: Span, s: seq<byte>)
    requires StackIs(c, sps, w) && d == c + s && sp == Span(|c|, |s|)
    ensures StackIs(d, sps + [sp], w + [s])
  {
    StaysStack(c, d, sps, w);
    assert d[|c|..|c| + |s|] == s;
  }

  /** The room that the scripts of an input need. */
  function InSize(ti: TxIn): nat {
    |ti.signatureScript| + StackSize(ti.stack)
  }

  function InsSize(ins: seq<TxIn>): nat {
    if ins == [] then 0 else InsSize(ins[..|ins| - 1]) + InSize(ins[|ins| - 1])
  }

  lemma {:induction false} InsSizePrefix(ins: seq<TxIn>, i: nat)
    requires i <= |ins|
    ensures InsSize(ins[..i]) <= InsSize(ins)
    decreases |ins| - i
  {
    if i < |ins| {
      InsSizePrefix(ins, i + 1);
      assert ins[..i + 1][..i] == ins[..i];
    } else {
      assert ins[..i] == ins;
    }
  }

  lemma {:induction false} PkSizePrefix(outs: seq<TxOut>, i: nat)
    requires i <= |outs|
    ensures PkSize(outs[..i]) <= PkSize(outs)
    decreases |outs| - i
  {
    if i < |outs| {
      PkSizePrefix(outs, i + 1);
      assert outs[..i + 1][..i] == outs[..i];
    } else {
      assert outs[..i] == outs;
    }
  }

  /** Lays out one input. */
  method PackIn(pool: ScriptPool, scripts: array<byte>, offset: nat, ti: InB, ghost sps0: seq<Span>,
                ghost v: TxIn, ghost lent0: map<array<byte>, seq<byte>>, ghost done: multiset<array<byte>>, ghost total: multiset<array<byte>>)
    returns (p: InS, end: nat)
    requires Emptying(pool, scripts, lent0, done, total) && IsIn(lent0, ti, v) && done + multiset(InArrs(ti)) <= total
    requires Chain(sps0, offset) && offset + InSize(v) <= scripts.Length
    modifies pool, scripts
    ensures Emptying(pool, scripts, lent0, done + multiset(InArrs(ti)), total)
    ensures fresh(pool.Arrays() - old(pool.Arrays()))
    ensures end == offset + InSize(v) && Chain(sps0 + ([p.sig] + p.stack), end)
    ensures scripts[..offset] == old(scripts[..offset]) && InIs(scripts[..end], p, v)
  {
    hide Emptying, Arrs, Arr, Chain, StackSize, IsScript, IsStack, InArrs, StackIs;
    InParts(ti);
    MoreDone(done, multiset(Arr(ti.sig)), multiset(Arrs(ti.stack)));
    ghost var c := scripts[..offset];
    ChainStep(sps0, offset, |v.signatureScript|);
    var sig := CopyOut(pool, scripts, offset, ti.sig, v.signatureScript, lent0, done, total);
    ghost var d := scripts[..offset + sig.len];
    assert sig == Span(offset, |v.signatureScript|);
    assert done + multiset(Arr(ti.sig)) + multiset(Arrs(ti.stack)) == done + multiset(InArrs(ti));
    var stack;
    stack, end := PackStack(pool, scripts, offset + sig.len, ti.stack, sps0 + [sig], v.stack, lent0, done + multiset(Arr(ti.sig)), total);
    SigWritten(c, d, scripts[..end], sig, v.signatureScript);
    assert scripts[..offset] == d[..offset] by { PrefixOf(scripts, offset, offset + sig.len); }
    Assoc3(sps0, [sig], stack);
    p := InS(ti.hash, ti.index, ti.sequence, sig, stack);
  }

  lemma PrefixOf(a: array<byte>, m: nat, n: nat)
    requires m <= n <= a.Length
    ensures a[..m] == a[..n][..m] && a[..m] <= a[..n]
  {
  }

  lemma SigWritten(c: seq<byte>, d: seq<byte>, e: seq<byte>, sp: Span, s: seq<byte>)
    requires d == c + s && |d| <= |e| && e[..|d|] == d && sp == Span(|c|, |s|)
    ensures SpanIs(e, sp, s) && c <= e
  {
    assert e[|c|..|c| + |s|] == d[|c|..|c| + |s|] == s;
    assert e[..|c|] == d[..|c|] == c;
  }

  /** Lays out the inputs. */
  method PackIns(pool: ScriptPool, scripts: array<byte>, ins: seq<InB>,
                 ghost vals: seq<TxIn>, ghost lent0: map<array<byte>, seq<byte>>, ghost total: multiset<array<byte>>)
    returns (ps: seq<InS>, end: nat)
    requires Emptying(pool, scripts, lent0, multiset{}, total) && AreIns(lent0, ins, vals) && multiset(InsArrs(ins)) <= total
    requires InsSize(vals) <= scripts.Length
    modifies pool, scripts
    ensures Emptying(pool, scripts, lent0, multiset(InsArrs(ins)), total)
    ensures fresh(pool.Arrays() - old(pool.Arrays()))
    ensures end == InsSize(vals) && Chain(InsSpans(ps), end) && InsAre(scripts[..end], ps, vals)
  {
    hide Emptying, Chain, InSize, IsIn, InArrs, InsArrs, InsAre, InsSpans, InsSize;
    ps, end := [], 0;
    InsStart(ins, vals);
    for i := 0 to |ins|
      invariant Emptying(pool, scripts, lent0, multiset(InsArrs(ins[..i])), total)
      invariant fresh(pool.Arrays() - old(pool.Arrays()))
      invariant end == InsSize(vals[..i]) <= scripts.Length && Chain(InsSpans(ps), end) && InsAre(scripts[..end], ps, vals[..i])
    {
      ghost var before := scripts[..end];
      InsPrefix(ins, i + 1);
      InsNext(ins, i);
      InsSizePrefix(vals, i + 1);
      OneInSize(vals, i);
      var p, next := PackIn(pool, scripts, end, ins[i], InsSpans(ps), vals[i], lent0, multiset(InsArrs(ins[..i])), total);
      PrefixOf(scripts, end, next);
      InsLonger(before, scripts[..next], ps, vals, i, p);
      OneInSpans(ps, p);
      ps := ps + [p];
      end := next;
    }
    assert ins[..|ins|] == ins && vals[..|ins|] == vals;
  }

  lemma InsStart(ins: seq<InB>, vals: seq<TxIn>)
    ensures multiset(InsArrs(ins[..0])) == multiset{} && InsSize(vals[..0]) == 0 && InsSpans([]) == [] && Chain([], 0)
    ensures forall c: seq<byte> :: InsAre(c, [], vals[..0])
  {
  }

  lemma InsLonger(c: seq<byte>, d: seq<byte>, ps: seq<InS>, vals: seq<TxIn>, i: nat, p: InS)
    requires c <= d && i < |vals| && InsAre(c, ps, vals[..i]) && InIs(d, p, vals[i])
    ensures InsAre(d, ps + [p], vals[..i + 1])
  {
    hide InIs;
    StaysIns(c, d, ps, vals[..i]);
    assert vals[..i + 1] == vals[..i] + [vals[i]];
  }

  lemma OneInSize(vals: seq<TxIn>, i: nat)
    requires i < |vals|
    ensures InsSize(vals[..i + 1]) == InsSize(vals[..i]) + InSize(vals[i])
  {
    assert vals[..i + 1][..i] == vals[..i];
  }

  lemma OneInSpans(ps: seq<InS>, p: InS)
    ensures InsSpans(ps + [p]) == InsSpans(ps) + ([p.sig] + p.stack)
  {
    assert (ps + [p])[..|ps|] == ps;
  }

  /** Lays out the outputs, behind the inputs. */
  method PackOuts(pool: ScriptPool, scripts: array<byte>, offset: nat, outs: seq<OutB>, ghost sps0: seq<Span>,
                  ghost vals: seq<TxOut>, ghost lent0: map<array<byte>, seq<byte>>, ghost done: multiset<array<byte>>, ghost total: multiset<array<byte>>)
    returns (ps: seq<OutS>, end: nat)
    requires Emptying(pool, scripts, lent0, done, total) && AreOuts(lent0, outs, vals) && done + multiset(OutsArrs(outs)) <= total
    requires Chain(sps0, offset) && offset + PkSize(vals) <= scripts.Length
    modifies pool, scripts
    ensures Emptying(pool, scripts, lent0, done + multiset(OutsArrs(outs)), total)
    ensures fresh(pool.Arrays() - old(pool.Arrays()))
    ensures end == offset + PkSize(vals) && Chain(sps0 + OutsSpans(ps), end)
    ensures scripts[..offset] == old(scripts[..offset]) && OutsAre(scripts[..end], ps, vals)
  {
    hide Emptying, Chain, Arr, OutsArrs, OutsSpans, IsScript, PkSize, OutsAre;
    ps, end := [], offset;
    OutsStart(outs, vals, done, sps0);
    ghost var c, back, soFar := scripts[..offset], done, scripts[..offset];
    for i := 0 to |outs|
      invariant Emptying(pool, scripts, lent0, back, total) && back == done + multiset(OutsArrs(outs[..i]))
      invariant fresh(pool.Arrays() - old(pool.Arrays()))
      invariant end == offset + PkSize(vals[..i]) <= scripts.Length && Chain(sps0 + OutsSpans(ps), end)
      invariant scripts[..end] == soFar && c <= soFar && OutsAre(soFar, ps, vals[..i])
    {
      OutsPrefix(outs, i + 1);
      OutsNext(outs, i);
      MoreDone(done, multiset(OutsArrs(outs[..i])), multiset(Arr(outs[i].pk)));
      PkSizePrefix(vals, i + 1);
      OnePkSize(vals, i);
      var sp := CopyOut(pool, scripts, end, outs[i].pk, vals[i].pkScript, lent0, back, total);
      back := back + multiset(Arr(outs[i].pk));
      OutsLonger(soFar, soFar + vals[i].pkScript, ps, vals[..i], OutS(outs[i].value, sp), vals[i]);
      PrefixAndNext(vals, i);
      OutPlaced(sps0, ps, OutS(outs[i].value, sp), end);
      soFar := soFar + vals[i].pkScript;
      ps := ps + [OutS(outs[i].value, sp)];
      end := end + sp.len;
    }
    assert outs[..|outs|] == outs && vals[..|outs|] == vals;
    assert scripts[..offset] == scripts[..end][..offset] == c;
  }

  lemma OutsStart(outs: seq<OutB>, vals: seq<TxOut>, done: multiset<array<byte>>, sps0: seq<Span>)
    ensures done + multiset(OutsArrs(outs[..0])) == done && PkSize(vals[..0]) == 0 && sps0 + OutsSpans([]) == sps0
    ensures forall c: seq<byte> :: OutsAre(c, [], vals[..0])
  {
  }

  lemma OnePkSize(vals: seq<TxOut>, i: nat)
    requires i < |vals|
    ensures PkSize(vals[..i + 1]) == PkSize(vals[..i]) + |vals[i].pkScript|
  {
    assert vals[..i + 1][..i] == vals[..i];
  }

  lemma OneOutSpan(ps: seq<OutS>, p: OutS, sps0: seq<Span>)
    ensures sps0 + OutsSpans(ps + [p]) == (sps0 + OutsSpans(ps)) + [p.pk]
  {
    assert (ps + [p])[..|ps|] == ps;
  }

  lemma OutPlaced(sps0: seq<Span>, ps: seq<OutS>, p: OutS, end: nat)
    requires Chain(sps0 + OutsSpans(ps), end) && p.pk.off == end
    ensures Chain(sps0 + OutsSpans(ps + [p]), end + p.pk.len)
  {
    hide Chain, OutsSpans;
    ChainStep(sps0 + OutsSpans(ps), end, p.pk.len);
    OneOutSpan(ps, p, sps0);
  }

  lemma OutsLonger(c: seq<byte>, d: seq<byte>, ps: seq<OutS>, vals: seq<TxOut>, p: OutS, v: TxOut)
    requires OutsAre(c, ps, vals) && d == c + v.pkScript && p.pk == Span(|c|, |v.pkScript|) && p.value == v.value
    ensures OutsAre(d, ps + [p], vals + [v])
  {
    StaysOuts(c, d, ps, vals);
    assert d[|c|..|c| + |v.pkScript|] == v.pkScript;
  }

  /** The last step of decoding: one allocation for all scripts, and every borrowed buffer back to the pool. */
  method Repack(pool: ScriptPool, version: int, ins: seq<InB>, outs: seq<OutB>, lockTime: nat, size: nat, ghost tx: MsgTx)
    returns (p: Packed)
    requires pool.Valid() && Holds(pool.lent, ins, outs)
    requires AreIns(pool.lent, ins, tx.ins) && AreOuts(pool.lent, outs, tx.outs) && tx.version == version && tx.lockTime == lockTime
    requires size == InsSize(tx.ins) + PkSize(tx.outs)
    modifies pool
    ensures pool.Valid() && pool.lent == map[] && fresh(pool.Arrays() - old(pool.Arrays()))
    ensures fresh(p.scripts) && p.scripts !in pool.free && p.scripts.Length == size
    ensures Represents(p, tx) && Chain(AllSpans(p), size)
  {
    hide AreIns, AreOuts, Chain, InsArrs, OutsArrs, InsAre, OutsAre, ScriptPool.Valid, InsSpans, OutsSpans, InsSize, PkSize, Remaining, Holds, Total;
    var scripts := new byte[size];
    assert Separate(pool, scripts);
    NothingBack(pool.lent, ins, outs);
    GrowsNot(pool.lent);
    ghost var total := Total(ins, outs);
    var pins, pouts := LayOut(pool, scripts, ins, outs, tx, pool.lent, total);
    AllBack(pool.lent, total);
    p := Packed(version, pins, pouts, lockTime, scripts);
  }

  /** Lays out all scripts. */
  method LayOut(pool: ScriptPool, scripts: array<byte>, ins: seq<InB>, outs: seq<OutB>,
                ghost tx: MsgTx, ghost lent0: map<array<byte>, seq<byte>>, ghost total: multiset<array<byte>>)
    returns (pins: seq<InS>, pouts: seq<OutS>)
    requires Emptying(pool, scripts, lent0, multiset{}, total) && total == Total(ins, outs)
    requires AreIns(lent0, ins, tx.ins) && AreOuts(lent0, outs, tx.outs)
    requires scripts.Length == InsSize(tx.ins) + PkSize(tx.outs)
    modifies pool, scripts
    ensures Emptying(pool, scripts, lent0, total, total)
    ensures fresh(pool.Arrays() - old(pool.Arrays()))
    ensures InsAre(scripts[..], pins, tx.ins) && OutsAre(scripts[..], pouts, tx.outs)
    ensures Chain(InsSpans(pins) + OutsSpans(pouts), scripts.Length)
  {
    hide AreIns, AreOuts, Chain, InsArrs, OutsArrs, InsAre, OutsAre, InsSpans, OutsSpans, InsSize, PkSize, Emptying;
    var mid, end;
    pins, mid := PackIns(pool, scripts, ins, tx.ins, lent0, total);
    ghost var c := scripts[..mid];
    pouts, end := PackOuts(pool, scripts, mid, outs, InsSpans(pins), tx.outs, lent0, multiset(InsArrs(ins)), total);
    PrefixOf(scripts, mid, end);
    StaysIns(c, scripts[..end], pins, tx.ins);
    assert scripts[..end] == scripts[..];
  }

  lemma GrowsNot(lent: map<array<byte>, seq<byte>>)
    ensures Grows(lent, lent)
  {
  }

  // ---------------------------------------------------------------- decoding

  /** A message while its parts are being read: it holds the lent buffers, and these hold its scripts. */
  ghost predicate Partial(lent: map<array<byte>, seq<byte>>, ins: seq<InB>, outs: seq<OutB>, vals: seq<TxIn>, outVals: seq<TxOut>) {
    Holds(lent, ins, outs) && AreIns(lent, ins, vals) && AreOuts(lent, outs, outVals)
  }

  /** The outcome of decoding is the one prescribed; the pool has all its buffers back, unless there was a panic. */
  ghost predicate Decoded(pool: ScriptPool, r: Outcome<Parsed<Packed>>, spec: Outcome<Parsed<MsgTx>>)
    reads pool, pool.free, pool.lent.Keys, if r.Ok? then {r.value.value.scripts} else {}
  {
    && pool.Valid()
    && (r.Err? <==> spec.Err?) && (r.Panic? <==> spec.Panic?)
    && (!r.Panic? ==> pool.lent == map[])
    && (r.Ok? ==>
          && r.value.rest == spec.value.rest
          && Represents(r.value.value, spec.value.value)
          && Chain(AllSpans(r.value.value), r.value.value.scripts.Length)
          && r.value.value.scripts !in pool.free)
  }

  lemma BareSize(lent: map<array<byte>, seq<byte>>, ins: seq<InB>, vals: seq<TxIn>)
    requires AreIns(lent, ins, vals) && forall i :: 0 <= i < |ins| ==> ins[i].stack == []
    ensures forall i :: 0 <= i < |vals| ==> vals[i].stack == []
    ensures InsSize(vals) == SigSize(vals)
  {
    forall i | 0 <= i < |vals| ensures vals[i].stack == [] {
      assert IsIn(lent, ins[i], vals[i]);
    }
    NoStacks(vals);
  }

  lemma {:induction false} NoStacks(vals: seq<TxIn>)
    requires forall i :: 0 <= i < |vals| ==> vals[i].stack == []
    ensures InsSize(vals) == SigSize(vals)
    decreases |vals|
  {
    if vals != [] {
      NoStacks(vals[..|vals| - 1]);
    }
  }

  lemma {:induction false} AttachSize(bare: seq<TxIn>, ws: seq<seq<seq<byte>>>)
    requires |ws| == |bare|
    ensures InsSize(Attach(bare, ws)) == SigSize(bare) + StacksSize(ws)
    decreases |bare|
  {
    hide StackSize, Attach, InSize;
    if bare != [] {
      var n := |bare| - 1;
      AttachSize(bare[..n], ws[..n]);
      AttachLast(bare, ws, n);
    }
  }

  lemma AttachLast(bare: seq<TxIn>, ws: seq<seq<seq<byte>>>, n: nat)
    requires |ws| == |bare| == n + 1
    ensures Attach(bare, ws)[..n] == Attach(bare[..n], ws[..n])
    ensures InSize(Attach(bare, ws)[n]) == |bare[n].signatureScript| + StackSize(ws[n])
  {
    hide StackSize, Attach;
    var r, q := Attach(bare, ws), Attach(bare[..n], ws[..n]);
    forall i | 0 <= i < n ensures r[..n][i] == q[i] {
      assert bare[..n][i] == bare[i] && ws[..n][i] == ws[i];
    }
  }

  /** The lock time, and repacking. */
  method DecodeTail(pool: ScriptPool, bs: seq<byte>, version: int, ins: seq<InB>, outs: seq<OutB>, size: nat, ghost vals: seq<TxIn>, ghost outVals: seq<TxOut>)
    returns (r: Outcome<Parsed<Packed>>)
    requires pool.Valid() && Partial(pool.lent, ins, outs, vals, outVals) && size == InsSize(vals) + PkSize(outVals)
    modifies pool
    ensures Decoded(pool, r, ReadTail(bs, version, vals, outVals)) && fresh(pool.Arrays() - old(pool.Arrays()))
    ensures r.Ok? ==> fresh(r.value.value.scripts)
  {
    hide ReadUint, Holds, AreIns, AreOuts, InsSize, PkSize, ScriptPool.Valid, Chain, AllSpans, Represents;
    var l := ReadUint(bs, 4);
    if !l.Ok? {
      NeverPanics(bs, 4);
      ReturnScriptBuffers(pool, ins, outs);
      return Err;
    }
    var p := Repack(pool, version, ins, outs, l.value.value, size, MsgTx(version, vals, outVals, l.value.value));
    r := Ok(Parsed(p, l.value.rest));
  }

  lemma NeverPanics(bs: seq<byte>, n: nat)
    ensures !ReadUint(bs, n).Panic?
  {
  }

  /** The witnesses, if there are any, and the end. */
  method DecodeWitnesses(pool: ScriptPool, bs: seq<byte>, form: Form, version: int, ins: seq<InB>, outs: seq<OutB>, size: nat,
                         ghost vals: seq<TxIn>, ghost outVals: seq<TxOut>)
    returns (r: Outcome<Parsed<Packed>>)
    requires pool.Valid() && Partial(pool.lent, ins, outs, vals, outVals) && size == SigSize(vals) + PkSize(outVals)
    requires forall i :: 0 <= i < |ins| ==> ins[i].stack == []
    modifies pool, pool.free
    ensures Decoded(pool, r, ReadWitnesses(bs, form, version, vals, outVals)) && fresh(pool.Arrays() - old(pool.Arrays()))
    ensures r.Ok? ==> fresh(r.value.value.scripts)
  {
    hide AreIns, AreOuts, InsSize, PkSize, SigSize, ScriptPool.Valid, Chain, AllSpans, Represents, ReadTail, ReadStacks, Grows, StacksSize,
         InsArrs, OutsArrs, Attach;
    BareSize(pool.lent, ins, vals);
    var rest, all, total := bs, ins, size;
    ghost var allVals := vals;
    if form.Witness? {
      ghost var before := pool.lent;
      Commuted(multiset(InsArrs(ins)), multiset(OutsArrs(outs)));
      LengthOfIns(before, ins, vals);
      var x, more;
      x, all, more := ReadStacksInto(pool, bs, ins, vals, multiset(OutsArrs(outs)));
      if x.Panic? {
        return Panic;
      }
      Commuted(multiset(InsArrs(all)), multiset(OutsArrs(outs)));
      if x.Err? {
        ReturnScriptBuffers(pool, all, outs);
        return Err;
      }
      StillOuts(before, pool.lent, outs, outVals);
      ghost var ws := ReadStacks(bs, |vals|).value.value;
      AttachSize(vals, ws);
      allVals := Attach(vals, ws);
      rest, total := x.value, size + more;
    }
    r := DecodeTail(pool, rest, version, all, outs, total, allVals, outVals);
  }

  lemma Commuted(a: multiset<array<byte>>, b: multiset<array<byte>>)
    ensures a + b == b + a
  {
  }

  lemma LengthOfIns(lent: map<array<byte>, seq<byte>>, bs: seq<InB>, ins: seq<TxIn>)
    requires AreIns(lent, bs, ins)
    ensures |bs| == |ins|
  {
  }

  /** The outputs and what follows. */
  method DecodeRest(pool: ScriptPool, bs: seq<byte>, form: Form, version: int, ins: seq<InB>, size: nat, ghost vals: seq<TxIn>)
    returns (r: Outcome<Parsed<Packed>>)
    requires pool.Valid() && Partial(pool.lent, ins, [], vals, []) && size == SigSize(vals)
    requires forall i :: 0 <= i < |ins| ==> ins[i].stack == []
    modifies pool, pool.free
    ensures Decoded(pool, r, ReadRest(bs, form, version, vals)) && fresh(pool.Arrays() - old(pool.Arrays()))
    ensures r.Ok? ==> fresh(r.value.value.scripts)
  {
    hide AreIns, AreOuts, PkSize, SigSize, ScriptPool.Valid, Chain, AllSpans, Represents, ReadWitnesses, ReadOuts, ReadVarInt, Grows,
         InsArrs, OutsArrs;
    var n := ReadVarInt(bs);
    if n.Panic? {
      return Panic;
    }
    if n.Err? {
      ReturnScriptBuffers(pool, ins, []);
      return Err;
    }
    if n.value.value > MAX_OUTS {
      ReturnScriptBuffers(pool, ins, []);
      return Err;
    }
    ghost var before := pool.lent;
    var x, outs, more := ReadOutsInto(pool, n.value.rest, n.value.value);
    if x.Panic? {
      return Panic;
    }
    NowWithOuts(before, pool.lent, ins, outs, vals);
    if x.Err? {
      ReturnScriptBuffers(pool, ins, outs);
      return Err;
    }
    r := DecodeWitnesses(pool, x.value, form, version, ins, outs, size + more, vals, ReadOuts(n.value.rest, n.value.value).value.value);
  }

  lemma NowWithOuts(before: map<array<byte>, seq<byte>>, after: map<array<byte>, seq<byte>>, ins: seq<InB>, outs: seq<OutB>, vals: seq<TxIn>)
    requires Holds(before, ins, []) && AreIns(before, ins, vals) && Adds(before, after, multiset(OutsArrs(outs)))
    ensures Holds(after, ins, outs) && AreIns(after, ins, vals)
  {
    hide InsArrs;
    StillIns(before, after, ins, vals);
    assert OutsArrs([]) == [];
    assert multiset(InsArrs(ins)) + multiset{} == multiset(InsArrs(ins));
  }

  /** The inputs and what follows. */
  method DecodeBody(pool: ScriptPool, bs: seq<byte>, form: Form, version: int, count: nat) returns (r: Outcome<Parsed<Packed>>)
    requires pool.Valid() && pool.lent == map[]
    modifies pool, pool.free
    ensures Decoded(pool, r, ReadBody(bs, form, version, count)) && fresh(pool.Arrays() - old(pool.Arrays()))
    ensures r.Ok? ==> fresh(r.value.value.scripts)
  {
    hide AreIns, AreOuts, SigSize, ScriptPool.Valid, Chain, AllSpans, Represents, ReadRest, ReadIns, Grows, InsArrs;
    if count > MAX_INS {
      return Panic;
    }
    var x, ins, size := ReadInsInto(pool, bs, count);
    if x.Panic? {
      return Panic;
    }
    NowWithIns(pool.lent, ins);
    if x.Err? {
      ReturnScriptBuffers(pool, ins, []);
      return Err;
    }
    NoOutsYet(pool.lent);
    r := DecodeRest(pool, x.value, form, version, ins, size, ReadIns(bs, count).value.value);
  }

  lemma NowWithIns(lent: map<array<byte>, seq<byte>>, ins: seq<InB>)
    requires Adds(map[], lent, multiset(InsArrs(ins)))
    ensures Holds(lent, ins, [])
  {
    hide InsArrs;
    assert OutsArrs([]) == [];
    var none: map<array<byte>, seq<byte>> := map[];
    assert multiset(none.Keys) == multiset{};
  }

  lemma NoOutsYet(lent: map<array<byte>, seq<byte>>)
    ensures AreOuts(lent, [], [])
  {
  }

  /**
   `BtcDecode`.  Every buffer that it borrows is offered back exactly once on every path that does
   not panic; on success the scripts lie one behind the other in one new allocation.
   */
  method BtcDecode(pool: ScriptPool, bs: seq<byte>) returns (r: Outcome<Parsed<Packed>>)
    requires pool.Valid() && pool.lent == map[]
    modifies pool, pool.free
    ensures pool.Valid() && fresh(pool.Arrays() - old(pool.Arrays()))
    ensures r.Err? <==> Decode(bs).Err?
    ensures r.Panic? <==> Decode(bs).Panic?
    ensures !r.Panic? ==> pool.lent == map[]
    ensures r.Ok? ==> Decode(bs).Ok? && r.value.rest == Decode(bs).value.rest && Represents(r.value.value, Decode(bs).value.value)
    ensures r.Ok? ==> Chain(AllSpans(r.value.value), r.value.value.scripts.Length)
    ensures r.Ok? ==> fresh(r.value.value.scripts) && r.value.value.scripts !in pool.free
  {
    hide ScriptPool.Valid, Chain, AllSpans, Represents, ReadBody, ReadVarInt;
    var v := ReadUint(bs, 4);
    if v.Err? {
      return Err;
    }
    ReadUintBound(bs, 4);
    var version := ToSigned(v.value.value, 4);
    var n := ReadVarInt(v.value.rest);
    if !n.Ok? {
      r := if n.Err? then Err else Panic;
      return;
    }
    var form, count, rest := Legacy, n.value.value, n.value.rest;
    if count == 0 {
      if rest == [] {
        return Err;
      }
      if rest[0] != 1 {
        return Panic;
      }
      form := Witness;
      var m := ReadVarInt(rest[1..]);
      if !m.Ok? {
        r := if m.Err? then Err else Panic;
        return;
      }
      count, rest := m.value.value, m.value.rest;
    }
    r := DecodeBody(pool, rest, form, version, count);
  }
}
