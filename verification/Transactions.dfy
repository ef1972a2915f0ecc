/** Bitcoin transactions and their wire encoding, with and without witnesses (BIP 144, section "Specification"). */
module Transactions {
  import opened Bytes
  import opened Wrappers
  import opened VarInts

  datatype TxIn = TxIn(hash: seq<byte>, index: nat, signatureScript: seq<byte>, sequence: nat, stack: seq<seq<byte>>)

  datatype TxOut = TxOut(value: int, pkScript: seq<byte>)

  datatype MsgTx = MsgTx(version: int, ins: seq<TxIn>, outs: seq<TxOut>, lockTime: nat)

  /** The two encodings of a transaction. */
  datatype Form = Legacy | Witness

  const MAX_INS := 1000
  const MAX_OUTS := 1000
  const MAX_SCRIPT := 10000
  const MAX_WITNESS_ITEMS := 100
  const MAX_WITNESS_ITEM := 1000

  // ---------------------------------------------------------------- encoding

  function WriteScript(s: seq<byte>): seq<byte>
    requires |s| < UINT64_MODULUS
  {
    WriteVarInt(|s|) + s
  }

  /** The fields fit, and the scripts are within the limits of the decoder. */
  predicate FitsIn(ti: TxIn) {
    && |ti.hash| == 32 && ti.index < Pow256(4) && ti.sequence < Pow256(4) && |ti.signatureScript| <= 10000
    && FitsStack(ti.stack)
  }

  predicate FitsStack(w: seq<seq<byte>>) {
    |w| <= 100 && forall j :: 0 <= j < |w| ==> |w[j]| <= 1000
  }

  predicate FitsOut(to: TxOut) {
    && -2 * to.value <= Pow256(8) && 2 * to.value < Pow256(8)
    && |to.pkScript| <= 10000
  }

  /** A transaction that the decoder accepts in the given form, if only it is not taken for the other one. */
  predicate InLimits(tx: MsgTx, form: Form) {
    && -2 * tx.version <= Pow256(4) && 2 * tx.version < Pow256(4) && tx.lockTime < Pow256(4)
    && |tx.ins| <= 1000 && |tx.outs| <= 1000
    && (forall i :: 0 <= i < |tx.ins| ==> FitsIn(tx.ins[i]) && (form.Legacy? ==> tx.ins[i].stack == []))
    && (forall i :: 0 <= i < |tx.outs| ==> FitsOut(tx.outs[i]))
  }

  function WriteIn(ti: TxIn): seq<byte>
    requires FitsIn(ti)
  {
    ti.hash + (LE(ti.index, 4) + (WriteScript(ti.signatureScript) + LE(ti.sequence, 4)))
  }

  function WriteIns(ins: seq<TxIn>): seq<byte>
    requires forall i :: 0 <= i < |ins| ==> FitsIn(ins[i])
  {
    if ins == [] then [] else WriteIn(ins[0]) + WriteIns(ins[1..])
  }

  function WriteOut(to: TxOut): seq<byte>
    requires FitsOut(to)
  {
    LE(ToUnsigned(to.value, 8), 8) + WriteScript(to.pkScript)
  }

  function WriteOuts(outs: seq<TxOut>): seq<byte>
    requires forall i :: 0 <= i < |outs| ==> FitsOut(outs[i])
  {
    if outs == [] then [] else WriteOut(outs[0]) + WriteOuts(outs[1..])
  }

  function WriteItems(w: seq<seq<byte>>): seq<byte>
    requires forall j :: 0 <= j < |w| ==> |w[j]| <= MAX_WITNESS_ITEM
  {
    if w == [] then [] else WriteScript(w[0]) + WriteItems(w[1..])
  }

  function WriteStack(w: seq<seq<byte>>): seq<byte>
    requires FitsStack(w)
  {
    WriteVarInt(|w|) + WriteItems(w)
  }

  function WriteStacks(ws: seq<seq<seq<byte>>>): seq<byte>
    requires forall i :: 0 <= i < |ws| ==> FitsStack(ws[i])
  {
    if ws == [] then [] else WriteStack(ws[0]) + WriteStacks(ws[1..])
  }

  function Stacks(ins: seq<TxIn>): (ws: seq<seq<seq<byte>>>)
    ensures |ws| == |ins| && forall i :: 0 <= i < |ins| ==> ws[i] == ins[i].stack
  {
    if ins == [] then [] else [ins[0].stack] + Stacks(ins[1..])
  }

  /** Witnesses, if the form has them, and the lock time. */
  function WriteTail(tx: MsgTx, form: Form): seq<byte>
    requires InLimits(tx, form)
  {
    (if form.Witness? then WriteStacks(Stacks(tx.ins)) else []) + LE(tx.lockTime, 4)
  }

  /** Outputs and what follows. */
  function WriteRest(tx: MsgTx, form: Form): seq<byte>
    requires InLimits(tx, form)
  {
    WriteVarInt(|tx.outs|) + (WriteOuts(tx.outs) + WriteTail(tx, form))
  }

  /** BIP 144: version, marker and flag, inputs, outputs, witnesses, lock time; the form without marker and flag has no witnesses. */
  function Serialize(tx: MsgTx, form: Form): seq<byte>
    requires InLimits(tx, form)
  {
    LE(ToUnsigned(tx.version, 4), 4)
    + ((if form.Witness? then [0, 1] else []) + (WriteVarInt(|tx.ins|) + (WriteIns(tx.ins) + WriteRest(tx, form))))
  }

  // ---------------------------------------------------------------- decoding

  /** `readScript`. */
  function ReadScript(bs: seq<byte>, max: nat): Outcome<Parsed<seq<byte>>> {
    match ReadVarInt(bs)
    case Err => Err
    case Panic => Panic
    case Ok(n) => if n.value > max then Err else ReadBytes(n.rest, n.value)
  }

  /** `readTxIn`, after the previous outpoint. */
  function ReadInScript(bs: seq<byte>, hash: seq<byte>, index: nat): Outcome<Parsed<TxIn>> {
    match ReadScript(bs, MAX_SCRIPT)
    case Err => Err
    case Panic => Panic
    case Ok(s) =>
      match ReadUint(s.rest, 4)
      case Err => Err
      case Panic => Panic
      case Ok(q) => Ok(Parsed(TxIn(hash, index, s.value, q.value, []), q.rest))
  }

  /** `readTxIn`. */
  function ReadIn(bs: seq<byte>): Outcome<Parsed<TxIn>> {
    match ReadBytes(bs, 32)
    case Err => Err
    case Panic => Panic
    case Ok(h) =>
      match ReadUint(h.rest, 4)
      case Err => Err
      case Panic => Panic
      case Ok(i) => ReadInScript(i.rest, h.value, i.value)
  }

  function ReadIns(bs: seq<byte>, n: nat): Outcome<Parsed<seq<TxIn>>>
    decreases n
  {
    if n == 0 then Ok(Parsed([], bs))
    else
      match ReadIn(bs)
      case Err => Err
      case Panic => Panic
      case Ok(ti) =>
        match ReadIns(ti.rest, n - 1)
        case Err => Err
        case Panic => Panic
        case Ok(r) => Ok(Parsed([ti.value] + r.value, r.rest))
  }

  /** `readTxOut`. */
  function ReadOut(bs: seq<byte>): Outcome<Parsed<TxOut>> {
    match ReadUint(bs, 8)
    case Err => Err
    case Panic => Panic
    case Ok(v) =>
      match ReadScript(v.rest, MAX_SCRIPT)
      case Err => Err
      case Panic => Panic
      case Ok(s) =>
        ReadUintBound(bs, 8);
        Ok(Parsed(TxOut(ToSigned(v.value, 8), s.value), s.rest))
  }

  lemma ReadUintBound(bs: seq<byte>, n: nat)
    ensures ReadUint(bs, n).Ok? ==> ReadUint(bs, n).value.value < Pow256(n)
  {
    if |bs| >= n {
      LEOfFromLE(bs[..n]);
    }
  }

  function ReadOuts(bs: seq<byte>, n: nat): Outcome<Parsed<seq<TxOut>>>
    decreases n
  {
    if n == 0 then Ok(Parsed([], bs))
    else
      match ReadOut(bs)
      case Err => Err
      case Panic => Panic
      case Ok(to) =>
        match ReadOuts(to.rest, n - 1)
        case Err => Err
        case Panic => Panic
        case Ok(r) => Ok(Parsed([to.value] + r.value, r.rest))
  }

  function ReadItems(bs: seq<byte>, n: nat): Outcome<Parsed<seq<seq<byte>>>>
    decreases n
  {
    if n == 0 then Ok(Parsed([], bs))
    else
      match ReadScript(bs, MAX_WITNESS_ITEM)
      case Err => Err
      case Panic => Panic
      case Ok(s) =>
        match ReadItems(s.rest, n - 1)
        case Err => Err
        case Panic => Panic
        case Ok(r) => Ok(Parsed([s.value] + r.value, r.rest))
  }

  function ReadStack(bs: seq<byte>): Outcome<Parsed<seq<seq<byte>>>> {
    match ReadVarInt(bs)
    case Err => Err
    case Panic => Panic
    case Ok(n) => if n.value > MAX_WITNESS_ITEMS then Err else ReadItems(n.rest, n.value)
  }

  function ReadStacks(bs: seq<byte>, n: nat): (r: Outcome<Parsed<seq<seq<seq<byte>>>>>)
    ensures r.Ok? ==> |r.value.value| == n
    decreases n
  {
    if n == 0 then Ok(Parsed([], bs))
    else
      match ReadStack(bs)
      case Err => Err
      case Panic => Panic
      case Ok(w) =>
        match ReadStacks(w.rest, n - 1)
        case Err => Err
        case Panic => Panic
        case Ok(r) => Ok(Parsed([w.value] + r.value, r.rest))
  }

  /** The inputs with their witnesses. */
  function Attach(ins: seq<TxIn>, ws: seq<seq<seq<byte>>>): (r: seq<TxIn>)
    requires |ws| == |ins|
    ensures |r| == |ins| && forall i :: 0 <= i < |ins| ==> r[i] == ins[i].(stack := ws[i])
  {
    if ins == [] then [] else [ins[0].(stack := ws[0])] + Attach(ins[1..], ws[1..])
  }

  /** The end of a transaction. */
  function ReadTail(bs: seq<byte>, version: int, ins: seq<TxIn>, outs: seq<TxOut>): Outcome<Parsed<MsgTx>> {
    match ReadUint(bs, 4)
    case Err => Err
    case Panic => Panic
    case Ok(l) => Ok(Parsed(MsgTx(version, ins, outs, l.value), l.rest))
  }

  /** Witnesses, if there are any, and the end. */
  function ReadWitnesses(bs: seq<byte>, form: Form, version: int, ins: seq<TxIn>, outs: seq<TxOut>): Outcome<Parsed<MsgTx>> {
    if form.Legacy? then ReadTail(bs, version, ins, outs)
    else
      match ReadStacks(bs, |ins|)
      case Err => Err
      case Panic => Panic
      case Ok(ws) => ReadTail(ws.rest, version, Attach(ins, ws.value), outs)
  }

  /** Outputs and what follows. */
  function ReadRest(bs: seq<byte>, form: Form, version: int, ins: seq<TxIn>): Outcome<Parsed<MsgTx>> {
    match ReadVarInt(bs)
    case Err => Err
    case Panic => Panic
    case Ok(n) =>
      if n.value > MAX_OUTS then Err
      else
        match ReadOuts(n.rest, n.value)
        case Err => Err
        case Panic => Panic
        case Ok(outs) => ReadWitnesses(outs.rest, form, version, ins, outs.value)
  }

  /** Inputs and what follows, once their number is known. */
  function ReadBody(bs: seq<byte>, form: Form, version: int, count: nat): Outcome<Parsed<MsgTx>> {
    if count > MAX_INS then Panic
    else
      match ReadIns(bs, count)
      case Err => Err
      case Panic => Panic
      case Ok(ins) => ReadRest(ins.rest, form, version, ins.value)
  }

  /** The flag byte behind an input count of zero, and what follows. */
  function ReadFlagged(bs: seq<byte>, version: int): Outcome<Parsed<MsgTx>> {
    if bs == [] then Err
    else if bs[0] != 1 then Panic
    else
      match ReadVarInt(bs[1..])
      case Err => Err
      case Panic => Panic
      case Ok(n) => ReadBody(n.rest, Witness, version, n.value)
  }

  /** `BtcDecode`. */
  function Decode(bs: seq<byte>): Outcome<Parsed<MsgTx>> {
    match ReadUint(bs, 4)
    case Err => Err
    case Panic => Panic
    case Ok(v) =>
      match ReadVarInt(v.rest)
      case Err => Err
      case Panic => Panic
      case Ok(n) =>
        ReadUintBound(bs, 4);
        if n.value == 0 then ReadFlagged(n.rest, ToSigned(v.value, 4))
        else ReadBody(n.rest, Legacy, ToSigned(v.value, 4), n.value)
  }

  /** The form in which a decoder takes the input to be. */
  function FormOf(bs: seq<byte>): Form {
    if |bs| > 4 && bs[4] == 0 then Witness else Legacy
  }

  // ---------------------------------------------------------------- each reader accepts exactly what its writer produces

  lemma ScriptExactly(bs: seq<byte>, max: nat, v: seq<byte>, rest: seq<byte>)
    requires max < UINT64_MODULUS
    ensures ReadScript(bs, max) == Ok(Parsed(v, rest)) <==> |v| <= max && bs == WriteScript(v) + rest
  {
    hide WriteVarInt, ReadVarInt, ReadBytes;
    VarIntExactly(bs, |v|, v + rest);
    if ReadVarInt(bs).Ok? {
      var n := ReadVarInt(bs).value;
      VarIntExactly(bs, n.value, n.rest);
      BytesExactly(n.rest, n.value, v, rest);
    }
    if |v| < UINT64_MODULUS {
      BytesExactly(v + rest, |v|, v, rest);
      assert WriteVarInt(|v|) + (v + rest) == WriteScript(v) + rest;
    }
  }

  lemma InScriptExactly(bs: seq<byte>, hash: seq<byte>, index: nat, ti: TxIn, rest: seq<byte>)
    ensures ReadInScript(bs, hash, index) == Ok(Parsed(ti, rest))
       <==> ti.hash == hash && ti.index == index && ti.stack == [] && |ti.signatureScript| <= MAX_SCRIPT && ti.sequence < Pow256(4)
            && bs == (WriteScript(ti.signatureScript) + LE(ti.sequence, 4)) + rest
  {
    hide WriteScript, ReadScript, ReadUint, LE, Pow256;
    var q := LE(ti.sequence, 4) + rest;
    ScriptExactly(bs, MAX_SCRIPT, ti.signatureScript, q);
    UintExactly(q, 4, ti.sequence, rest);
    if |ti.signatureScript| <= MAX_SCRIPT {
      Assoc3(WriteScript(ti.signatureScript), LE(ti.sequence, 4), rest);
    }
    if ReadScript(bs, MAX_SCRIPT).Ok? {
      var s := ReadScript(bs, MAX_SCRIPT).value;
      ScriptExactly(bs, MAX_SCRIPT, s.value, s.rest);
      UintExactly(s.rest, 4, ti.sequence, rest);
    }
  }

  lemma InExactly(bs: seq<byte>, ti: TxIn, rest: seq<byte>)
    ensures ReadIn(bs) == Ok(Parsed(ti, rest)) <==> FitsIn(ti) && ti.stack == [] && bs == WriteIn(ti) + rest
  {
    hide WriteScript, ReadInScript, ReadUint, ReadBytes, LE, Pow256;
    if |ti.signatureScript| <= MAX_SCRIPT {
      var s := WriteScript(ti.signatureScript) + LE(ti.sequence, 4);
      var i := LE(ti.index, 4) + (s + rest);
      BytesExactly(bs, 32, ti.hash, i);
      UintExactly(i, 4, ti.index, s + rest);
      InScriptExactly(s + rest, ti.hash, ti.index, ti, rest);
      Assoc3(LE(ti.index, 4), s, rest);
      Assoc3(ti.hash, LE(ti.index, 4) + s, rest);
    }
    if ReadBytes(bs, 32).Ok? {
      var h := ReadBytes(bs, 32).value;
      BytesExactly(bs, 32, h.value, h.rest);
      if ReadUint(h.rest, 4).Ok? {
        var i := ReadUint(h.rest, 4).value;
        UintExactly(h.rest, 4, i.value, i.rest);
        InScriptExactly(i.rest, h.value, i.value, ti, rest);
      }
    }
  }

  /** The inputs as they are before their witnesses are read. */
  predicate BareIns(ins: seq<TxIn>) {
    forall i :: 0 <= i < |ins| ==> FitsIn(ins[i]) && ins[i].stack == []
  }

  lemma {:induction false} InsExactly(bs: seq<byte>, n: nat, ins: seq<TxIn>, rest: seq<byte>)
    ensures ReadIns(bs, n) == Ok(Parsed(ins, rest)) <==> |ins| == n && BareIns(ins) && bs == WriteIns(ins) + rest
    decreases n
  {
    hide ReadIn, WriteIn, FitsIn;
    if n == 0 {
      assert [] + rest == rest && [] + bs == bs;
    } else {
      if |ins| == n && BareIns(ins) && bs == WriteIns(ins) + rest {
        assert BareIns(ins[1..]);
        var t := WriteIns(ins[1..]) + rest;
        Assoc3(WriteIn(ins[0]), WriteIns(ins[1..]), rest);
        InExactly(bs, ins[0], t);
        InsExactly(t, n - 1, ins[1..], rest);
        assert ins == [ins[0]] + ins[1..];
      }
      if ReadIns(bs, n) == Ok(Parsed(ins, rest)) {
        var ti := ReadIn(bs).value;
        var r := ReadIns(ti.rest, n - 1).value;
        InExactly(bs, ti.value, ti.rest);
        InsExactly(ti.rest, n - 1, r.value, rest);
        assert ins[1..] == r.value;
        assert forall i :: 1 <= i < |ins| ==> ins[i] == r.value[i - 1];
        Assoc3(WriteIn(ti.value), WriteIns(r.value), rest);
      }
    }
  }

  lemma OutExactly(bs: seq<byte>, to: TxOut, rest: seq<byte>)
    ensures ReadOut(bs) == Ok(Parsed(to, rest)) <==> FitsOut(to) && bs == WriteOut(to) + rest
  {
    hide WriteScript, ReadScript, ReadUint, LE, Pow256;
    if FitsOut(to) {
      var s := WriteScript(to.pkScript) + rest;
      UintExactly(bs, 8, ToUnsigned(to.value, 8), s);
      ScriptExactly(s, MAX_SCRIPT, to.pkScript, rest);
      Assoc3(LE(ToUnsigned(to.value, 8), 8), WriteScript(to.pkScript), rest);
      SignedOfUnsigned(to.value, 8);
    }
    if ReadUint(bs, 8).Ok? {
      var v := ReadUint(bs, 8).value;
      UintExactly(bs, 8, v.value, v.rest);
      ScriptExactly(v.rest, MAX_SCRIPT, to.pkScript, rest);
    }
  }

  lemma SignedOfUnsigned(x: int, w: nat)
    requires -2 * x <= Pow256(w) && 2 * x < Pow256(w)
    ensures ToUnsigned(x, w) < Pow256(w) && ToSigned(ToUnsigned(x, w), w) == x
  {
  }

  lemma {:induction false} OutsExactly(bs: seq<byte>, n: nat, outs: seq<TxOut>, rest: seq<byte>)
    ensures ReadOuts(bs, n) == Ok(Parsed(outs, rest))
       <==> |outs| == n && (forall i :: 0 <= i < |outs| ==> FitsOut(outs[i])) && bs == WriteOuts(outs) + rest
    decreases n
  {
    hide ReadOut, WriteOut, FitsOut;
    if n == 0 {
      assert [] + rest == rest && [] + bs == bs;
    } else {
      if |outs| == n && (forall i :: 0 <= i < |outs| ==> FitsOut(outs[i])) && bs == WriteOuts(outs) + rest {
        assert forall i :: 0 <= i < |outs[1..]| ==> FitsOut(outs[1..][i]);
        var t := WriteOuts(outs[1..]) + rest;
        Assoc3(WriteOut(outs[0]), WriteOuts(outs[1..]), rest);
        OutExactly(bs, outs[0], t);
        OutsExactly(t, n - 1, outs[1..], rest);
        assert outs == [outs[0]] + outs[1..];
      }
      if ReadOuts(bs, n) == Ok(Parsed(outs, rest)) {
        var to := ReadOut(bs).value;
        var r := ReadOuts(to.rest, n - 1).value;
        OutExactly(bs, to.value, to.rest);
        OutsExactly(to.rest, n - 1, r.value, rest);
        assert outs[1..] == r.value;
        assert forall i :: 1 <= i < |outs| ==> outs[i] == r.value[i - 1];
        Assoc3(WriteOut(to.value), WriteOuts(r.value), rest);
      }
    }
  }

  lemma {:induction false} ItemsRead(n: nat, w: seq<seq<byte>>, rest: seq<byte>)
    requires |w| == n && forall j :: 0 <= j < |w| ==> |w[j]| <= MAX_WITNESS_ITEM
    ensures ReadItems(WriteItems(w) + rest, n) == Ok(Parsed(w, rest))
    decreases n
  {
    hide ReadScript, WriteScript;
    if n == 0 {
      assert [] + rest == rest;
    } else {
      assert forall j :: 0 <= j < |w[1..]| ==> |w[1..][j]| <= MAX_WITNESS_ITEM;
      var t := WriteItems(w[1..]) + rest;
      Assoc3(WriteScript(w[0]), WriteItems(w[1..]), rest);
      ScriptExactly(WriteItems(w) + rest, MAX_WITNESS_ITEM, w[0], t);
      ItemsRead(n - 1, w[1..], rest);
      FirstAndRest(w);
    }
  }

  lemma {:induction false} ItemsWritten(bs: seq<byte>, n: nat)
    requires ReadItems(bs, n).Ok?
    ensures var r := ReadItems(bs, n).value;
      |r.value| == n && (forall j :: 0 <= j < |r.value| ==> |r.value[j]| <= MAX_WITNESS_ITEM) && bs == WriteItems(r.value) + r.rest
    decreases n
  {
    hide ReadScript, WriteScript;
    if n == 0 {
      assert [] + bs == bs;
    } else {
      var s := ReadScript(bs, MAX_WITNESS_ITEM).value;
      var r := ReadItems(s.rest, n - 1).value;
      ScriptExactly(bs, MAX_WITNESS_ITEM, s.value, s.rest);
      ItemsWritten(s.rest, n - 1);
      assert ([s.value] + r.value)[1..] == r.value;
      Assoc3(WriteScript(s.value), WriteItems(r.value), r.rest);
    }
  }

  /** The items of a witness are read exactly as they were written. */
  lemma ItemsExactly(bs: seq<byte>, n: nat, w: seq<seq<byte>>, rest: seq<byte>)
    ensures ReadItems(bs, n) == Ok(Parsed(w, rest))
       <==> |w| == n && (forall j :: 0 <= j < |w| ==> |w[j]| <= MAX_WITNESS_ITEM) && bs == WriteItems(w) + rest
  {
    hide ReadItems, WriteItems;
    if |w| == n && forall j :: 0 <= j < |w| ==> |w[j]| <= MAX_WITNESS_ITEM {
      ItemsRead(n, w, rest);
    }
    if ReadItems(bs, n).Ok? {
      ItemsWritten(bs, n);
    }
  }

  lemma StackExactly(bs: seq<byte>, w: seq<seq<byte>>, rest: seq<byte>)
    ensures ReadStack(bs) == Ok(Parsed(w, rest)) <==> FitsStack(w) && bs == WriteStack(w) + rest
  {
    hide WriteVarInt, ReadVarInt, ReadItems, WriteItems;
    if FitsStack(w) {
      VarIntExactly(bs, |w|, WriteItems(w) + rest);
      ItemsExactly(WriteItems(w) + rest, |w|, w, rest);
      Assoc3(WriteVarInt(|w|), WriteItems(w), rest);
    }
    if ReadVarInt(bs).Ok? {
      var n := ReadVarInt(bs).value;
      VarIntExactly(bs, n.value, n.rest);
      ItemsExactly(n.rest, n.value, w, rest);
    }
  }

  lemma {:induction false} StacksExactly(bs: seq<byte>, n: nat, ws: seq<seq<seq<byte>>>, rest: seq<byte>)
    ensures ReadStacks(bs, n) == Ok(Parsed(ws, rest))
       <==> |ws| == n && (forall i :: 0 <= i < |ws| ==> FitsStack(ws[i])) && bs == WriteStacks(ws) + rest
    decreases n
  {
    hide ReadStack, WriteStack, FitsStack;
    if n == 0 {
      assert [] + rest == rest && [] + bs == bs;
    } else {
      if |ws| == n && (forall i :: 0 <= i < |ws| ==> FitsStack(ws[i])) && bs == WriteStacks(ws) + rest {
        assert forall i :: 0 <= i < |ws[1..]| ==> FitsStack(ws[1..][i]);
        var t := WriteStacks(ws[1..]) + rest;
        Assoc3(WriteStack(ws[0]), WriteStacks(ws[1..]), rest);
        StackExactly(bs, ws[0], t);
        StacksExactly(t, n - 1, ws[1..], rest);
        assert ws == [ws[0]] + ws[1..];
      }
      if ReadStacks(bs, n) == Ok(Parsed(ws, rest)) {
        var w := ReadStack(bs).value;
        var r := ReadStacks(w.rest, n - 1).value;
        StackExactly(bs, w.value, w.rest);
        StacksExactly(w.rest, n - 1, r.value, rest);
        assert ws[1..] == r.value;
        assert forall i :: 1 <= i < |ws| ==> ws[i] == r.value[i - 1];
        Assoc3(WriteStack(w.value), WriteStacks(r.value), rest);
      }
    }
  }

  // ---------------------------------------------------------------- the decoder is the two-sided inverse of the encoding

  /** The inputs without their witnesses. */
  function Bare(ins: seq<TxIn>): (r: seq<TxIn>)
    ensures |r| == |ins| && forall i :: 0 <= i < |ins| ==> r[i] == ins[i].(stack := [])
  {
    if ins == [] then [] else [ins[0].(stack := [])] + Bare(ins[1..])
  }

  lemma {:induction false} BareWritten(ins: seq<TxIn>)
    requires forall i :: 0 <= i < |ins| ==> FitsIn(ins[i])
    ensures BareIns(Bare(ins)) && WriteIns(Bare(ins)) == WriteIns(ins)
    decreases |ins|
  {
    if ins != [] {
      BareWritten(ins[1..]);
      assert Bare(ins)[1..] == Bare(ins[1..]);
    }
  }

  lemma Reattached(ins: seq<TxIn>, ws: seq<seq<seq<byte>>>, bare: seq<TxIn>)
    requires BareIns(bare)
    ensures |ws| == |bare| ==> (Attach(bare, ws) == ins <==> Bare(ins) == bare && Stacks(ins) == ws)
  {
    if |ws| == |bare| {
      var r := Attach(bare, ws);
      if r == ins {
        assert forall i :: 0 <= i < |bare| ==> Bare(ins)[i] == bare[i] && Stacks(ins)[i] == ws[i];
      }
      if Bare(ins) == bare && Stacks(ins) == ws {
        forall i | 0 <= i < |ins| ensures r[i] == ins[i] {
          assert Bare(ins)[i] == bare[i] && Stacks(ins)[i] == ws[i];
        }
      }
    }
  }

  /** What is left to be known of a transaction after its inputs and outputs. */
  predicate TailFits(tx: MsgTx, form: Form, version: int, bare: seq<TxIn>, outs: seq<TxOut>) {
    && tx.version == version && tx.outs == outs && Bare(tx.ins) == bare && tx.lockTime < Pow256(4)
    && AllFit(tx.ins) && (form.Legacy? ==> forall i :: 0 <= i < |tx.ins| ==> tx.ins[i].stack == [])
  }

  lemma StackFits(ins: seq<TxIn>, i: nat)
    requires i < |ins|
    ensures FitsStack(Stacks(ins)[i]) <==> FitsStack(ins[i].stack)
  {
    hide FitsStack, Stacks;
  }

  /** All witnesses are within the limits. */
  predicate AllFit(ins: seq<TxIn>) {
    forall i :: 0 <= i < |ins| ==> FitsStack(ins[i].stack)
  }

  lemma StacksFit(ins: seq<TxIn>)
    ensures AllFit(ins) <==> forall i :: 0 <= i < |Stacks(ins)| ==> FitsStack(Stacks(ins)[i])
  {
    hide FitsStack, Stacks;
    var ws := Stacks(ins);
    if AllFit(ins) {
      forall i | 0 <= i < |ws| ensures FitsStack(ws[i]) {
        StackFits(ins, i);
      }
    } else {
      var i :| 0 <= i < |ins| && !FitsStack(ins[i].stack);
      StackFits(ins, i);
    }
  }

  function TailBytes(tx: MsgTx, form: Form): seq<byte>
    requires AllFit(tx.ins)
  {
    StacksFit(tx.ins);
    (if form.Witness? then WriteStacks(Stacks(tx.ins)) else []) + LE(tx.lockTime, 4)
  }

  lemma BareIsSelf(ins: seq<TxIn>)
    requires forall i :: 0 <= i < |ins| ==> ins[i].stack == []
    ensures Bare(ins) == ins
  {
  }

  lemma TailExactly(bs: seq<byte>, form: Form, version: int, bare: seq<TxIn>, outs: seq<TxOut>, tx: MsgTx, rest: seq<byte>)
    requires BareIns(bare)
    ensures ReadWitnesses(bs, form, version, bare, outs) == Ok(Parsed(tx, rest))
       <==> TailFits(tx, form, version, bare, outs) && bs == TailBytes(tx, form) + rest
  {
    if form.Legacy? {
      LegacyTail(bs, version, bare, outs, tx, rest);
    } else {
      WitnessTail(bs, version, bare, outs, tx, rest);
    }
  }

  lemma LegacyTail(bs: seq<byte>, version: int, bare: seq<TxIn>, outs: seq<TxOut>, tx: MsgTx, rest: seq<byte>)
    requires BareIns(bare)
    ensures ReadTail(bs, version, bare, outs) == Ok(Parsed(tx, rest))
       <==> TailFits(tx, Legacy, version, bare, outs) && bs == TailBytes(tx, Legacy) + rest
  {
    hide LE, ReadUint, FitsIn, Pow256;
    UintExactly(bs, 4, tx.lockTime, rest);
    assert [] + LE(tx.lockTime, 4) == LE(tx.lockTime, 4);
    if forall i :: 0 <= i < |tx.ins| ==> tx.ins[i].stack == [] {
      BareIsSelf(tx.ins);
    }
  }

  lemma WitnessTail(bs: seq<byte>, version: int, bare: seq<TxIn>, outs: seq<TxOut>, tx: MsgTx, rest: seq<byte>)
    requires BareIns(bare)
    ensures ReadWitnesses(bs, Witness, version, bare, outs) == Ok(Parsed(tx, rest))
       <==> TailFits(tx, Witness, version, bare, outs) && bs == TailBytes(tx, Witness) + rest
  {
    hide LE, ReadUint, FitsIn, Pow256, ReadStacks, WriteStacks, FitsStack, BareIns, Attach, Bare, Stacks;
    StacksFit(tx.ins);
    if TailFits(tx, Witness, version, bare, outs) && bs == TailBytes(tx, Witness) + rest {
      var t := LE(tx.lockTime, 4) + rest;
      Assoc3(WriteStacks(Stacks(tx.ins)), LE(tx.lockTime, 4), rest);
      StacksExactly(bs, |bare|, Stacks(tx.ins), t);
      UintExactly(t, 4, tx.lockTime, rest);
      Reattached(tx.ins, Stacks(tx.ins), bare);
    }
    if ReadStacks(bs, |bare|).Ok? {
      var ws := ReadStacks(bs, |bare|).value;
      StacksExactly(bs, |bare|, ws.value, ws.rest);
      UintExactly(ws.rest, 4, tx.lockTime, rest);
      Reattached(tx.ins, ws.value, bare);
      if ReadWitnesses(bs, Witness, version, bare, outs) == Ok(Parsed(tx, rest)) {
        Assoc3(WriteStacks(Stacks(tx.ins)), LE(tx.lockTime, 4), rest);
      }
    }
  }

  predicate RestFits(tx: MsgTx, form: Form, version: int, bare: seq<TxIn>) {
    && TailFits(tx, form, version, bare, tx.outs)
    && |tx.outs| <= MAX_OUTS && forall i :: 0 <= i < |tx.outs| ==> FitsOut(tx.outs[i])
  }

  function RestBytes(tx: MsgTx, form: Form): seq<byte>
    requires AllFit(tx.ins)
    requires |tx.outs| <= MAX_OUTS && forall i :: 0 <= i < |tx.outs| ==> FitsOut(tx.outs[i])
  {
    WriteVarInt(|tx.outs|) + (WriteOuts(tx.outs) + TailBytes(tx, form))
  }

  lemma RestExactly(bs: seq<byte>, form: Form, version: int, bare: seq<TxIn>, tx: MsgTx, rest: seq<byte>)
    requires BareIns(bare)
    ensures ReadRest(bs, form, version, bare) == Ok(Parsed(tx, rest))
       <==> RestFits(tx, form, version, bare) && bs == RestBytes(tx, form) + rest
  {
    hide ReadVarInt, WriteVarInt, ReadOuts, WriteOuts, ReadWitnesses, TailBytes, FitsOut, FitsStack, BareIns, Bare, Pow256;
    if RestFits(tx, form, version, bare) && bs == RestBytes(tx, form) + rest {
      var t := TailBytes(tx, form) + rest;
      VarIntExactly(bs, |tx.outs|, WriteOuts(tx.outs) + t);
      OutsExactly(WriteOuts(tx.outs) + t, |tx.outs|, tx.outs, t);
      TailExactly(t, form, version, bare, tx.outs, tx, rest);
      Assoc3(WriteOuts(tx.outs), TailBytes(tx, form), rest);
      Assoc3(WriteVarInt(|tx.outs|), WriteOuts(tx.outs) + TailBytes(tx, form), rest);
    }
    if ReadRest(bs, form, version, bare) == Ok(Parsed(tx, rest)) {
      var n := ReadVarInt(bs).value;
      VarIntExactly(bs, n.value, n.rest);
      var outs := ReadOuts(n.rest, n.value).value;
      OutsExactly(n.rest, n.value, outs.value, outs.rest);
      TailExactly(outs.rest, form, version, bare, outs.value, tx, rest);
      assert outs.value == tx.outs;
      Assoc3(WriteOuts(tx.outs), TailBytes(tx, form), rest);
      Assoc3(WriteVarInt(|tx.outs|), WriteOuts(tx.outs) + TailBytes(tx, form), rest);
    }
  }

  lemma LimitsFromRest(tx: MsgTx, form: Form)
    ensures InLimits(tx, form)
       <==> -2 * tx.version <= Pow256(4) && 2 * tx.version < Pow256(4) && |tx.ins| <= MAX_INS
            && RestFits(tx, form, tx.version, Bare(tx.ins)) && BareIns(Bare(tx.ins))
  {
    hide Pow256, FitsStack;
    if BareIns(Bare(tx.ins)) {
      forall i | 0 <= i < |tx.ins| && FitsStack(tx.ins[i].stack) ensures FitsIn(tx.ins[i]) {
        assert FitsIn(Bare(tx.ins)[i]);
      }
    }
    if forall i :: 0 <= i < |tx.ins| ==> FitsIn(tx.ins[i]) {
      BareWritten(tx.ins);
    }
  }

  lemma BodyExactly(bs: seq<byte>, form: Form, version: int, count: nat, tx: MsgTx, rest: seq<byte>)
    requires -2 * version <= Pow256(4) && 2 * version < Pow256(4)
    ensures ReadBody(bs, form, version, count) == Ok(Parsed(tx, rest))
       <==> InLimits(tx, form) && tx.version == version && count == |tx.ins| && bs == (WriteIns(tx.ins) + WriteRest(tx, form)) + rest
  {
    hide ReadIns, WriteIns, ReadRest, RestBytes, FitsOut, FitsStack, BareIns, Bare, RestFits, Pow256, FitsIn;
    LimitsFromRest(tx, form);
    if InLimits(tx, form) {
      RestIsRest(tx, form);
      BareWritten(tx.ins);
    }
    if InLimits(tx, form) && tx.version == version && count == |tx.ins| && bs == (WriteIns(tx.ins) + WriteRest(tx, form)) + rest {
      var t := WriteRest(tx, form) + rest;
      Assoc3(WriteIns(tx.ins), WriteRest(tx, form), rest);
      InsExactly(bs, count, Bare(tx.ins), t);
      RestExactly(t, form, version, Bare(tx.ins), tx, rest);
    }
    if ReadBody(bs, form, version, count) == Ok(Parsed(tx, rest)) {
      var ins := ReadIns(bs, count).value;
      InsExactly(bs, count, ins.value, ins.rest);
      RestExactly(ins.rest, form, version, ins.value, tx, rest);
      RestIsOf(tx, form, version, ins.value);
      Assoc3(WriteIns(tx.ins), WriteRest(tx, form), rest);
    }
  }

  lemma RestIsRest(tx: MsgTx, form: Form)
    requires InLimits(tx, form)
    ensures WriteRest(tx, form) == RestBytes(tx, form)
  {
    hide WriteVarInt, WriteOuts, WriteStacks, LE;
  }

  lemma RestIsOf(tx: MsgTx, form: Form, version: int, bare: seq<TxIn>)
    requires RestFits(tx, form, version, bare)
    ensures tx.version == version && Bare(tx.ins) == bare && |tx.ins| == |bare|
  {
    hide FitsOut, FitsStack, Pow256;
  }

  /** A count of zero is written as a zero byte, and no other count is. */
  lemma CountByte(n: nat, rest: seq<byte>)
    requires n < UINT64_MODULUS
    ensures (WriteVarInt(n) + rest)[0] == 0 <==> n == 0
    ensures n == 0 ==> WriteVarInt(n) + rest == [0] + rest
  {
  }

  lemma SerializedForm(tx: MsgTx, form: Form, rest: seq<byte>)
    requires InLimits(tx, form)
    ensures FormOf(Serialize(tx, form) + rest) == if form.Legacy? && |tx.ins| > 0 then Legacy else Witness
  {
    hide LE, WriteVarInt, WriteIns, WriteRest;
    CountByte(|tx.ins|, WriteIns(tx.ins) + WriteRest(tx, form));
    var v := LE(ToUnsigned(tx.version, 4), 4);
    var m := (if form.Witness? then [0, 1] else []) + (WriteVarInt(|tx.ins|) + (WriteIns(tx.ins) + WriteRest(tx, form)));
    var all := Serialize(tx, form) + rest;
    assert all == v + (m + rest) && |v| == 4;
    assert all[4] == m[0];
  }

  /** What is behind the version. */
  function Unversioned(tx: MsgTx, form: Form): seq<byte>
    requires InLimits(tx, form)
  {
    (if form.Witness? then [0, 1] else []) + (WriteVarInt(|tx.ins|) + (WriteIns(tx.ins) + WriteRest(tx, form)))
  }

  /** The part of `Decode` behind the version. */
  function ReadUnversioned(bs: seq<byte>, version: int): Outcome<Parsed<MsgTx>> {
    match ReadVarInt(bs)
    case Err => Err
    case Panic => Panic
    case Ok(n) => if n.value == 0 then ReadFlagged(n.rest, version) else ReadBody(n.rest, Legacy, version, n.value)
  }

  lemma FlaggedExactly(bs: seq<byte>, version: int, tx: MsgTx, rest: seq<byte>)
    requires -2 * version <= Pow256(4) && 2 * version < Pow256(4)
    ensures ReadFlagged(bs, version) == Ok(Parsed(tx, rest))
       <==> InLimits(tx, Witness) && tx.version == version
            && bs == [1] + ((WriteVarInt(|tx.ins|) + (WriteIns(tx.ins) + WriteRest(tx, Witness))) + rest)
  {
    hide ReadVarInt, WriteVarInt, ReadBody, WriteIns, WriteRest, InLimits, Pow256;
    if bs != [] {
      assert bs == [bs[0]] + bs[1..];
    }
    if InLimits(tx, Witness) {
      InsBound(tx, Witness);
    }
    if InLimits(tx, Witness) && tx.version == version
       && bs == [1] + ((WriteVarInt(|tx.ins|) + (WriteIns(tx.ins) + WriteRest(tx, Witness))) + rest) {
      var b := (WriteIns(tx.ins) + WriteRest(tx, Witness)) + rest;
      assert bs[1..] == (WriteVarInt(|tx.ins|) + (WriteIns(tx.ins) + WriteRest(tx, Witness))) + rest;
      Assoc3(WriteVarInt(|tx.ins|), WriteIns(tx.ins) + WriteRest(tx, Witness), rest);
      VarIntExactly(bs[1..], |tx.ins|, b);
      BodyExactly(b, Witness, version, |tx.ins|, tx, rest);
    }
    if ReadFlagged(bs, version) == Ok(Parsed(tx, rest)) {
      var n := ReadVarInt(bs[1..]).value;
      VarIntExactly(bs[1..], n.value, n.rest);
      BodyExactly(n.rest, Witness, version, n.value, tx, rest);
      Assoc3(WriteVarInt(|tx.ins|), WriteIns(tx.ins) + WriteRest(tx, Witness), rest);
    }
  }

  lemma InsBound(tx: MsgTx, form: Form)
    requires InLimits(tx, form)
    ensures |tx.ins| <= MAX_INS && -2 * tx.version <= Pow256(4) && 2 * tx.version < Pow256(4)
    ensures forall i :: 0 <= i < |tx.ins| ==> FitsIn(tx.ins[i])
  {
    hide Pow256;
  }

  lemma UnversionedExactly(bs: seq<byte>, version: int, tx: MsgTx, rest: seq<byte>)
    requires -2 * version <= Pow256(4) && 2 * version < Pow256(4)
    ensures ReadUnversioned(bs, version) == Ok(Parsed(tx, rest))
       <==> exists form :: InLimits(tx, form) && tx.version == version && (form.Legacy? ==> |tx.ins| > 0)
                           && bs == Unversioned(tx, form) + rest && (form.Witness? <==> bs != [] && bs[0] == 0)
  {
    hide ReadVarInt, WriteVarInt, ReadBody, WriteIns, WriteRest, InLimits, Pow256, ReadFlagged;
    if ReadVarInt(bs).Ok? {
      var n := ReadVarInt(bs).value;
      VarIntExactly(bs, n.value, n.rest);
      CountByte(n.value, n.rest);
      if n.value == 0 {
        FlaggedExactly(n.rest, version, tx, rest);
        if InLimits(tx, Witness) {
          FlagBytes(tx, n.rest, rest);
        }
      } else {
        BodyExactly(n.rest, Legacy, version, n.value, tx, rest);
        if InLimits(tx, Legacy) {
          LegacyBytes(tx, rest);
        }
      }
    }
    forall form | InLimits(tx, form) && tx.version == version && (form.Legacy? ==> |tx.ins| > 0) && bs == Unversioned(tx, form) + rest
      ensures ReadUnversioned(bs, version) == Ok(Parsed(tx, rest))
    {
      UnversionedRead(bs, form, version, tx, rest);
    }
  }

  lemma FlagBytes(tx: MsgTx, nrest: seq<byte>, rest: seq<byte>)
    requires InLimits(tx, Witness)
    ensures nrest == [1] + ((WriteVarInt(|tx.ins|) + (WriteIns(tx.ins) + WriteRest(tx, Witness))) + rest)
            ==> [0] + nrest == Unversioned(tx, Witness) + rest
  {
    hide WriteVarInt, WriteIns, WriteRest;
  }

  lemma LegacyBytes(tx: MsgTx, rest: seq<byte>)
    requires InLimits(tx, Legacy)
    ensures Unversioned(tx, Legacy) + rest == WriteVarInt(|tx.ins|) + ((WriteIns(tx.ins) + WriteRest(tx, Legacy)) + rest)
  {
    hide WriteVarInt, WriteIns, WriteRest;
  }

  lemma UnversionedRead(bs: seq<byte>, form: Form, version: int, tx: MsgTx, rest: seq<byte>)
    requires InLimits(tx, form) && tx.version == version && (form.Legacy? ==> |tx.ins| > 0) && bs == Unversioned(tx, form) + rest
    ensures ReadUnversioned(bs, version) == Ok(Parsed(tx, rest))
  {
    hide ReadVarInt, WriteVarInt, ReadBody, WriteIns, WriteRest, InLimits, Pow256, ReadFlagged;
    InsBound(tx, form);
    if form.Witness? {
      var f := [1] + ((WriteVarInt(|tx.ins|) + (WriteIns(tx.ins) + WriteRest(tx, Witness))) + rest);
      FlagBytes(tx, f, rest);
      CountByte(0, f);
      VarIntExactly(bs, 0, f);
      FlaggedExactly(f, version, tx, rest);
    } else {
      LegacyBytes(tx, rest);
      var b := (WriteIns(tx.ins) + WriteRest(tx, Legacy)) + rest;
      VarIntExactly(bs, |tx.ins|, b);
      BodyExactly(b, Legacy, version, |tx.ins|, tx, rest);
    }
  }

  /** The decoder accepts exactly the encodings of transactions within its limits, and gives the transaction that was encoded and the rest of the input. */
  lemma DecodeExactly(bs: seq<byte>, tx: MsgTx, rest: seq<byte>)
    ensures Decode(bs) == Ok(Parsed(tx, rest))
       <==> InLimits(tx, FormOf(bs)) && bs == Serialize(tx, FormOf(bs)) + rest && (FormOf(bs).Legacy? ==> |tx.ins| > 0)
  {
    hide ReadUnversioned, Unversioned, InLimits, Pow256, ReadUint, LE, ReadVarInt, ReadFlagged, ReadBody;
    DecodeUnversioned(bs);
    if ReadUint(bs, 4).Ok? {
      var v := ReadUint(bs, 4).value;
      UintExactly(bs, 4, v.value, v.rest);
      var version := ToSigned(v.value, 4);
      UnversionedExactly(v.rest, version, tx, rest);
      FormBehindVersion(bs, v.value, v.rest);
      if InLimits(tx, FormOf(bs)) {
        VersionBytes(bs, tx, FormOf(bs), rest, v.value, v.rest);
      }
    } else if InLimits(tx, FormOf(bs)) && bs == Serialize(tx, FormOf(bs)) + rest {
      InsBound(tx, FormOf(bs));
      SignedOfUnsigned(tx.version, 4);
      VersionFirst(tx, FormOf(bs), rest);
      UintExactly(bs, 4, ToUnsigned(tx.version, 4), Unversioned(tx, FormOf(bs)) + rest);
      assert false;
    }
  }

  lemma DecodeUnversioned(bs: seq<byte>)
    ensures ReadUint(bs, 4).Ok? ==> ReadUint(bs, 4).value.value < Pow256(4)
    ensures ReadUint(bs, 4).Ok? ==> Decode(bs) == ReadUnversioned(ReadUint(bs, 4).value.rest, ToSigned(ReadUint(bs, 4).value.value, 4))
    ensures !ReadUint(bs, 4).Ok? ==> !Decode(bs).Ok?
  {
    hide ReadVarInt, ReadFlagged, ReadBody, Pow256;
    ReadUintBound(bs, 4);
  }

  lemma FormBehindVersion(bs: seq<byte>, v: nat, rest: seq<byte>)
    requires bs == LE(v, 4) + rest
    ensures FormOf(bs).Witness? <==> rest != [] && rest[0] == 0
  {
    hide LE;
  }

  lemma VersionFirst(tx: MsgTx, form: Form, rest: seq<byte>)
    requires InLimits(tx, form)
    ensures Serialize(tx, form) + rest == LE(ToUnsigned(tx.version, 4), 4) + (Unversioned(tx, form) + rest)
  {
    hide LE, WriteVarInt, WriteIns, WriteRest;
  }

  lemma VersionBytes(bs: seq<byte>, tx: MsgTx, form: Form, rest: seq<byte>, v: nat, vrest: seq<byte>)
    requires InLimits(tx, form) && v < Pow256(4) && bs == LE(v, 4) + vrest
    ensures bs == Serialize(tx, form) + rest <==> tx.version == ToSigned(v, 4) && vrest == Unversioned(tx, form) + rest
  {
    hide LE, Unversioned;
    InsBound(tx, form);
    SignedOfUnsigned(tx.version, 4);
    VersionFirst(tx, form, rest);
    var u := ToUnsigned(tx.version, 4);
    FromLEOfLE(v, 4);
    FromLEOfLE(u, 4);
    SplitAt(LE(v, 4) + vrest, LE(v, 4), vrest);
    SplitAt(LE(u, 4) + (Unversioned(tx, form) + rest), LE(u, 4), Unversioned(tx, form) + rest);
  }

  /** Decoding undoes encoding, except for a transaction without inputs in the form without marker: its count of zero is taken for the marker. */
  lemma DecodeOfSerialize(tx: MsgTx, form: Form, rest: seq<byte>)
    requires InLimits(tx, form)
    ensures FormOf(Serialize(tx, form) + rest) == form && Decode(Serialize(tx, form) + rest) == Ok(Parsed(tx, rest))
       <==> form.Witness? || |tx.ins| >= 1
  {
    hide InLimits, Serialize, Decode;
    SerializedForm(tx, form, rest);
    DecodeExactly(Serialize(tx, form) + rest, tx, rest);
  }
}
