/** What is signed for an input with a witness (BIP 143, section "Specification"). */
module Sighash {
  import opened Bytes
  import opened Wrappers
  import opened VarInts
  import opened Transactions
  import opened Scripts
  import opened Shachain

  const SIGHASH_NONE := 2
  const SIGHASH_SINGLE := 3

  const ZERO_HASH: Hash32 := Repeat(0, 32)

  /** The parts of the hash that all inputs of a transaction share. */
  datatype TxSigHashes = TxSigHashes(hashPrevOuts: Hash32, hashSequence: Hash32, hashOutputs: Hash32)

  /** The ten fields of the preimage, in order. */
  datatype Fields = Fields(version: int, hashPrevOuts: Hash32, hashSequence: Hash32, prevHash: seq<byte>, prevIndex: nat,
                           scriptCode: seq<byte>, amount: int, sequence: nat, hashOutputs: Hash32, lockTime: nat, hashType: nat)

  /** The fields fit the places that they are written to. */
  predicate Fits(f: Fields) {
    && -2 * f.version <= Pow256(4) && 2 * f.version < Pow256(4)
    && |f.prevHash| == 32 && f.prevIndex < Pow256(4) && |f.scriptCode| < UINT64_MODULUS
    && -2 * f.amount <= Pow256(8) && 2 * f.amount < Pow256(8)
    && f.sequence < Pow256(4) && f.lockTime < Pow256(4) && f.hashType < Pow256(4)
  }

  /** The preimage. */
  function Preimage(f: Fields): seq<byte>
    requires Fits(f)
  {
    LE(ToUnsigned(f.version, 4), 4) + (f.hashPrevOuts + (f.hashSequence + (f.prevHash + (LE(f.prevIndex, 4)
    + (WriteScript(f.scriptCode) + (LE(ToUnsigned(f.amount, 8), 8) + (LE(f.sequence, 4) + (f.hashOutputs
    + (LE(f.lockTime, 4) + LE(f.hashType, 4))))))))))
  }

  // ---------------------------------------------------------------- hash types

  /** `SIGHASH_ANYONECANPAY` is set. */
  predicate AnyoneCanPay(hashType: nat) {
    hashType / 0x80 % 2 == 1
  }

  /** The bits that say which outputs are signed. */
  function BaseType(hashType: nat): nat {
    hashType % 0x20
  }

  /** The bit that NONE and SINGLE have in common. */
  predicate OutputBit(hashType: nat) {
    hashType / 2 % 2 == 1
  }

  /** A hash type in binary: `a` is the bit 0x80, `n` the five low bits, and `o` the bit 2 among them. */
  lemma BitsOfType(hashType: nat, q: nat, a: nat, m: nat, n: nat, k: nat, o: nat, l: nat)
    requires hashType == 0x100 * q + 0x80 * a + 0x20 * m + n && a < 2 && m < 4 && n < 0x20
    requires n == 4 * k + 2 * o + l && o < 2 && l < 2
    ensures AnyoneCanPay(hashType) <==> a == 1
    ensures BaseType(hashType) == n
    ensures OutputBit(hashType) <==> o == 1
  {
    QuotientUnique(hashType, 0x80, 2 * q + a, 0x20 * m + n);
    QuotientUnique(hashType, 0x20, 8 * q + 4 * a + m, n);
    QuotientUnique(hashType, 2, 0x80 * q + 0x40 * a + 0x10 * m + 2 * k + o, l);
    QuotientUnique(2 * q + a, 2, q, a);
    QuotientUnique(0x80 * q + 0x40 * a + 0x10 * m + 2 * k + o, 2, 0x40 * q + 0x20 * a + 8 * m + k, o);
  }

  /** `hashOutputs` in the words of BIP 143. */
  function BipHashOutputs(H: HashFunction, sigHashes: TxSigHashes, hashType: nat, outs: seq<TxOut>, idx: nat): Hash32
    requires forall i :: 0 <= i < |outs| ==> FitsOut(outs[i])
  {
    if BaseType(hashType) != SIGHASH_SINGLE && BaseType(hashType) != SIGHASH_NONE then sigHashes.hashOutputs
    else if BaseType(hashType) == SIGHASH_SINGLE && idx < |outs| then H(WriteOut(outs[idx]))
    else ZERO_HASH
  }

  /** What the signer writes in that place: it looks at single bits first. */
  function CodeHashOutputs(H: HashFunction, sigHashes: TxSigHashes, hashType: nat, outs: seq<TxOut>, idx: nat): Hash32
    requires forall i :: 0 <= i < |outs| ==> FitsOut(outs[i])
  {
    if !OutputBit(hashType) then sigHashes.hashOutputs
    else if BaseType(hashType) == SIGHASH_SINGLE && idx < |outs| then H(WriteOut(outs[idx]))
    else ZERO_HASH
  }

  /** The fields of BIP 143 for an input and a script code. */
  function BipFields(H: HashFunction, sigHashes: TxSigHashes, hashType: nat, tx: MsgTx, idx: nat, amount: int, code: seq<byte>): Fields
    requires idx < |tx.ins| && forall i :: 0 <= i < |tx.outs| ==> FitsOut(tx.outs[i])
  {
    var ti := tx.ins[idx];
    Fields(tx.version,
           if AnyoneCanPay(hashType) then ZERO_HASH else sigHashes.hashPrevOuts,
           if AnyoneCanPay(hashType) || BaseType(hashType) == SIGHASH_SINGLE || BaseType(hashType) == SIGHASH_NONE then ZERO_HASH
           else sigHashes.hashSequence,
           ti.hash, ti.index, code, amount, ti.sequence,
           BipHashOutputs(H, sigHashes, hashType, tx.outs, idx),
           tx.lockTime, hashType)
  }

  function CodeFields(H: HashFunction, sigHashes: TxSigHashes, hashType: nat, tx: MsgTx, idx: nat, amount: int, code: seq<byte>): Fields
    requires idx < |tx.ins| && forall i :: 0 <= i < |tx.outs| ==> FitsOut(tx.outs[i])
  {
    BipFields(H, sigHashes, hashType, tx, idx, amount, code).(hashOutputs := CodeHashOutputs(H, sigHashes, hashType, tx.outs, idx))
  }

  /** The outputs are those of BIP 143 for exactly these hash types, unless the hash of all outputs happens to be zero. */
  lemma FieldsAreBip143(H: HashFunction, sigHashes: TxSigHashes, hashType: nat, tx: MsgTx, idx: nat, amount: int, code: seq<byte>)
    requires idx < |tx.ins| && forall i :: 0 <= i < |tx.outs| ==> FitsOut(tx.outs[i])
    ensures CodeFields(H, sigHashes, hashType, tx, idx, amount, code) == BipFields(H, sigHashes, hashType, tx, idx, amount, code)
       <==> !OutputBit(hashType) || BaseType(hashType) == SIGHASH_SINGLE || BaseType(hashType) == SIGHASH_NONE
            || sigHashes.hashOutputs == ZERO_HASH
  {
    BitOfBase(hashType);
  }

  lemma BitOfBase(hashType: nat)
    ensures OutputBit(BaseType(hashType)) <==> OutputBit(hashType)
  {
    Halves32(hashType);
  }

  lemma Halves32(n: nat)
    ensures n % 0x20 / 2 % 2 == n / 2 % 2
  {
    var q, r := n / 0x20, n % 0x20;
    var h := r / 2;
    HalfIs(n, 16 * q + h, r % 2);
    HalfIs(16 * q + h, 8 * q + h / 2, h % 2);
  }

  lemma HalfIs(n: nat, x: nat, b: nat)
    requires n == 2 * x + b && b < 2
    ensures n / 2 == x && n % 2 == b
  {
  }

  /** ALL, NONE and SINGLE, with or without ANYONECANPAY. */
  predicate Standard(hashType: nat) {
    hashType in {1, 2, 3, 0x81, 0x82, 0x83}
  }

  /** For the standard hash types the fields are those of BIP 143. */
  lemma StandardFields(H: HashFunction, sigHashes: TxSigHashes, hashType: nat, tx: MsgTx, idx: nat, amount: int, code: seq<byte>)
    requires Standard(hashType) && idx < |tx.ins| && forall i :: 0 <= i < |tx.outs| ==> FitsOut(tx.outs[i])
    ensures CodeFields(H, sigHashes, hashType, tx, idx, amount, code) == BipFields(H, sigHashes, hashType, tx, idx, amount, code)
  {
    FieldsAreBip143(H, sigHashes, hashType, tx, idx, amount, code);
  }

  /** A hash type for which they are not. */
  lemma NonStandardFields(H: HashFunction, sigHashes: TxSigHashes, tx: MsgTx, idx: nat, amount: int, code: seq<byte>)
    requires idx < |tx.ins| && (forall i :: 0 <= i < |tx.outs| ==> FitsOut(tx.outs[i])) && sigHashes.hashOutputs != ZERO_HASH
    ensures CodeFields(H, sigHashes, 6, tx, idx, amount, code) != BipFields(H, sigHashes, 6, tx, idx, amount, code)
  {
    FieldsAreBip143(H, sigHashes, 6, tx, idx, amount, code);
  }

  // ---------------------------------------------------------------- the script code

  /** A program that pays to a witness public key hash. */
  predicate IsProgram(script: seq<byte>) {
    |script| == 22 && script[0] == OP_0 && script[1] == OP_DATA_20
  }

  /** BIP 143: for such a program the script that pays to the public key hash, otherwise the script itself. */
  function ScriptCode(script: seq<byte>): seq<byte> {
    if IsProgram(script) then [OP_DUP, OP_HASH160, OP_DATA_20] + script[2..] + [OP_EQUALVERIFY, OP_CHECKSIG] else script
  }

  /** `isWitnessPubKeyHash`. */
  predicate IsWitnessPubKeyHash(pops: seq<Pop>) {
    |pops| == 2 && pops[0].op == OP_0 && pops[1].op == OP_DATA_20
  }

  /** What the signer writes for the script code; an error of `unparseScript` is ignored. */
  function WrittenCode(pops: seq<Pop>): seq<byte>
    requires !IsWitnessPubKeyHash(pops) && Unparse(pops).Some? ==> |Unparse(pops).value| < UINT64_MODULUS
  {
    if IsWitnessPubKeyHash(pops) then
      [0x19] + [OP_DUP] + [OP_HASH160] + [OP_DATA_20] + pops[1].data + [OP_EQUALVERIFY] + [OP_CHECKSIG]
    else
      WriteScript(if Unparse(pops).Some? then Unparse(pops).value else [])
  }

  /** The parsed form of a program. */
  lemma ProgramParsed(script: seq<byte>)
    requires Parse(script).ok
    ensures IsWitnessPubKeyHash(Parse(script).pops) <==> IsProgram(script)
    ensures IsProgram(script) ==> Parse(script).pops[1].data == script[2..]
  {
    var pops := Parse(script).pops;
    UnparseOfParse(script);
    if IsWitnessPubKeyHash(pops) {
      ProgramBytes(pops);
    }
    if IsProgram(script) {
      var p: seq<Pop> := [Pop(OP_0, []), Pop(OP_DATA_20, script[2..])];
      ProgramBytes(p);
      assert script == [OP_0, OP_DATA_20] + script[2..];
      ParseOfUnparse(p);
    }
  }

  lemma ProgramBytes(pops: seq<Pop>)
    requires IsWitnessPubKeyHash(pops)
    ensures Unparse(pops).Some? <==> pops[0].data == [] && |pops[1].data| == 20
    ensures Unparse(pops).Some? ==> Unparse(pops).value == [OP_0, OP_DATA_20] + pops[1].data
  {
    hide LE, FromLE;
    assert pops[1..][0] == pops[1] && pops[1..][1..] == [];
    if pops[0].data == [] && |pops[1].data| == 20 {
      assert PopBytes(pops[0]) == Some([OP_0]);
      var b := [OP_DATA_20] + pops[1].data;
      assert PopBytes(pops[1]) == Some(b);
      assert Unparse(pops[1..]) == Some(b + []);
      assert [OP_0] + (b + []) == [OP_0, OP_DATA_20] + pops[1].data;
    }
  }

  /** For every script that parses, the ignored error does not occur, and the script code is that of BIP 143, with its length in front. */
  lemma CodeIsBip143(script: seq<byte>)
    requires Parse(script).ok && |script| < UINT64_MODULUS
    ensures Unparse(Parse(script).pops) == Some(script)
    ensures |ScriptCode(script)| < UINT64_MODULUS
    ensures WrittenCode(Parse(script).pops) == WriteScript(ScriptCode(script))
  {
    hide Parse, Unparse, LE;
    UnparseOfParse(script);
    ProgramParsed(script);
    if IsProgram(script) {
      var h := script[2..];
      assert [0x19] + [OP_DUP] + [OP_HASH160] + [OP_DATA_20] + h + [OP_EQUALVERIFY] + [OP_CHECKSIG]
          == [0x19] + ([OP_DUP, OP_HASH160, OP_DATA_20] + h + [OP_EQUALVERIFY, OP_CHECKSIG]);
    }
  }

  // ---------------------------------------------------------------- the standard hash types by number

  predicate AllZero(h: Hash32) {
    forall i :: 0 <= i < |h| ==> h[i] == 0
  }

  /** The fields `f` for an input with the program `script`: BIP 143 for ALL, NONE and SINGLE (1, 2, 3), and with ANYONECANPAY (0x81, 0x82, 0x83). */
  predicate FieldsByNumber(H: HashFunction, sigHashes: TxSigHashes, hashType: nat, tx: MsgTx, idx: nat, amount: int, script: seq<byte>, f: Fields)
    requires idx < |tx.ins| && forall i :: 0 <= i < |tx.outs| ==> FitsOut(tx.outs[i])
  {
    && f.version == tx.version && f.lockTime == tx.lockTime && f.amount == amount && f.hashType == hashType
    && f.prevHash == tx.ins[idx].hash && f.prevIndex == tx.ins[idx].index && f.sequence == tx.ins[idx].sequence
    && (if hashType in {1, 2, 3} then f.hashPrevOuts == sigHashes.hashPrevOuts else AllZero(f.hashPrevOuts))
    && (if hashType == 1 then f.hashSequence == sigHashes.hashSequence else AllZero(f.hashSequence))
    && (if hashType in {1, 0x81} then f.hashOutputs == sigHashes.hashOutputs
        else if hashType in {3, 0x83} && idx < |tx.outs| then f.hashOutputs == H(WriteOut(tx.outs[idx]))
        else AllZero(f.hashOutputs))
    && (if |script| == 22 && script[0] == 0 && script[1] == 0x14
        then f.scriptCode == [0x76, 0xa9, 0x14] + script[2..] + [0x88, 0xac]
        else f.scriptCode == script)
  }

  /** What the signer signs with a standard hash type. */
  lemma StandardByNumber(H: HashFunction, sigHashes: TxSigHashes, hashType: nat, tx: MsgTx, idx: nat, amount: int, script: seq<byte>)
    requires hashType in {1, 2, 3, 0x81, 0x82, 0x83}
    requires idx < |tx.ins| && forall i :: 0 <= i < |tx.outs| ==> FitsOut(tx.outs[i])
    ensures FieldsByNumber(H, sigHashes, hashType, tx, idx, amount, script,
                           CodeFields(H, sigHashes, hashType, tx, idx, amount, ScriptCode(script)))
  {
    hide WriteOut;
    var t := hashType;
    assert t == 1 || t == 2 || t == 3 || t == 0x81 || t == 0x82 || t == 0x83;
  }

  /** The fields lie in the preimage one after the other; behind the script code, which brings its own length, the places count from the end. */
  lemma PreimageLayout(f: Fields)
    requires Fits(f)
    ensures var m, code := Preimage(f), WriteScript(f.scriptCode);
      && |m| == 156 + |code|
      && m[0..4] == LE(ToUnsigned(f.version, 4), 4) && m[4..36] == f.hashPrevOuts && m[36..68] == f.hashSequence
      && m[68..100] == f.prevHash && m[100..104] == LE(f.prevIndex, 4) && m[104..|m| - 52] == code
      && m[|m| - 52..|m| - 44] == LE(ToUnsigned(f.amount, 8), 8) && m[|m| - 44..|m| - 40] == LE(f.sequence, 4)
      && m[|m| - 40..|m| - 8] == f.hashOutputs && m[|m| - 8..|m| - 4] == LE(f.lockTime, 4) && m[|m| - 4..] == LE(f.hashType, 4)
  {
    hide LE, WriteScript;
  }

  // ---------------------------------------------------------------- no two inputs to be signed have the same preimage

  lemma UintFirst(a: nat, b: nat, n: nat, r: seq<byte>, t: seq<byte>)
    requires a < Pow256(n) && b < Pow256(n) && LE(a, n) + r == LE(b, n) + t
    ensures a == b && r == t
  {
    UintExactly(LE(a, n) + r, n, a, r);
    UintExactly(LE(b, n) + t, n, b, t);
  }

  lemma BytesFirst(a: seq<byte>, b: seq<byte>, r: seq<byte>, t: seq<byte>)
    requires |a| == |b| && a + r == b + t
    ensures a == b && r == t
  {
    SplitAt(a + r, a, r);
    SplitAt(b + t, b, t);
  }

  lemma ScriptFirst(a: seq<byte>, b: seq<byte>, r: seq<byte>, t: seq<byte>)
    requires |a| < UINT64_MODULUS && |b| < UINT64_MODULUS && WriteScript(a) + r == WriteScript(b) + t
    ensures a == b && r == t
  {
    ScriptExactly(WriteScript(a) + r, UINT64_MODULUS - 1, a, r);
    ScriptExactly(WriteScript(b) + t, UINT64_MODULUS - 1, b, t);
  }

  lemma SignedFirst(a: int, b: int, n: nat, r: seq<byte>, t: seq<byte>)
    requires -2 * a <= Pow256(n) && 2 * a < Pow256(n) && -2 * b <= Pow256(n) && 2 * b < Pow256(n)
    requires LE(ToUnsigned(a, n), n) + r == LE(ToUnsigned(b, n), n) + t
    ensures a == b && r == t
  {
    SignedOfUnsigned(a, n);
    SignedOfUnsigned(b, n);
    UintFirst(ToUnsigned(a, n), ToUnsigned(b, n), n, r, t);
  }

  /** The part of the preimage from the script code on. */
  function SecondHalf(f: Fields): seq<byte>
    requires Fits(f)
  {
    WriteScript(f.scriptCode) + (LE(ToUnsigned(f.amount, 8), 8) + (LE(f.sequence, 4) + (f.hashOutputs
    + (LE(f.lockTime, 4) + LE(f.hashType, 4)))))
  }

  lemma SecondHalfInjective(f: Fields, g: Fields)
    requires Fits(f) && Fits(g) && SecondHalf(f) == SecondHalf(g)
    ensures f.scriptCode == g.scriptCode && f.amount == g.amount && f.sequence == g.sequence && f.hashOutputs == g.hashOutputs
    ensures f.lockTime == g.lockTime && f.hashType == g.hashType
  {
    hide LE, WriteScript;
    var f5, g5 := LE(f.lockTime, 4) + LE(f.hashType, 4), LE(g.lockTime, 4) + LE(g.hashType, 4);
    var f4, g4 := f.hashOutputs + f5, g.hashOutputs + g5;
    var f3, g3 := LE(f.sequence, 4) + f4, LE(g.sequence, 4) + g4;
    var f2, g2 := LE(ToUnsigned(f.amount, 8), 8) + f3, LE(ToUnsigned(g.amount, 8), 8) + g3;
    ScriptFirst(f.scriptCode, g.scriptCode, f2, g2);
    SignedFirst(f.amount, g.amount, 8, f3, g3);
    UintFirst(f.sequence, g.sequence, 4, f4, g4);
    BytesFirst(f.hashOutputs, g.hashOutputs, f5, g5);
    UintFirst(f.lockTime, g.lockTime, 4, LE(f.hashType, 4), LE(g.hashType, 4));
    FromLEOfLE(f.hashType, 4);
    FromLEOfLE(g.hashType, 4);
  }

  /** The preimage determines all of its fields. */
  lemma PreimageInjective(f: Fields, g: Fields)
    requires Fits(f) && Fits(g) && Preimage(f) == Preimage(g)
    ensures f == g
  {
    hide LE, SecondHalf;
    Halves(f);
    Halves(g);
    var f5, g5 := LE(f.prevIndex, 4) + SecondHalf(f), LE(g.prevIndex, 4) + SecondHalf(g);
    var f4, g4 := f.prevHash + f5, g.prevHash + g5;
    var f3, g3 := f.hashSequence + f4, g.hashSequence + g4;
    var f2, g2 := f.hashPrevOuts + f3, g.hashPrevOuts + g3;
    SignedFirst(f.version, g.version, 4, f2, g2);
    BytesFirst(f.hashPrevOuts, g.hashPrevOuts, f3, g3);
    BytesFirst(f.hashSequence, g.hashSequence, f4, g4);
    BytesFirst(f.prevHash, g.prevHash, f5, g5);
    UintFirst(f.prevIndex, g.prevIndex, 4, SecondHalf(f), SecondHalf(g));
    SecondHalfInjective(f, g);
  }

  lemma Halves(f: Fields)
    requires Fits(f)
    ensures Preimage(f) == LE(ToUnsigned(f.version, 4), 4) + (f.hashPrevOuts + (f.hashSequence + (f.prevHash
                           + (LE(f.prevIndex, 4) + SecondHalf(f)))))
  {
    hide LE, WriteScript;
  }

  // ---------------------------------------------------------------- the routine

  /** The values that a transaction and an amount can have in the signer. */
  predicate FitsTx(tx: MsgTx, amount: int, hashType: nat) {
    && -2 * tx.version <= Pow256(4) && 2 * tx.version < Pow256(4) && tx.lockTime < Pow256(4)
    && (forall i :: 0 <= i < |tx.ins| ==> |tx.ins[i].hash| == 32 && tx.ins[i].index < Pow256(4) && tx.ins[i].sequence < Pow256(4))
    && (forall i :: 0 <= i < |tx.outs| ==> FitsOut(tx.outs[i]))
    && -2 * amount <= Pow256(8) && 2 * amount < Pow256(8) && hashType < Pow256(4)
  }

  /** `calcWitnessSignatureHash` for a script that has been parsed; the result is the hash of the preimage. */
  method CalcWitnessSignatureHash(H: HashFunction, subScript: seq<Pop>, ghost script: seq<byte>, sigHashes: TxSigHashes, hashType: nat,
                                  tx: MsgTx, idx: int, amount: int)
    returns (r: Outcome<Hash32>)
    requires Parse(script) == Parsing(subScript, true) && |script| < UINT64_MODULUS && FitsTx(tx, amount, hashType)
    ensures r.Err? <==> idx >= |tx.ins|
    ensures r.Panic? <==> idx < 0 && idx < |tx.ins|
    ensures r.Ok? ==>
      var f := CodeFields(H, sigHashes, hashType, tx, idx, amount, ScriptCode(script));
      Fits(f) && r.value == H(Preimage(f))
  {
    hide LE, Parse, Unparse, WriteVarInt, WriteOut;
    CodeIsBip143(script);
    if idx > |tx.ins| - 1 {
      return Err;
    }
    var sigHash := LE(ToUnsigned(tx.version, 4), 4);
    if !AnyoneCanPay(hashType) {
      sigHash := sigHash + sigHashes.hashPrevOuts;
    } else {
      sigHash := sigHash + ZERO_HASH;
    }
    if !AnyoneCanPay(hashType) && BaseType(hashType) != SIGHASH_SINGLE && BaseType(hashType) != SIGHASH_NONE {
      sigHash := sigHash + sigHashes.hashSequence;
    } else {
      sigHash := sigHash + ZERO_HASH;
    }
    if idx < 0 {
      return Panic;
    }
    var txIn := tx.ins[idx];
    sigHash := sigHash + txIn.hash;
    sigHash := sigHash + LE(txIn.index, 4);
    var code;
    if IsWitnessPubKeyHash(subScript) {
      code := [0x19] + [OP_DUP] + [OP_HASH160] + [OP_DATA_20] + subScript[1].data + [OP_EQUALVERIFY] + [OP_CHECKSIG];
    } else {
      var raw := UnparseScript(subScript);
      code := WriteScript(if raw.Some? then raw.value else []);
    }
    sigHash := sigHash + code;
    sigHash := sigHash + LE(ToUnsigned(amount, 8), 8);
    sigHash := sigHash + LE(txIn.sequence, 4);
    var outputs;
    if hashType % 4 != 3 && hashType / 2 % 2 != 1 {
      outputs := sigHashes.hashOutputs;
    } else if BaseType(hashType) == SIGHASH_SINGLE && idx < |tx.outs| {
      outputs := H(WriteOut(tx.outs[idx]));
    } else {
      outputs := ZERO_HASH;
    }
    sigHash := sigHash + outputs;
    sigHash := sigHash + LE(tx.lockTime, 4);
    sigHash := sigHash + LE(hashType, 4);
    ghost var f := CodeFields(H, sigHashes, hashType, tx, idx, amount, ScriptCode(script));
    BothBits(hashType);
    InOrder(f, sigHash);
    r := Ok(H(sigHash));
  }

  lemma BothBits(hashType: nat)
    ensures hashType % 4 == 3 ==> hashType / 2 % 2 == 1
  {
  }

  lemma InOrder(f: Fields, bs: seq<byte>)
    requires Fits(f)
    requires bs == LE(ToUnsigned(f.version, 4), 4) + f.hashPrevOuts + f.hashSequence + f.prevHash + LE(f.prevIndex, 4)
                   + WriteScript(f.scriptCode) + LE(ToUnsigned(f.amount, 8), 8) + LE(f.sequence, 4) + f.hashOutputs
                   + LE(f.lockTime, 4) + LE(f.hashType, 4)
    ensures bs == Preimage(f)
  {
    hide LE, WriteScript;
  }

  /** `RawTxInWitnessSignature`, up to the signature itself. */
  method HashToSign(H: HashFunction, tx: MsgTx, sigHashes: TxSigHashes, idx: int, amount: int, subScript: seq<byte>, hashType: nat)
    returns (r: Outcome<Hash32>)
    requires |subScript| < UINT64_MODULUS && FitsTx(tx, amount, hashType)
    ensures r.Err? <==> !Parse(subScript).ok || idx >= |tx.ins|
    ensures r.Panic? <==> Parse(subScript).ok && idx < 0
    ensures r.Ok? ==>
      && 0 <= idx < |tx.ins|
      && var f := CodeFields(H, sigHashes, hashType, tx, idx, amount, ScriptCode(subScript));
         Fits(f) && r.value == H(Preimage(f))
         && (hashType in {1, 2, 3, 0x81, 0x82, 0x83} ==> FieldsByNumber(H, sigHashes, hashType, tx, idx, amount, subScript, f))
  {
    hide Parse, CodeFields, FieldsByNumber, ScriptCode, Preimage;
    if 0 <= idx < |tx.ins| && hashType in {1, 2, 3, 0x81, 0x82, 0x83} {
      StandardByNumber(H, sigHashes, hashType, tx, idx, amount, subScript);
    }
    var pops, ok := ParseScript(subScript);
    if !ok {
      return Err;
    }
    r := CalcWitnessSignatureHash(H, pops, subScript, sigHashes, hashType, tx, idx, amount);
  }
}
