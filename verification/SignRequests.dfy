/** Sign requests: what the proxy writes, and the two parsers that read it. */
module SignRequests {
  import opened Bytes
  import opened Wrappers

  /** What is to be signed.  A slice that is absent (nil, or None) is told apart from an empty one where programs do so, which is not the case for `pkScript`. */
  datatype SignDescriptor = SignDescriptor(pubKey: Option<seq<byte>>, singleTweak: Option<seq<byte>>, doubleTweak: Option<seq<byte>>,
                                           witnessScript: Option<seq<byte>>, value: int, pkScript: seq<byte>, hashType: nat,
                                           hashPrevOuts: seq<byte>, hashSequence: seq<byte>, hashOutputs: seq<byte>, inputIndex: int)

  /** The fields as they are on the wire. */
  datatype Wire = Wire(pubKey: seq<byte>, singleTweak: seq<byte>, doubleTweak: seq<byte>, witnessScript: seq<byte>,
                       value: nat, pkScript: seq<byte>, tail: Tail)

  /** The fields of fixed size at the end. */
  datatype Tail = Tail(hashType: nat, hashPrevOuts: seq<byte>, hashSequence: seq<byte>, hashOutputs: seq<byte>, inputIndex: nat)

  predicate FitsTail(t: Tail) {
    && t.hashType < Pow256(4) && t.inputIndex < Pow256(8)
    && |t.hashPrevOuts| == |t.hashSequence| == |t.hashOutputs| == 32
  }

  /** The sizes of the fixed fields are right, and the values fit. */
  predicate FitsFixed(w: Wire) {
    && |w.pubKey| == 33 && |w.doubleTweak| == 32 && w.value < Pow256(8) && FitsTail(w.tail)
  }

  function WriteTail(t: Tail): seq<byte>
    requires FitsTail(t)
  {
    BE(t.hashType, 4) + (t.hashPrevOuts + (t.hashSequence + (t.hashOutputs + BE(t.inputIndex, 8))))
  }

  /** A slice with its length in front; the length is cut down to 16 bits. */
  function WriteSlice(s: seq<byte>): seq<byte> {
    BE(|s|, 2) + s
  }

  function WriteBody(w: Wire): seq<byte>
    requires FitsFixed(w)
  {
    w.pubKey + (WriteSlice(w.singleTweak) + (w.doubleTweak + (WriteSlice(w.witnessScript)
    + (BE(w.value, 8) + (WriteSlice(w.pkScript) + WriteTail(w.tail))))))
  }

  // ---------------------------------------------------------------- reading forwards

  /** The front `n` bytes and the rest. */
  function Front(bs: seq<byte>, n: nat): Option<(seq<byte>, seq<byte>)> {
    if |bs| < n then None else Some((bs[..n], bs[n..]))
  }

  /** A slice with its length in front. */
  function ReadSlice(bs: seq<byte>): Option<(seq<byte>, seq<byte>)> {
    if |bs| < 2 then None else Front(bs[2..], FromBE(bs[..2]))
  }

  function ReadTail(bs: seq<byte>): Option<Tail> {
    if |bs| != 108 then None
    else Some(Tail(FromBE(bs[..4]), bs[4..36], bs[36..68], bs[68..100], FromBE(bs[100..])))
  }

  /** Everything behind the witness script. */
  function ReadOutput(bs: seq<byte>): Option<(nat, seq<byte>, Tail)> {
    if |bs| < 8 then None
    else
      match ReadSlice(bs[8..])
      case None => None
      case Some((pk, r)) =>
        match ReadTail(r)
        case None => None
        case Some(t) => Some((FromBE(bs[..8]), pk, t))
  }

  /** Everything behind the single tweak. */
  function ReadScripts(bs: seq<byte>): Option<(seq<byte>, seq<byte>, nat, seq<byte>, Tail)> {
    if |bs| < 32 then None
    else
      match ReadSlice(bs[32..])
      case None => None
      case Some((script, r)) =>
        match ReadOutput(r)
        case None => None
        case Some((v, pk, t)) => Some((bs[..32], script, v, pk, t))
  }

  function ReadBody(bs: seq<byte>): Option<Wire> {
    if |bs| < 33 then None
    else
      match ReadSlice(bs[33..])
      case None => None
      case Some((tweak, r)) =>
        match ReadScripts(r)
        case None => None
        case Some((double, script, v, pk, t)) => Some(Wire(bs[..33], tweak, double, script, v, pk, t))
  }

  /** A descriptor: its length and its fields, and nothing behind them. */
  function ReadDescriptor(bs: seq<byte>): Option<Wire> {
    if |bs| < 2 then None
    else if FromBE(bs[..2]) != |bs| - 2 then None
    else ReadBody(bs[2..])
  }

  // ---------------------------------------------------------------- what is accepted

  lemma Split2(a: seq<byte>, b: seq<byte>)
    ensures (a + b)[..|a|] == a && (a + b)[|a|..] == b
  {
  }

  /** What a slice is written as is read back, with the rest left over. */
  lemma SliceRead(s: seq<byte>, rest: seq<byte>)
    requires |s| < 0x1_0000
    ensures ReadSlice(WriteSlice(s) + rest) == Some((s, rest))
  {
    hide Pow256, FromBE, BE;
    Pow256Values();
    FromBEOfBE(|s|, 2);
    assert WriteSlice(s) + rest == BE(|s|, 2) + (s + rest);
    Split2(BE(|s|, 2), s + rest);
    Split2(s, rest);
  }

  lemma SliceExactly(bs: seq<byte>, s: seq<byte>, rest: seq<byte>)
    ensures ReadSlice(bs) == Some((s, rest)) <==> |s| < 0x1_0000 && bs == WriteSlice(s) + rest
  {
    hide Pow256, FromBE, BE;
    if ReadSlice(bs) == Some((s, rest)) {
      Pow256Values();
      BEOfFromBE(bs[..2]);
      assert bs == bs[..2] + bs[2..];
      assert bs[2..] == s + rest;
      assert bs == BE(|s|, 2) + (s + rest) == WriteSlice(s) + rest;
    }
    if |s| < 0x1_0000 && bs == WriteSlice(s) + rest {
      SliceRead(s, rest);
    }
  }

  lemma UintExactly(bs: seq<byte>, n: nat, v: nat)
    requires |bs| == n
    ensures FromBE(bs) == v <==> v < Pow256(n) && bs == BE(v, n)
  {
    BEOfFromBE(bs);
    if v < Pow256(n) {
      FromBEOfBE(v, n);
    }
  }

  lemma TailExactly(bs: seq<byte>, t: Tail)
    ensures ReadTail(bs) == Some(t) <==> FitsTail(t) && bs == WriteTail(t)
  {
    hide BE, FromBE, Pow256;
    if |bs| == 108 {
      UintExactly(bs[..4], 4, t.hashType);
      UintExactly(bs[100..], 8, t.inputIndex);
      assert bs == bs[..4] + (bs[4..36] + (bs[36..68] + (bs[68..100] + bs[100..])));
    }
    if FitsTail(t) && bs == WriteTail(t) {
      TailParts(BE(t.hashType, 4), t.hashPrevOuts, t.hashSequence, t.hashOutputs, BE(t.inputIndex, 8));
    }
  }

  lemma TailParts(a: seq<byte>, b: seq<byte>, c: seq<byte>, d: seq<byte>, e: seq<byte>)
    requires |a| == 4 && |b| == |c| == |d| == 32 && |e| == 8
    ensures var bs := a + (b + (c + (d + e)));
      |bs| == 108 && bs[..4] == a && bs[4..36] == b && bs[36..68] == c && bs[68..100] == d && bs[100..] == e
  {
  }

  lemma OutputExactly(bs: seq<byte>, v: nat, pk: seq<byte>, t: Tail)
    ensures ReadOutput(bs) == Some((v, pk, t))
       <==> v < Pow256(8) && |pk| < 0x1_0000 && FitsTail(t) && bs == BE(v, 8) + (WriteSlice(pk) + WriteTail(t))
  {
    hide BE, FromBE, Pow256, ReadSlice, WriteSlice, ReadTail, WriteTail, FitsTail;
    if |bs| >= 8 {
      UintExactly(bs[..8], 8, v);
      assert bs == bs[..8] + bs[8..];
      if ReadSlice(bs[8..]).Some? {
        var p := ReadSlice(bs[8..]).value;
        SliceExactly(bs[8..], p.0, p.1);
        TailExactly(p.1, t);
      }
    }
    if v < Pow256(8) && |pk| < 0x1_0000 && FitsTail(t) && bs == BE(v, 8) + (WriteSlice(pk) + WriteTail(t)) {
      Split2(BE(v, 8), WriteSlice(pk) + WriteTail(t));
      UintExactly(bs[..8], 8, v);
      SliceExactly(bs[8..], pk, WriteTail(t));
      TailExactly(WriteTail(t), t);
    }
  }

  lemma ScriptsExactly(bs: seq<byte>, double: seq<byte>, script: seq<byte>, v: nat, pk: seq<byte>, t: Tail)
    ensures ReadScripts(bs) == Some((double, script, v, pk, t))
       <==> |double| == 32 && |script| < 0x1_0000 && v < Pow256(8) && |pk| < 0x1_0000 && FitsTail(t)
            && bs == double + (WriteSlice(script) + (BE(v, 8) + (WriteSlice(pk) + WriteTail(t))))
  {
    hide BE, FromBE, Pow256, ReadSlice, WriteSlice, ReadOutput, WriteTail, FitsTail;
    if |bs| >= 32 {
      assert bs == bs[..32] + bs[32..];
      if ReadSlice(bs[32..]).Some? {
        var p := ReadSlice(bs[32..]).value;
        SliceExactly(bs[32..], p.0, p.1);
        OutputExactly(p.1, v, pk, t);
      }
    }
    if |double| == 32 && |script| < 0x1_0000 && v < Pow256(8) && |pk| < 0x1_0000 && FitsTail(t)
       && bs == double + (WriteSlice(script) + (BE(v, 8) + (WriteSlice(pk) + WriteTail(t)))) {
      var r := BE(v, 8) + (WriteSlice(pk) + WriteTail(t));
      Split2(double, WriteSlice(script) + r);
      SliceExactly(bs[32..], script, r);
      OutputExactly(r, v, pk, t);
    }
  }

  /** The fields of variable size can have their lengths written in 16 bits. */
  predicate FitsSlices(w: Wire) {
    |w.singleTweak| < 0x1_0000 && |w.witnessScript| < 0x1_0000 && |w.pkScript| < 0x1_0000
  }

  lemma BodyExactly(bs: seq<byte>, w: Wire)
    ensures ReadBody(bs) == Some(w) <==> FitsFixed(w) && FitsSlices(w) && bs == WriteBody(w)
  {
    hide BE, FromBE, Pow256, ReadSlice, WriteSlice, ReadScripts, WriteTail, FitsTail;
    if |bs| >= 33 {
      assert bs == bs[..33] + bs[33..];
      if ReadSlice(bs[33..]).Some? {
        var p := ReadSlice(bs[33..]).value;
        SliceExactly(bs[33..], p.0, p.1);
        ScriptsExactly(p.1, w.doubleTweak, w.witnessScript, w.value, w.pkScript, w.tail);
      }
    }
    if FitsFixed(w) && FitsSlices(w) && bs == WriteBody(w) {
      var r := w.doubleTweak + (WriteSlice(w.witnessScript) + (BE(w.value, 8) + (WriteSlice(w.pkScript) + WriteTail(w.tail))));
      Split2(w.pubKey, WriteSlice(w.singleTweak) + r);
      SliceExactly(bs[33..], w.singleTweak, r);
      ScriptsExactly(r, w.doubleTweak, w.witnessScript, w.value, w.pkScript, w.tail);
    }
  }

  lemma BodyCoversSlices(w: Wire)
    requires FitsFixed(w) && |WriteBody(w)| < 0x1_0000
    ensures FitsSlices(w)
  {
    hide BE;
  }

  /** What is accepted is exactly what can be written with a length of 16 bits, and it is read as what was written. */
  lemma DescriptorExactly(bs: seq<byte>, w: Wire)
    ensures ReadDescriptor(bs) == Some(w) <==> FitsFixed(w) && |WriteBody(w)| < 0x1_0000 && bs == WriteSlice(WriteBody(w))
  {
    hide FromBE, BE, ReadBody, WriteBody, FitsFixed, FitsSlices;
    Pow256Values();
    if |bs| >= 2 {
      UintExactly(bs[..2], 2, |bs| - 2);
      BodyExactly(bs[2..], w);
      assert bs == bs[..2] + bs[2..];
    }
    if FitsFixed(w) && |WriteBody(w)| < 0x1_0000 && bs == WriteSlice(WriteBody(w)) {
      Split2(BE(|WriteBody(w)|, 2), WriteBody(w));
      BodyCoversSlices(w);
    }
  }

  // ---------------------------------------------------------------- the proxy

  /** The values that the proxy's types can hold. */
  predicate Held(d: SignDescriptor) {
    && (d.pubKey.Some? ==> |d.pubKey.value| == 33) && (d.doubleTweak.Some? ==> |d.doubleTweak.value| == 32)
    && |d.hashPrevOuts| == |d.hashSequence| == |d.hashOutputs| == 32 && d.hashType < Pow256(4)
    && -2 * d.value <= Pow256(8) && 2 * d.value < Pow256(8) && -2 * d.inputIndex <= Pow256(8) && 2 * d.inputIndex < Pow256(8)
  }

  /** The bytes of a slice. */
  function BytesOf(x: Option<seq<byte>>): seq<byte> {
    if x.Some? then x.value else []
  }

  /** The fields that are written for a descriptor: absent keys become zeros, and absent slices are as empty ones. */
  function OnWire(d: SignDescriptor): (w: Wire)
    requires Held(d)
    ensures FitsFixed(w)
  {
    Wire(if d.pubKey.Some? then d.pubKey.value else Repeat(0, 33), BytesOf(d.singleTweak),
         if d.doubleTweak.Some? then d.doubleTweak.value else Repeat(0, 32), BytesOf(d.witnessScript),
         ToUnsigned(d.value, 8), d.pkScript,
         Tail(d.hashType, d.hashPrevOuts, d.hashSequence, d.hashOutputs, ToUnsigned(d.inputIndex, 8)))
  }

  /** The zero-filling loops. */
  method WriteZeros(buf0: seq<byte>, n: nat) returns (buf: seq<byte>)
    ensures buf == buf0 + Repeat(0, n)
  {
    buf := buf0;
    for i := 0 to n
      invariant buf == buf0 + Repeat(0, i)
    {
      buf := buf + [0];
    }
  }

  /** `serialize`. */
  method Serialize(s: SignDescriptor) returns (r: seq<byte>)
    requires Held(s)
    ensures r == WriteSlice(WriteBody(OnWire(s)))
  {
    hide BE, Repeat;
    var buf: seq<byte> := [];
    if s.pubKey.Some? {
      buf := buf + s.pubKey.value;
    } else {
      buf := WriteZeros(buf, 33);
    }
    assert buf == OnWire(s).pubKey;
    buf := buf + BE(|BytesOf(s.singleTweak)|, 2);
    buf := buf + BytesOf(s.singleTweak);
    if s.doubleTweak.Some? {
      buf := buf + s.doubleTweak.value;
    } else {
      buf := WriteZeros(buf, 32);
    }
    buf := buf + BE(|BytesOf(s.witnessScript)|, 2);
    buf := buf + BytesOf(s.witnessScript);
    buf := buf + BE(ToUnsigned(s.value, 8), 8);
    buf := buf + BE(|s.pkScript|, 2);
    buf := buf + s.pkScript;
    buf := buf + BE(s.hashType, 4);
    buf := buf + s.hashPrevOuts;
    buf := buf + s.hashSequence;
    buf := buf + s.hashOutputs;
    buf := buf + BE(ToUnsigned(s.inputIndex, 8), 8);
    InOrder(OnWire(s), buf);
    r := BE(|buf|, 2) + buf;
  }

  lemma InOrder(w: Wire, bs: seq<byte>)
    requires FitsFixed(w)
    requires bs == w.pubKey + BE(|w.singleTweak|, 2) + w.singleTweak + w.doubleTweak + BE(|w.witnessScript|, 2) + w.witnessScript
                   + BE(w.value, 8) + BE(|w.pkScript|, 2) + w.pkScript + BE(w.tail.hashType, 4) + w.tail.hashPrevOuts
                   + w.tail.hashSequence + w.tail.hashOutputs + BE(w.tail.inputIndex, 8)
    ensures bs == WriteBody(w)
  {
    hide BE;
  }

  /** A request: the transaction with its length, the descriptor, and the key of the node. */
  function Request(tx: seq<byte>, d: SignDescriptor, key: seq<byte>): seq<byte>
    requires Held(d)
  {
    WriteSlice(tx) + (WriteSlice(WriteBody(OnWire(d))) + key)
  }

  /** `serializetx`. */
  method SerializeTx(tx: seq<byte>, signDesc: SignDescriptor, key: seq<byte>) returns (r: seq<byte>)
    requires Held(signDesc) && |key| == 33
    ensures r == Request(tx, signDesc, key)
  {
    var byts := BE(|tx|, 2);
    byts := byts + tx;
    var part3 := Serialize(signDesc);
    byts := byts + part3;
    byts := byts + key;
    r := byts;
  }

  // ---------------------------------------------------------------- the parser in Go, which reads forwards

  /** The signer's parser; absent stands for a panic. */
  method ParseForwards(bs: seq<byte>) returns (r: Option<Wire>)
    ensures r == ReadDescriptor(bs)
  {
    hide FromBE;
    var signdesc := bs;
    if |signdesc| < 2 { return None; }
    var leng := FromBE(signdesc[..2]);
    signdesc := signdesc[2..];
    if leng != |signdesc| { return None; }
    if |signdesc| < 33 { return None; }
    var pubkey := signdesc[..33];
    signdesc := signdesc[33..];
    if |signdesc| < 2 { return None; }
    var singletweaklen := FromBE(signdesc[..2]);
    signdesc := signdesc[2..];
    if |signdesc| < singletweaklen { return None; }
    var singletweak := signdesc[..singletweaklen];
    signdesc := signdesc[singletweaklen..];
    if |signdesc| < 32 { return None; }
    var doubletweak := signdesc[..32];
    signdesc := signdesc[32..];
    if |signdesc| < 2 { return None; }
    var witnessscriptlen := FromBE(signdesc[..2]);
    signdesc := signdesc[2..];
    if |signdesc| < witnessscriptlen { return None; }
    var witnessscript := signdesc[..witnessscriptlen];
    signdesc := signdesc[witnessscriptlen..];
    var o := ParseOutputForwards(signdesc);
    if o.None? { return None; }
    return Some(Wire(pubkey, singletweak, doubletweak, witnessscript, o.value.0, o.value.1, o.value.2));
  }

  method ParseOutputForwards(bs: seq<byte>) returns (r: Option<(nat, seq<byte>, Tail)>)
    ensures r == ReadOutput(bs)
  {
    hide FromBE;
    var signdesc := bs;
    if |signdesc| < 8 { return None; }
    var outputvalue := FromBE(signdesc[..8]);
    signdesc := signdesc[8..];
    if |signdesc| < 2 { return None; }
    var outputpkscriptlen := FromBE(signdesc[..2]);
    signdesc := signdesc[2..];
    if |signdesc| < outputpkscriptlen { return None; }
    var outputpkscript := signdesc[..outputpkscriptlen];
    signdesc := signdesc[outputpkscriptlen..];
    var t := ParseTailForwards(signdesc);
    if t.None? { return None; }
    return Some((outputvalue, outputpkscript, t.value));
  }

  method ParseTailForwards(bs: seq<byte>) returns (r: Option<Tail>)
    ensures r == ReadTail(bs)
  {
    hide FromBE;
    var signdesc := bs;
    if |signdesc| < 4 { return None; }
    var hashtype := FromBE(signdesc[..4]);
    signdesc := signdesc[4..];
    if |signdesc| < 32 { return None; }
    var hashprevouts := signdesc[..32];
    signdesc := signdesc[32..];
    if |signdesc| < 32 { return None; }
    var hashsequence := signdesc[..32];
    signdesc := signdesc[32..];
    if |signdesc| < 32 { return None; }
    var hashoutputs := signdesc[..32];
    signdesc := signdesc[32..];
    if |signdesc| < 8 { return None; }
    assert signdesc[..8] == bs[100..108];
    var inputindex := FromBE(signdesc[..8]);
    signdesc := signdesc[8..];
    if |signdesc| != 0 { return None; }
    assert |bs| == 108 && bs[100..] == bs[100..108];
    assert hashprevouts == bs[4..36] && hashsequence == bs[36..68] && hashoutputs == bs[68..100];
    return Some(Tail(hashtype, hashprevouts, hashsequence, hashoutputs, inputindex));
  }

  // ---------------------------------------------------------------- the parser in Python, which strips the tail from the end

  /** `x[:n]`. */
  function UpTo(x: seq<byte>, n: int): seq<byte> {
    var e := if n < 0 then |x| + n else n;
    if e <= 0 then [] else if e >= |x| then x else x[..e]
  }

  /** `x[n:]`. */
  function From(x: seq<byte>, n: int): seq<byte> {
    var b := if n < 0 then |x| + n else n;
    if b <= 0 then x else if b >= |x| then [] else x[b..]
  }

  /** `toint`; absent stands for a failed assertion.  Note that one byte is accepted where two are expected. */
  function ToInt(x: seq<byte>): Option<nat> {
    if |x| == 1 || |x| == 2 || |x| == 4 || |x| == 8 then Some(FromBE(x)) else None
  }

  /** `decodeSigndesc`, without the replacement of empty and zero fields; absent stands for a failed assertion. */
  method DecodeSigndesc(bs: seq<byte>) returns (r: Option<Wire>)
    ensures r == ReadDescriptor(bs)
  {
    hide FromBE;
    var rest := bs;
    var overalllength := ToInt(UpTo(rest, 2));
    rest := From(rest, 2);
    if overalllength.None? || overalllength.value != |rest| { return None; }
    var pubkey := UpTo(rest, 33);
    rest := From(rest, 33);
    var singletweaklen := ToInt(UpTo(rest, 2));
    rest := From(rest, 2);
    if singletweaklen.None? || |rest| <= singletweaklen.value { return None; }
    var singletweak := UpTo(rest, singletweaklen.value);
    rest := From(rest, singletweaklen.value);
    var o := DecodeScripts(rest);
    if o.None? { return None; }
    return Some(Wire(pubkey, singletweak, o.value.0, o.value.1, o.value.2, o.value.3, o.value.4));
  }

  method DecodeScripts(bs: seq<byte>) returns (r: Option<(seq<byte>, seq<byte>, nat, seq<byte>, Tail)>)
    ensures r == ReadScripts(bs)
  {
    hide FromBE;
    var rest := bs;
    var doubletweak := UpTo(rest, 32);
    rest := From(rest, 32);
    var witnessscriptlen := ToInt(UpTo(rest, 2));
    rest := From(rest, 2);
    if witnessscriptlen.None? || |rest| <= witnessscriptlen.value { return None; }
    var witnessscript := UpTo(rest, witnessscriptlen.value);
    rest := From(rest, witnessscriptlen.value);
    if |rest| <= 4 { return None; }
    var o := DecodeOutput(rest);
    if o.None? { return None; }
    return Some((doubletweak, witnessscript, o.value.0, o.value.1, o.value.2));
  }

  method DecodeOutput(bs: seq<byte>) returns (r: Option<(nat, seq<byte>, Tail)>)
    requires |bs| > 4
    ensures r == ReadOutput(bs)
  {
    hide FromBE;
    var rest := bs;
    var outputvalue := ToInt(UpTo(rest, 8));
    rest := From(rest, 8);
    if outputvalue.None? { return None; }
    var outputpkscriptlen := ToInt(UpTo(rest, 2));
    rest := From(rest, 2);
    if outputpkscriptlen.None? || |rest| <= outputpkscriptlen.value { return None; }
    var outputpkscript := UpTo(rest, outputpkscriptlen.value);
    rest := From(rest, outputpkscriptlen.value);
    var t := DecodeTail(rest);
    if t.None? { return None; }
    return Some((outputvalue.value, outputpkscript, t.value));
  }

  /** The fields of fixed size, taken off from the end. */
  method DecodeTail(bs: seq<byte>) returns (r: Option<Tail>)
    ensures r == ReadTail(bs)
  {
    hide FromBE;
    var rest := bs;
    var inputindex := From(rest, -8);
    rest := UpTo(rest, -8);
    if |inputindex| != 8 { return None; }
    var index := ToInt(inputindex);
    var hashoutputs := From(rest, -32);
    rest := UpTo(rest, |rest| as int - 32);
    if |hashoutputs| != 32 { return None; }
    var hashsequence := From(rest, -32);
    rest := UpTo(rest, |rest| as int - 32);
    if |hashsequence| != 32 { return None; }
    var hashprevouts := From(rest, -32);
    rest := UpTo(rest, |rest| as int - 32);
    if |hashprevouts| != 32 { return None; }
    var hashtype := From(rest, -4);
    rest := UpTo(rest, -4);
    if |hashtype| != 4 { return None; }
    if |rest| != 0 { return None; }
    assert |bs| == 108;
    assert hashtype == bs[..4] && hashprevouts == bs[4..36] && hashsequence == bs[36..68] && hashoutputs == bs[68..100];
    assert inputindex == bs[100..];
    return Some(Tail(FromBE(hashtype), hashprevouts, hashsequence, hashoutputs, index.value));
  }

  /** `splitSigndescAndTx`: transaction, descriptor and node key; absent stands for a failed assertion. */
  function SplitRequest(bs: seq<byte>): Option<(seq<byte>, seq<byte>, seq<byte>)> {
    var txlen := ToInt(UpTo(bs, 2));
    var rest := From(bs, 2);
    if txlen.None? || txlen.value >= |rest| then None
    else
      var body := UpTo(rest, -33);
      Some((UpTo(body, txlen.value), From(body, txlen.value), From(rest, -33)))
  }

  // ---------------------------------------------------------------- round trips

  /** A descriptor is read back exactly when its length fits in 16 bits. */
  lemma DescriptorRoundTrip(d: SignDescriptor)
    requires Held(d)
    ensures ReadDescriptor(WriteSlice(WriteBody(OnWire(d)))) == Some(OnWire(d)) <==> |WriteBody(OnWire(d))| < 0x1_0000
  {
    hide WriteBody, WriteSlice, ReadDescriptor, OnWire;
    DescriptorExactly(WriteSlice(WriteBody(OnWire(d))), OnWire(d));
  }

  /** The request falls apart into what went into it exactly when the length of the transaction fits in 16 bits. */
  lemma RequestRoundTrip(tx: seq<byte>, desc: seq<byte>, key: seq<byte>)
    requires |key| == 33
    ensures SplitRequest(WriteSlice(tx) + (desc + key)) == Some((tx, desc, key)) <==> |tx| < 0x1_0000
  {
    hide FromBE, BE;
    Pow256Values();
    var bs := WriteSlice(tx) + (desc + key);
    var rest := tx + (desc + key);
    assert bs == BE(|tx|, 2) + rest;
    Split2(BE(|tx|, 2), rest);
    if |tx| < 0x1_0000 {
      FromBEOfBE(|tx|, 2);
      SplitBody(tx, desc, key);
    } else {
      BEOfFromBE(bs[..2]);
    }
  }

  lemma SplitBody(tx: seq<byte>, desc: seq<byte>, key: seq<byte>)
    requires |key| == 33
    ensures var rest := tx + (desc + key);
      UpTo(rest, -33) == tx + desc && From(rest, -33) == key && UpTo(tx + desc, |tx|) == tx && From(tx + desc, |tx|) == desc
  {
    var rest := tx + (desc + key);
    assert rest == (tx + desc) + key;
    Split2(tx + desc, key);
    Split2(tx, desc);
  }

  // ---------------------------------------------------------------- the descriptors that the parsers make of the fields

  predicate AllZero(bs: seq<byte>) {
    forall i :: 0 <= i < |bs| ==> bs[i] == 0
  }

  /** The descriptor in Go: an all-zero public key counts as absent; slices are there, if only with length 0. */
  function GoDescriptor(w: Wire): SignDescriptor
    requires FitsFixed(w)
  {
    SignDescriptor(if AllZero(w.pubKey) then None else Some(w.pubKey), Some(w.singleTweak), Some(w.doubleTweak), Some(w.witnessScript),
                   ToSigned(w.value, 8), w.pkScript, w.tail.hashType, w.tail.hashPrevOuts, w.tail.hashSequence, w.tail.hashOutputs,
                   ToSigned(w.tail.inputIndex, 8))
  }

  /** An empty string counts as absent. */
  function Normalised(bs: seq<byte>): Option<seq<byte>> {
    if |bs| == 0 then None else Some(bs)
  }

  /** The descriptor in Python 2, where bytes are strings: an all-zero double tweak and empty slices count as absent; integers are unsigned. */
  function PythonDescriptor(w: Wire): SignDescriptor
    requires FitsFixed(w)
  {
    SignDescriptor(Some(w.pubKey), Normalised(w.singleTweak), if AllZero(w.doubleTweak) then None else Some(w.doubleTweak),
                   Normalised(w.witnessScript), w.value, w.pkScript, w.tail.hashType, w.tail.hashPrevOuts, w.tail.hashSequence,
                   w.tail.hashOutputs, w.tail.inputIndex)
  }

  /** All slices are there, there is a double tweak, and the key is not all zeros. */
  predicate KeptByGo(d: SignDescriptor) {
    d.singleTweak.Some? && d.witnessScript.Some? && d.doubleTweak.Some? && (d.pubKey.Some? ==> !AllZero(d.pubKey.value))
  }

  /** No slice is there but empty, there is a key, the double tweak is not all zeros, and no number is negative. */
  predicate KeptByPython(d: SignDescriptor) {
    && d.singleTweak != Some([]) && d.witnessScript != Some([])
    && d.pubKey.Some? && (d.doubleTweak.Some? ==> !AllZero(d.doubleTweak.value)) && d.value >= 0 && d.inputIndex >= 0
  }

  /** What Go makes of a descriptor is the descriptor itself exactly in these cases. */
  lemma GoGetsDescriptor(d: SignDescriptor)
    requires Held(d)
    ensures GoDescriptor(OnWire(d)) == d <==> KeptByGo(d)
  {
    SignedBack(d.value);
    SignedBack(d.inputIndex);
  }

  lemma SignedBack(x: int)
    requires -2 * x <= Pow256(8) && 2 * x < Pow256(8)
    ensures ToUnsigned(x, 8) < Pow256(8) && ToSigned(ToUnsigned(x, 8), 8) == x
  {
  }

  /** What Python makes of it is the descriptor itself exactly in these cases. */
  lemma PythonGetsDescriptor(d: SignDescriptor)
    requires Held(d)
    ensures PythonDescriptor(OnWire(d)) == d <==> KeptByPython(d)
  {
    Pow256Values();
  }

  /** How `maybeTweakPrivKey` tweaks the key. */
  datatype Tweaking = SingleTweaking | DoubleTweaking | NoTweaking

  function TweakingOf(d: SignDescriptor): (r: Tweaking)
    ensures r.SingleTweaking? <==> d.singleTweak.Some?
    ensures r.DoubleTweaking? <==> d.singleTweak.None? && d.doubleTweak.Some?
  {
    if d.singleTweak.Some? then SingleTweaking else if d.doubleTweak.Some? then DoubleTweaking else NoTweaking
  }

  /** The signer tweaks the key as the descriptor asks exactly when there is a single tweak; it never uses the double tweak. */
  lemma TweakingKept(d: SignDescriptor)
    requires Held(d)
    ensures GoDescriptor(OnWire(d)).singleTweak.Some?
    ensures TweakingOf(GoDescriptor(OnWire(d))) == TweakingOf(d) <==> d.singleTweak.Some?
    ensures TweakingOf(PythonDescriptor(OnWire(d))) == TweakingOf(d)
       <==> d.singleTweak != Some([]) && (d.singleTweak == None && d.doubleTweak.Some? ==> !AllZero(d.doubleTweak.value))
  {
    hide Pow256;
    if d.doubleTweak.None? {
      assert AllZero(OnWire(d).doubleTweak);
    }
  }

  // ---------------------------------------------------------------- from end to end

  function GoParsed(bs: seq<byte>): Option<SignDescriptor> {
    match ReadDescriptor(bs)
    case None => None
    case Some(w) =>
      DescriptorExactly(bs, w);
      Some(GoDescriptor(w))
  }

  function PythonParsed(bs: seq<byte>): Option<SignDescriptor> {
    match ReadDescriptor(bs)
    case None => None
    case Some(w) =>
      DescriptorExactly(bs, w);
      Some(PythonDescriptor(w))
  }

  /** The signer's parser with the conversions behind it. */
  method GoSignDescriptor(bs: seq<byte>) returns (r: Option<SignDescriptor>)
    ensures r == GoParsed(bs)
  {
    hide ReadDescriptor, WriteBody;
    var o := ParseForwards(bs);
    if o.None? { return None; }
    var w := o.value;
    DescriptorExactly(bs, w);
    var cpubkey := w.pubKey[1..];
    var zero := w.pubKey[0] == 0;
    ghost var seen := 1;
    while |cpubkey| != 0
      invariant 1 <= seen <= 33 && (seen - 1) % 8 == 0 && cpubkey == w.pubKey[seen..]
      invariant zero <==> AllZero(w.pubKey[..seen])
      decreases |cpubkey|
    {
      assert cpubkey[..8] == w.pubKey[seen..seen + 8];
      zero := zero && cpubkey[..8] == Repeat(0, 8);
      assert w.pubKey[..seen + 8] == w.pubKey[..seen] + w.pubKey[seen..seen + 8];
      cpubkey := cpubkey[8..];
      seen := seen + 8;
    }
    assert w.pubKey[..seen] == w.pubKey;
    r := Some(SignDescriptor(if zero then None else Some(w.pubKey), Some(w.singleTweak), Some(w.doubleTweak), Some(w.witnessScript),
                             ToSigned(w.value, 8), w.pkScript, w.tail.hashType, w.tail.hashPrevOuts, w.tail.hashSequence,
                             w.tail.hashOutputs, ToSigned(w.tail.inputIndex, 8)));
  }

  /** `decodeSigndesc` with the replacement of empty and zero fields.  The hash type, which stays a string there, is shown as a number. */
  method PythonSignDescriptor(bs: seq<byte>) returns (r: Option<SignDescriptor>)
    ensures r == PythonParsed(bs)
  {
    hide ReadDescriptor, WriteBody;
    var o := DecodeSigndesc(bs);
    if o.None? { return None; }
    var w := o.value;
    DescriptorExactly(bs, w);
    var doubletweak := Some(w.doubleTweak);
    if w.doubleTweak == Repeat(0, 32) {
      doubletweak := None;
    }
    var singletweak := Some(w.singleTweak);
    if |w.singleTweak| == 0 {
      singletweak := None;
    }
    var witnessscript := Some(w.witnessScript);
    if |w.witnessScript| == 0 {
      witnessscript := None;
    }
    r := Some(SignDescriptor(Some(w.pubKey), singletweak, doubletweak, witnessscript, w.value, w.pkScript, w.tail.hashType,
                             w.tail.hashPrevOuts, w.tail.hashSequence, w.tail.hashOutputs, w.tail.inputIndex));
  }

  /** The signer's request, which has no key of a node behind it: transaction and descriptor. */
  function GoRequest(bs: seq<byte>): Option<(seq<byte>, SignDescriptor)> {
    match ReadSlice(bs)
    case None => None
    case Some((tx, rest)) =>
      match GoParsed(rest)
      case None => None
      case Some(d) => Some((tx, d))
  }

  /** The request in Python: transaction, descriptor and key. */
  function PythonRequest(bs: seq<byte>): Option<(seq<byte>, SignDescriptor, seq<byte>)> {
    match SplitRequest(bs)
    case None => None
    case Some((tx, desc, key)) =>
      match PythonParsed(desc)
      case None => None
      case Some(d) => Some((tx, d, key))
  }

  /** A descriptor that is too long is not accepted at all. */
  lemma OnlyAsWritten(d: SignDescriptor)
    requires Held(d)
    ensures ReadDescriptor(WriteSlice(WriteBody(OnWire(d)))) == if |WriteBody(OnWire(d))| < 0x1_0000 then Some(OnWire(d)) else None
  {
    hide WriteBody, ReadDescriptor, OnWire;
    var bs := WriteSlice(WriteBody(OnWire(d)));
    DescriptorExactly(bs, OnWire(d));
    if ReadDescriptor(bs).Some? {
      DescriptorExactly(bs, ReadDescriptor(bs).value);
    }
  }

  /** The signer gets out of a request what the proxy was given exactly when both lengths fit in 16 bits and it keeps the descriptor. */
  lemma GoEndToEnd(tx: seq<byte>, d: SignDescriptor)
    requires Held(d)
    ensures GoRequest(Request(tx, d, [])) == Some((tx, d)) <==> |tx| < 0x1_0000 && |WriteBody(OnWire(d))| < 0x1_0000 && KeptByGo(d)
  {
    hide WriteBody, ReadDescriptor, OnWire, ReadSlice, WriteSlice, Held, KeptByGo, GoDescriptor;
    var desc := WriteSlice(WriteBody(OnWire(d)));
    var bs := Request(tx, d, []);
    assert desc + [] == desc;
    SliceExactly(bs, tx, desc);
    OnlyAsWritten(d);
    GoGetsDescriptor(d);
    if ReadSlice(bs).Some? {
      SliceExactly(bs, ReadSlice(bs).value.0, ReadSlice(bs).value.1);
    }
  }

  /** Electrum gets out of a request what the proxy was given exactly when both lengths fit in 16 bits and it keeps the descriptor. */
  lemma PythonEndToEnd(tx: seq<byte>, d: SignDescriptor, key: seq<byte>)
    requires Held(d) && |key| == 33
    ensures PythonRequest(Request(tx, d, key)) == Some((tx, d, key))
       <==> |tx| < 0x1_0000 && |WriteBody(OnWire(d))| < 0x1_0000 && KeptByPython(d)
  {
    hide WriteBody, ReadDescriptor, OnWire, SplitRequest, WriteSlice, Held, KeptByPython, PythonDescriptor;
    RequestRoundTrip(tx, WriteSlice(WriteBody(OnWire(d))), key);
    OnlyAsWritten(d);
    PythonGetsDescriptor(d);
    SplitIsShort(Request(tx, d, key));
  }

  lemma SplitIsShort(bs: seq<byte>)
    ensures SplitRequest(bs).Some? ==> |SplitRequest(bs).value.0| < 0x1_0000
  {
    hide FromBE;
    Pow256Values();
    if SplitRequest(bs).Some? {
      BEOfFromBE(UpTo(bs, 2));
    }
  }
}
