/** Bitcoin scripts as lists of opcodes. */
module Scripts {
  import opened Bytes
  import opened Wrappers

  const OP_0: byte := 0x00
  const OP_DATA_20: byte := 0x14
  const OP_DUP: byte := 0x76
  const OP_EQUALVERIFY: byte := 0x88
  const OP_HASH160: byte := 0xa9
  const OP_CHECKSIG: byte := 0xac

  /** An opcode with the data that it pushes. */
  datatype Pop = Pop(op: byte, data: seq<byte>)

  /** The column `length` of the opcode table: the size with data, or minus the width of the length field. */
  function OpLength(op: byte): (n: int)
    ensures n >= 1 || n == -1 || n == -2 || n == -4
  {
    if 1 <= op <= 75 then op + 1
    else if op == 76 then -1
    else if op == 77 then -2
    else if op == 78 then -4
    else 1
  }

  /** `parsedOpcode.bytes`; absent when the data does not have the length that the opcode asks for. */
  function PopBytes(p: Pop): (r: Option<seq<byte>>)
    ensures r.Some? ==> |r.value| >= 1
  {
    var n := OpLength(p.op);
    if n == 1 then (if p.data != [] then None else Some([p.op]))
    else if n > 1 then (if |[p.op] + p.data| != n then None else Some([p.op] + p.data))
    else
      var field := LE(|p.data|, -n);
      var bs := [p.op] + field + p.data;
      if |bs| != FromLE(field) + 1 + |field| then None else Some(bs)
  }

  /** `unparseScript`. */
  function Unparse(pops: seq<Pop>): Option<seq<byte>> {
    if pops == [] then Some([])
    else
      match PopBytes(pops[0])
      case None => None
      case Some(b) =>
        match Unparse(pops[1..])
        case None => None
        case Some(r) => Some(b + r)
  }

  /** The opcode at the front of a script, and the size of it with its data; absent when the script is too short. */
  function Front(s: seq<byte>): (r: Option<(Pop, nat)>)
    requires s != []
    ensures r.Some? ==> 1 <= r.value.1 <= |s|
  {
    var n := OpLength(s[0]);
    if n == 1 then Some((Pop(s[0], []), 1))
    else if n > 1 then (if |s| < n then None else Some((Pop(s[0], s[1..n]), n)))
    else if |s| - 1 < -n then None
    else
      var l := FromLE(s[1..1 - n]);
      var off := 1 - n;
      if l > |s| - off then None
      else Some((Pop(s[0], s[off..off + l]), off + l))
  }

  /** The opcodes of a script up to the end or to the first error. */
  datatype Parsing = Parsing(pops: seq<Pop>, ok: bool)

  /** `parseScriptTemplate` with the opcode table. */
  function Parse(s: seq<byte>): Parsing
    decreases |s|
  {
    if s == [] then Parsing([], true)
    else
      match Front(s)
      case None => Parsing([], false)
      case Some((p, n)) =>
        var r := Parse(s[n..]);
        Parsing([p] + r.pops, r.ok)
  }

  // ---------------------------------------------------------------- one opcode

  /** The length field reads back as the length exactly when the length fits. */
  lemma LengthField(l: nat, w: nat)
    ensures FromLE(LE(l, w)) == l <==> l < Pow256(w)
  {
    if l < Pow256(w) {
      FromLEOfLE(l, w);
    }
    LEOfFromLE(LE(l, w));
  }

  lemma PushBytes(p: Pop, n: nat)
    requires OpLength(p.op) + n == 0 && n > 0
    ensures PopBytes(p) == if |p.data| < Pow256(n) then Some([p.op] + LE(|p.data|, n) + p.data) else None
  {
    LengthField(|p.data|, n);
  }

  /** An opcode is at the front of a script exactly when the script begins with its bytes. */
  lemma FrontExactly(s: seq<byte>, p: Pop)
    requires s != []
    ensures Front(s).Some? && Front(s).value.0 == p <==> PopBytes(p).Some? && PopBytes(p).value <= s
    ensures Front(s).Some? && Front(s).value.0 == p ==> |PopBytes(p).value| == Front(s).value.1
  {
    var n := OpLength(s[0]);
    if n < 0 {
      PushExactly(s, p, -n);
    } else if n == 1 {
      if p.op == s[0] {
        assert [p.op] <= s <==> s[..1] == [p.op];
        assert s[..1] == [s[0]];
      }
    } else {
      if p.op == s[0] && |s| >= n {
        assert s[..n] == [s[0]] + s[1..n];
      }
      if PopBytes(p).Some? && PopBytes(p).value <= s {
        assert PopBytes(p).value[0] == s[0];
        assert s[1..n] == PopBytes(p).value[1..];
      }
    }
    BytesBegin(p, s);
  }

  /** The same for a push whose length is in the script. */
  lemma PushExactly(s: seq<byte>, p: Pop, w: nat)
    requires s != [] && OpLength(s[0]) + w == 0 && w > 0
    ensures Front(s).Some? && Front(s).value.0 == p <==> PopBytes(p).Some? && PopBytes(p).value <= s
    ensures Front(s).Some? && Front(s).value.0 == p ==> |PopBytes(p).value| == Front(s).value.1
  {
    hide FromLE, LE, PopBytes;
    if p.op == s[0] {
      PushBytes(p, w);
      if |s| > w {
        LEOfFromLE(s[1..1 + w]);
        var l := FromLE(s[1..1 + w]);
        if l <= |s| - 1 - w {
          ThreeParts(s, 1 + w, 1 + w + l);
        }
      }
      if |p.data| < Pow256(w) && [p.op] + LE(|p.data|, w) + p.data <= s {
        PushParts(s, p.op, LE(|p.data|, w), p.data);
        FromLEOfLE(|p.data|, w);
      }
    }
    BytesBegin(p, s);
  }

  lemma ThreeParts(s: seq<byte>, i: nat, j: nat)
    requires 1 <= i <= j <= |s|
    ensures s[..j] == [s[0]] + s[1..i] + s[i..j]
  {
  }

  lemma PushParts(s: seq<byte>, op: byte, length: seq<byte>, data: seq<byte>)
    requires [op] + length + data <= s
    ensures s[0] == op && s[1..1 + |length|] == length && s[1 + |length|..1 + |length| + |data|] == data
  {
    var b := [op] + length + data;
    assert b[1..1 + |length|] == length && b[1 + |length|..] == data;
    assert s[..|b|] == b;
    assert s[1..1 + |length|] == s[..|b|][1..1 + |length|];
    assert s[1 + |length|..|b|] == s[..|b|][1 + |length|..];
  }

  /** The bytes of an opcode begin with its number. */
  lemma BytesBegin(p: Pop, s: seq<byte>)
    requires s != []
    ensures PopBytes(p).Some? && PopBytes(p).value <= s ==> p.op == s[0]
  {
    hide FromLE, LE;
    if PopBytes(p).Some? && PopBytes(p).value <= s {
      assert PopBytes(p).value[0] == s[0];
    }
  }

  // ---------------------------------------------------------------- whole scripts

  /** Whatever parsing yields unparses: to the script, or, after an error, to a proper prefix of it. */
  lemma {:induction false} UnparseOfParse(s: seq<byte>)
    ensures Unparse(Parse(s).pops).Some?
    ensures Parse(s).ok ==> Unparse(Parse(s).pops).value == s
    ensures !Parse(s).ok ==> Unparse(Parse(s).pops).value < s
    decreases |s|
  {
    hide Front, PopBytes;
    if s != [] && Front(s).Some? {
      var (p, n) := Front(s).value;
      FrontExactly(s, p);
      UnparseOfParse(s[n..]);
      var r := Parse(s[n..]);
      assert ([p] + r.pops)[1..] == r.pops;
      assert s == PopBytes(p).value + s[n..];
    }
  }

  /** Opcodes that can be unparsed are what parsing the result yields: no two lists of opcodes have the same bytes. */
  lemma {:induction false} ParseOfUnparse(pops: seq<Pop>)
    requires Unparse(pops).Some?
    ensures Parse(Unparse(pops).value) == Parsing(pops, true)
    decreases |pops|
  {
    hide Front, PopBytes;
    if pops != [] {
      var b, r := PopBytes(pops[0]).value, Unparse(pops[1..]).value;
      ParseOfUnparse(pops[1..]);
      FrontExactly(b + r, pops[0]);
      assert (b + r)[|b|..] == r;
      assert pops == [pops[0]] + pops[1..];
    }
  }

  // ---------------------------------------------------------------- the opcode table in numbers

  /** `b` are the bytes of the opcode `p`: a push of up to 75 bytes, a push with a length of one, two or four bytes, or a single byte. */
  predicate Written(p: Pop, b: seq<byte>) {
    || (1 <= p.op <= 75 && |p.data| == p.op && b == [p.op] + p.data)
    || (p.op == 0x4c && |p.data| < 0x100 && b == [p.op] + LE(|p.data|, 1) + p.data)
    || (p.op == 0x4d && |p.data| < 0x1_0000 && b == [p.op] + LE(|p.data|, 2) + p.data)
    || (p.op == 0x4e && |p.data| < 0x1_0000_0000 && b == [p.op] + LE(|p.data|, 4) + p.data)
    || ((p.op == 0 || p.op >= 0x4f) && p.data == [] && b == [p.op])
  }

  /** The script ends within its first opcode. */
  predicate TooShort(s: seq<byte>) {
    && s != []
    && (|| (1 <= s[0] <= 75 && |s| < 1 + s[0])
        || (s[0] == 0x4c && (|s| < 2 || |s| - 2 < FromLE(s[1..2])))
        || (s[0] == 0x4d && (|s| < 3 || |s| - 3 < FromLE(s[1..3])))
        || (s[0] == 0x4e && (|s| < 5 || |s| - 5 < FromLE(s[1..5]))))
  }

  lemma OpcodeTable(p: Pop, b: seq<byte>)
    ensures PopBytes(p) == Some(b) <==> Written(p, b)
  {
    hide LE, FromLE, Pow256;
    Pow256Values();
    if OpLength(p.op) < 0 {
      PushBytes(p, -OpLength(p.op));
    }
  }

  /** A script that begins with the bytes of an opcode parses to this opcode and what the rest parses to. */
  lemma WrittenFirst(p: Pop, b: seq<byte>, r: seq<byte>)
    requires Written(p, b)
    ensures Parse(b + r) == Parsing([p] + Parse(r).pops, Parse(r).ok)
  {
    hide Front, PopBytes, Written;
    OpcodeTable(p, b);
    FrontExactly(b + r, p);
    assert (b + r)[|b|..] == r;
  }

  /** The same for several opcodes. */
  lemma {:induction false} ParseBehind(pops: seq<Pop>, r: seq<byte>)
    requires Unparse(pops).Some?
    ensures Parse(Unparse(pops).value + r) == Parsing(pops + Parse(r).pops, Parse(r).ok)
    decreases |pops|
  {
    hide Parse, PopBytes, Written;
    if pops == [] {
      assert [] + r == r && [] + Parse(r).pops == Parse(r).pops;
    } else {
      var b, t := PopBytes(pops[0]).value, Unparse(pops[1..]).value;
      ParseBehind(pops[1..], r);
      OpcodeTable(pops[0], b);
      WrittenFirst(pops[0], b, t + r);
      assert (b + t) + r == b + (t + r);
      assert [pops[0]] + (pops[1..] + Parse(r).pops) == pops + Parse(r).pops;
    }
  }

  /** Parsing fails at the front of a script exactly when the script ends within its first opcode. */
  lemma ErrorExactly(s: seq<byte>)
    ensures Parse(s) == Parsing([], false) <==> TooShort(s)
  {
    hide FromLE;
    assert OpLength(0x4c) == -1 && OpLength(0x4d) == -2 && OpLength(0x4e) == -4;
  }

  /** What is parsed before an error is written at the front of the script, and what is left then ends within its first opcode. */
  lemma ParsedUpTo(s: seq<byte>)
    ensures var r := Parse(s);
      Unparse(r.pops).Some? && Unparse(r.pops).value <= s
      && var rest := s[|Unparse(r.pops).value|..];
         if r.ok then rest == [] else TooShort(rest)
  {
    hide Parse, Unparse, TooShort;
    var r := Parse(s);
    UnparseOfParse(s);
    var b := Unparse(r.pops).value;
    var rest := s[|b|..];
    assert s == b + rest;
    ParseBehind(r.pops, rest);
    if !r.ok {
      NothingAdded(r.pops, Parse(rest).pops);
      ErrorExactly(rest);
    }
  }

  lemma NothingAdded<T>(a: seq<T>, b: seq<T>)
    requires a == a + b
    ensures b == []
  {
    assert |a| == |a| + |b|;
  }

  // ---------------------------------------------------------------- the loops

  /** `parseScriptTemplate`. */
  method ParseScript(script: seq<byte>) returns (retScript: seq<Pop>, ok: bool)
    ensures Parsing(retScript, ok) == Parse(script)
  {
    hide FromLE, Parse, OpLength;
    retScript := [];
    var i := 0;
    ParseStart(script);
    while i < |script|
      invariant i <= |script|
      invariant Parse(script) == Parsing(retScript + Parse(script[i..]).pops, Parse(script[i..]).ok)
    {
      ghost var rest := script[i..];
      ParseStep(retScript, rest);
      var instr := script[i];
      var length := OpLength(instr);
      var data: seq<byte> := [];
      var next := i + 1;
      if length > 1 {
        if |script| - i < length {
          return retScript, false;
        }
        data := script[i + 1..i + length];
        Within(script, i, 1, length);
        next := i + length;
      } else if length < 0 {
        var off := i + 1;
        if |script| - off < -length {
          return retScript, false;
        }
        var l := FromLE(script[off..off - length]);
        Within(script, i, 1, 1 - length);
        off := off - length;
        if l > |script| - off {
          return retScript, false;
        }
        data := script[off..off + l];
        Within(script, i, 1 - length, 1 - length + l);
        next := off + l;
      }
      assert Front(rest) == Some((Pop(instr, data), next - i));
      Within(script, i, next - i, |rest|);
      retScript := retScript + [Pop(instr, data)];
      i := next;
    }
    ParseNothing(script[i..]);
    assert retScript + [] == retScript;
    ok := true;
  }

  /** A part of what is left of a script. */
  lemma Within(script: seq<byte>, i: nat, a: nat, b: nat)
    requires i <= |script| && a <= b <= |script| - i
    ensures script[i..][a..b] == script[i + a..i + b] && script[i..][a..] == script[i + a..]
  {
  }

  lemma ParseStart(s: seq<byte>)
    ensures Parse(s) == Parsing([] + Parse(s[0..]).pops, Parse(s[0..]).ok)
  {
    assert s[0..] == s && [] + Parse(s).pops == Parse(s).pops;
  }

  lemma ParseNothing(s: seq<byte>)
    requires s == []
    ensures Parse(s) == Parsing([], true)
  {
  }

  lemma ParseStep(acc: seq<Pop>, s: seq<byte>)
    requires s != []
    ensures Front(s).None? ==> Parsing(acc + Parse(s).pops, Parse(s).ok) == Parsing(acc, false)
    ensures Front(s).Some? ==>
      var t := Parse(s[Front(s).value.1..]);
      Parsing(acc + Parse(s).pops, Parse(s).ok) == Parsing(acc + [Front(s).value.0] + t.pops, t.ok)
  {
    hide Front;
  }

  /** `unparseScript`. */
  method UnparseScript(pops: seq<Pop>) returns (r: Option<seq<byte>>)
    ensures r == Unparse(pops)
  {
    hide PopBytes;
    var script: seq<byte> := [];
    assert pops[0..] == pops;
    if Unparse(pops).Some? {
      assert [] + Unparse(pops).value == Unparse(pops).value;
    }
    for i := 0 to |pops|
      invariant Unparse(pops) == match Unparse(pops[i..]) case None => None case Some(t) => Some(script + t)
    {
      assert pops[i..][0] == pops[i] && pops[i..][1..] == pops[i + 1..];
      var b := PopBytes(pops[i]);
      if b.None? {
        return None;
      }
      if Unparse(pops[i + 1..]).Some? {
        assert script + (b.value + Unparse(pops[i + 1..]).value) == (script + b.value) + Unparse(pops[i + 1..]).value;
      }
      script := script + b.value;
    }
    assert pops[|pops|..] == [] && script + [] == script;
    return Some(script);
  }
}
