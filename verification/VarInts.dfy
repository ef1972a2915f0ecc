/** Variable-length integers and the other primitives of the Bitcoin wire format. */
module VarInts {
  import opened Bytes
  import opened Wrappers

  /** A value read from the front of the input, and what is left. */
  datatype Parsed<+T> = Parsed(value: T, rest: seq<byte>)

  /** `WriteVarInt`. */
  function WriteVarInt(val: nat): (bs: seq<byte>)
    requires val < UINT64_MODULUS
    ensures 1 <= |bs| <= 9
  {
    if val < 0xfd then [val]
    else if val <= 0xffff then [0xfd] + LE(val, 2)
    else if val <= 0xffff_ffff then [0xfe] + LE(val, 4)
    else [0xff] + LE(val, 8)
  }

  /** `io.ReadFull` into `n` bytes; too few are an error. */
  function ReadBytes(bs: seq<byte>, n: nat): Outcome<Parsed<seq<byte>>> {
    if |bs| < n then Err else Ok(Parsed(bs[..n], bs[n..]))
  }

  /** A little-endian integer of `n` bytes. */
  function ReadUint(bs: seq<byte>, n: nat): Outcome<Parsed<nat>> {
    if |bs| < n then Err else Ok(Parsed(FromLE(bs[..n]), bs[n..]))
  }

  /** An integer that must not fit in a shorter encoding. */
  function ReadLong(bs: seq<byte>, n: nat, min: nat): Outcome<Parsed<nat>> {
    match ReadUint(bs, n)
    case Ok(p) => if p.value < min then Panic else Ok(p)
    case Err => Err
    case Panic => Panic
  }

  /** `ReadVarInt`. */
  function ReadVarInt(bs: seq<byte>): Outcome<Parsed<nat>> {
    if bs == [] then Err
    else if bs[0] == 0xff then ReadLong(bs[1..], 8, 0x1_0000_0000)
    else if bs[0] == 0xfe then ReadLong(bs[1..], 4, 0x1_0000)
    else if bs[0] == 0xfd then ReadLong(bs[1..], 2, 0xfd)
    else Ok(Parsed(bs[0], bs[1..]))
  }

  /** `a` is `x` followed by `y`. */
  lemma SplitAt(a: seq<byte>, x: seq<byte>, y: seq<byte>)
    requires a == x + y
    ensures a[..|x|] == x && a[|x|..] == y
  {
  }

  /** Reading bytes undoes appending them, and nothing else. */
  lemma BytesExactly(bs: seq<byte>, n: nat, v: seq<byte>, rest: seq<byte>)
    ensures ReadBytes(bs, n) == Ok(Parsed(v, rest)) <==> |v| == n && bs == v + rest
  {
    if |bs| >= n {
      assert bs == bs[..n] + bs[n..];
    }
    if |v| == n && bs == v + rest {
      SplitAt(bs, v, rest);
    }
  }

  lemma UintExactly(bs: seq<byte>, n: nat, v: nat, rest: seq<byte>)
    ensures ReadUint(bs, n) == Ok(Parsed(v, rest)) <==> v < Pow256(n) && bs == LE(v, n) + rest
  {
    if |bs| >= n {
      LEOfFromLE(bs[..n]);
      assert bs == bs[..n] + bs[n..];
    }
    if v < Pow256(n) && bs == LE(v, n) + rest {
      SplitAt(bs, LE(v, n), rest);
      FromLEOfLE(v, n);
    }
  }

  lemma LongExactly(bs: seq<byte>, n: nat, min: nat, v: nat, rest: seq<byte>)
    ensures ReadLong(bs, n, min) == Ok(Parsed(v, rest)) <==> min <= v < Pow256(n) && bs == LE(v, n) + rest
  {
    hide LE, ReadUint;
    UintExactly(bs, n, v, rest);
  }

  lemma HeadAndTail(bs: seq<byte>, b: byte, t: seq<byte>, rest: seq<byte>)
    ensures bs == ([b] + t) + rest <==> bs != [] && bs[0] == b && bs[1..] == t + rest
  {
    if bs != [] {
      assert bs == [bs[0]] + bs[1..];
    }
    if bs == ([b] + t) + rest {
      assert bs[1..] == t + rest;
    }
  }

  /** `ReadVarInt` accepts exactly what `WriteVarInt` produces. */
  lemma VarIntExactly(bs: seq<byte>, v: nat, rest: seq<byte>)
    ensures ReadVarInt(bs) == Ok(Parsed(v, rest)) <==> v < UINT64_MODULUS && bs == WriteVarInt(v) + rest
  {
    hide LE, FromLE, ReadLong;
    Pow256Values();
    if bs != [] {
      LongExactly(bs[1..], 2, 0xfd, v, rest);
      LongExactly(bs[1..], 4, 0x1_0000, v, rest);
      LongExactly(bs[1..], 8, 0x1_0000_0000, v, rest);
    }
    if v < 0xfd {
      HeadAndTail(bs, v, [], rest);
      assert [v] + [] == [v] && [] + rest == rest;
    }
    HeadAndTail(bs, 0xfd, LE(v, 2), rest);
    HeadAndTail(bs, 0xfe, LE(v, 4), rest);
    HeadAndTail(bs, 0xff, LE(v, 8), rest);
  }

  /** It panics exactly on a complete encoding of a value that has a shorter one. */
  lemma VarIntPanics(bs: seq<byte>)
    ensures ReadVarInt(bs).Panic? <==>
      || (|bs| >= 3 && bs[0] == 0xfd && FromLE(bs[1..3]) < 0xfd)
      || (|bs| >= 5 && bs[0] == 0xfe && FromLE(bs[1..5]) <= 0xffff)
      || (|bs| >= 9 && bs[0] == 0xff && FromLE(bs[1..9]) <= 0xffff_ffff)
  {
    hide FromLE;
    if |bs| >= 3 { assert bs[1..][..2] == bs[1..3]; }
    if |bs| >= 5 { assert bs[1..][..4] == bs[1..5]; }
    if |bs| >= 9 { assert bs[1..][..8] == bs[1..9]; }
  }
}
