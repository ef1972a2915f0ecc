/** The archiver: headers and blocks of regular files, written and read back. */
module Sltar {
  import opened Bytes

  const END := 512
  const CHK := 148
  const REG: byte := 0x30     // '0'
  const DIGIT_0: byte := 0x30
  const PLUS: byte := 0x2b
  const MINUS: byte := 0x2d
  const USTAR: seq<byte> := [0x75, 0x73, 0x74, 0x61, 0x72, 0]
  const VERSION_00: seq<byte> := [0x30, 0x30]  // the NUL that strcpy adds falls on a zero byte
  const UINT32: nat := 0x1_0000_0000

  // The largest `long`, which has 64 bits.
  const LONG_MAX: nat := 0x7FFF_FFFF_FFFF_FFFF

  /** A regular file as `lstat` and `fread` present it. */
  datatype File = File(name: seq<byte>, mode: nat, uid: nat, gid: nat, mtime: nat, uname: seq<byte>, gname: seq<byte>, content: seq<byte>)

  // ---------------------------------------------------------------- octal fields

  /** The octal digits of `n`, without leading zeros. */
  function Digits(n: nat): seq<byte> {
    if n == 0 then [] else Digits(n / 8) + [DIGIT_0 + n % 8]
  }

  /** `%.<d>o`: at least `d` digits. */
  function Octal(n: nat, d: nat): (r: seq<byte>)
    ensures |r| >= d
  {
    if |Digits(n)| >= d then Digits(n) else Repeat(DIGIT_0, d - |Digits(n)|) + Digits(n)
  }

  /** `snprintf` of a number into `d + 1` bytes: more digits are cut off. */
  function OctField(n: nat, d: nat): (r: seq<byte>)
    ensures |r| == d + 1
  {
    Octal(n, d)[..d] + [0]
  }

  /** `snprintf` of a string into `n` bytes that are zero. */
  function TextField(s: seq<byte>, n: nat): (r: seq<byte>)
    requires n > 0
    ensures |r| == n
  {
    if |s| < n then s + Repeat(0, n - |s|) else s[..n - 1] + [0]
  }

  /** 8 to the power `d`. */
  function Pow8(d: nat): (r: nat)
    ensures r >= 1
  {
    if d == 0 then 1 else 8 * Pow8(d - 1)
  }

  predicate IsDigit(b: byte) {
    DIGIT_0 <= b < DIGIT_0 + 8
  }

  /** The number that the digits up to the first other byte make. */
  function OctalValue(bs: seq<byte>, acc: nat := 0): nat
    decreases |bs|
  {
    if bs == [] || !IsDigit(bs[0]) then acc else OctalValue(bs[1..], 8 * acc + (bs[0] - DIGIT_0))
  }

  /** What is behind the white space at the front. */
  function SkipBlanks(bs: seq<byte>): seq<byte> {
    if bs != [] && (bs[0] == 32 || 9 <= bs[0] <= 13) then SkipBlanks(bs[1..]) else bs
  }

  function Min(a: int, b: int): int {
    if a <= b then a else b
  }

  /** `strtol` in base 8: white space, a sign, and digits; what is too large becomes the largest or smallest `long`. */
  function StrTol(bs: seq<byte>): int {
    var t := SkipBlanks(bs);
    if t == [] then 0
    else if t[0] == MINUS then -Min(OctalValue(t[1..]), LONG_MAX + 1)
    else Min(OctalValue(if t[0] == PLUS then t[1..] else t), LONG_MAX)
  }

  /** The conversion of `long` to `int`. */
  function ToInt32(n: int): (r: int)
    ensures -0x8000_0000 <= r < 0x8000_0000
  {
    var u := n % UINT32;
    if u < 0x8000_0000 then u else u - UINT32
  }

  lemma {:induction false} DigitsCount(n: nat, d: nat)
    requires n < Pow8(d)
    ensures |Digits(n)| <= d
    decreases d
  {
    if n > 0 {
      DigitsCount(n / 8, d - 1);
    }
  }

  lemma {:induction false} OctalValueAppend(a: seq<byte>, b: seq<byte>, acc: nat)
    requires forall i :: 0 <= i < |a| ==> IsDigit(a[i])
    ensures OctalValue(a + b, acc) == OctalValue(b, OctalValue(a, acc))
    decreases |a|
  {
    if a == [] {
      assert a + b == b;
    } else {
      assert (a + b)[1..] == a[1..] + b;
      OctalValueAppend(a[1..], b, 8 * acc + (a[0] - DIGIT_0));
    }
  }

  lemma {:induction false} DigitsValue(n: nat)
    ensures forall i :: 0 <= i < |Digits(n)| ==> IsDigit(Digits(n)[i])
    ensures OctalValue(Digits(n)) == n
  {
    if n > 0 {
      DigitsValue(n / 8);
      var a, l := Digits(n / 8), [DIGIT_0 + n % 8];
      OctalValueAppend(a, l, 0);
      assert l[1..] == [];
      assert OctalValue(l, n / 8) == OctalValue(l[1..], 8 * (n / 8) + n % 8);
    }
  }

  lemma {:induction false} LeadingZeros(k: nat, b: seq<byte>)
    ensures OctalValue(Repeat(DIGIT_0, k) + b) == OctalValue(b)
    decreases k
  {
    if k == 0 {
      assert Repeat(DIGIT_0, 0) + b == b;
    } else {
      var s := Repeat(DIGIT_0, k) + b;
      assert s[1..] == Repeat(DIGIT_0, k - 1) + b;
      LeadingZeros(k - 1, b);
    }
  }

  /** A number that fits is read back from its field. */
  lemma OctFieldValue(n: nat, d: nat, rest: seq<byte>)
    requires n < Pow8(d) && n <= LONG_MAX
    ensures StrTol(OctField(n, d) + rest) == n
  {
    hide OctalValue;
    DigitsCount(n, d);
    DigitsValue(n);
    var ds, z := Digits(n), Repeat(DIGIT_0, d - |Digits(n)|);
    assert Octal(n, d) == z + ds;
    assert OctField(n, d) + rest == z + (ds + ([0] + rest));
    LeadingZeros(d - |ds|, ds + ([0] + rest));
    OctalValueAppend(ds, [0] + rest, 0);
    ValueEnds([0] + rest, OctalValue(ds));
  }

  lemma Pow8Of11()
    ensures Pow8(11) == 2 * UINT32
  {
    assert Pow8(4) == 4096;
    assert Pow8(8) == 16777216;
  }

  // ---------------------------------------------------------------- the checksum

  /** A `char` as an integer. */
  function Signed(b: byte): int {
    if b < 128 then b else b - 256
  }

  /** What the byte at `i` contributes; the checksum itself counts as blanks. */
  function Term(b: seq<byte>, i: nat): int
    requires i < |b|
  {
    if CHK <= i < CHK + 8 then 32 else Signed(b[i])
  }

  function Sum(b: seq<byte>, n: nat): int
    requires n <= |b|
  {
    if n == 0 then 0 else Sum(b, n - 1) + Term(b, n - 1)
  }

  /** `unsigned` arithmetic. */
  function Unsigned(x: int): nat {
    x % UINT32
  }

  /** The checksum as the source computes it. */
  function Checksum(b: seq<byte>): nat
    requires |b| == END
  {
    Unsigned(Sum(b, END))
  }

  /** The checksum of the POSIX ustar format: the bytes are unsigned. */
  function PosixSum(b: seq<byte>, n: nat): nat
    requires n <= |b|
  {
    if n == 0 then 0 else PosixSum(b, n - 1) + (if CHK <= n - 1 < CHK + 8 then 32 else b[n - 1])
  }

  /** The number of bytes at or above 128 among the first `n`, other than in the checksum itself. */
  function HighBytes(b: seq<byte>, n: nat): (r: nat)
    requires n <= |b|
    ensures r <= n
    ensures r == 0 <==> forall i :: 0 <= i < n && !(CHK <= i < CHK + 8) ==> b[i] < 128
  {
    if n == 0 then 0 else HighBytes(b, n - 1) + (if !(CHK <= n - 1 < CHK + 8) && b[n - 1] >= 128 then 1 else 0)
  }

  lemma {:induction false} SumDifference(b: seq<byte>, n: nat)
    requires n <= |b|
    ensures Sum(b, n) == PosixSum(b, n) - 256 * HighBytes(b, n) && PosixSum(b, n) <= 255 * n
  {
    if n > 0 {
      SumDifference(b, n - 1);
    }
  }

  /** The checksum is that of POSIX exactly when no other byte of the header is above 127. */
  lemma ChecksumIsPosix(b: seq<byte>)
    requires |b| == END
    ensures Checksum(b) == PosixSum(b, END) <==> forall i :: 0 <= i < END && !(CHK <= i < CHK + 8) ==> b[i] < 128
  {
    SumDifference(b, END);
    var h := HighBytes(b, END);
    if h > 0 {
      WrapsAway(PosixSum(b, END), 256 * h);
    }
  }

  lemma WrapsAway(p: nat, k: nat)
    requires p < UINT32 && 0 < k < UINT32
    ensures Unsigned(p - k) != p
  {
  }

  lemma {:induction false} SumIgnoresItself(a: seq<byte>, b: seq<byte>, n: nat)
    requires |a| == |b| && n <= |a| && forall i :: 0 <= i < n && !(CHK <= i < CHK + 8) ==> a[i] == b[i]
    ensures Sum(a, n) == Sum(b, n)
  {
    if n > 0 {
      SumIgnoresItself(a, b, n - 1);
    }
  }

  /** `chksum`. */
  method ComputeChecksum(b: array<byte>) returns (sum: nat)
    requires b.Length == END
    ensures sum == Checksum(b[..])
  {
    sum := 0;
    for i := 0 to END
      invariant sum == Unsigned(Sum(b[..], i))
    {
      var c := if i >= CHK && i < CHK + 8 then 32 else Signed(b[i]);
      AddUnsigned(Sum(b[..], i), c);
      sum := Unsigned(sum + c);
    }
  }

  lemma AddUnsigned(x: int, c: int)
    ensures Unsigned(Unsigned(x) + c) == Unsigned(x + c)
  {
  }

  // ---------------------------------------------------------------- headers

  /** The part of a header in front of the checksum. */
  function HeaderStart(f: File): (r: seq<byte>)
    ensures |r| == CHK
  {
    TextField(f.name, 100) + OctField(f.mode % 512, 7) + OctField(f.uid % UINT32, 7) + OctField(f.gid % UINT32, 7)
    + OctField(|f.content| % UINT32, 11) + OctField(f.mtime % UINT32, 11)
  }

  /** The part behind it. */
  function HeaderEnd(f: File): (r: seq<byte>)
    ensures |r| == END - CHK - 8
  {
    [REG] + Repeat(0, 100) + USTAR + VERSION_00 + TextField(f.uname, 32) + TextField(f.gname, 32) + Repeat(0, 183)
  }

  function HeaderWith(f: File, chk: seq<byte>): (r: seq<byte>)
    requires |chk| == 8
    ensures |r| == END
  {
    HeaderStart(f) + chk + HeaderEnd(f)
  }

  /** The header of a regular file. */
  function Header(f: File): (r: seq<byte>)
    ensures |r| == END
  {
    HeaderWith(f, OctField(Checksum(HeaderWith(f, Repeat(0, 8))), 7))
  }

  lemma SameChecksum(f: File, c: seq<byte>, d: seq<byte>)
    requires |c| == |d| == 8
    ensures Checksum(HeaderWith(f, c)) == Checksum(HeaderWith(f, d))
  {
    hide HeaderStart, HeaderEnd;
    SumIgnoresItself(HeaderWith(f, c), HeaderWith(f, d), END);
  }

  /** A header carries its own checksum. */
  lemma HeaderChecks(f: File)
    ensures Header(f)[CHK..CHK + 8] == OctField(Checksum(Header(f)), 7)
  {
    hide HeaderStart, HeaderEnd, OctField;
    var c := OctField(Checksum(HeaderWith(f, Repeat(0, 8))), 7);
    SameChecksum(f, Repeat(0, 8), c);
    assert HeaderWith(f, c)[CHK..CHK + 8] == c;
  }

  // ---------------------------------------------------------------- headers in the numbers of POSIX

  /** The number that octal digits spell, most significant first. */
  function OctalNumber(ds: seq<byte>): int {
    if ds == [] then 0 else 8 * OctalNumber(ds[..|ds| - 1]) + ds[|ds| - 1] as int - 0x30
  }

  lemma {:induction false} ValueIsNumber(ds: seq<byte>)
    requires forall i :: 0 <= i < |ds| ==> 0x30 <= ds[i] <= 0x37
    ensures OctalNumber(ds) >= 0 && OctalValue(ds) == OctalNumber(ds)
  {
    if ds != [] {
      var front, last := ds[..|ds| - 1], ds[|ds| - 1..];
      ValueIsNumber(front);
      OctalValueAppend(front, last, 0);
      assert ds == front + last && last[1..] == [];
      assert OctalValue(last, OctalValue(front)) == OctalValue(last[1..], 8 * OctalValue(front) + (ds[|ds| - 1] - 0x30));
    }
  }

  lemma {:induction false} BlanksSkipped(bl: seq<byte>, s: seq<byte>)
    requires (forall i :: 0 <= i < |bl| ==> bl[i] == 32 || 9 <= bl[i] <= 13)
    requires s != [] && s[0] != 32 && !(9 <= s[0] <= 13)
    ensures SkipBlanks(bl + s) == s
  {
    if bl == [] {
      assert bl + s == s;
    } else {
      assert (bl + s)[1..] == bl[1..] + s;
      BlanksSkipped(bl[1..], s);
    }
  }

  /** `strtol`: behind blanks and a sign, the digits up to the first other byte spell the number, held within 64 bits. */
  lemma StrTolMeaning(bl: seq<byte>, sign: seq<byte>, ds: seq<byte>, rest: seq<byte>)
    requires (forall i :: 0 <= i < |bl| ==> bl[i] == 32 || 9 <= bl[i] <= 13) && sign in [[], [0x2b], [0x2d]]
    requires ds != [] && (forall i :: 0 <= i < |ds| ==> 0x30 <= ds[i] <= 0x37)
    requires rest == [] || !(0x30 <= rest[0] <= 0x37)
    ensures var v := OctalNumber(ds);
      StrTol(bl + (sign + (ds + rest)))
      == if sign == [0x2d] then (if v > 0x8000_0000_0000_0000 then -0x8000_0000_0000_0000 else -v)
         else if v > 0x7FFF_FFFF_FFFF_FFFF then 0x7FFF_FFFF_FFFF_FFFF else v
  {
    hide OctalValue, OctalNumber, SkipBlanks;
    var s := sign + (ds + rest);
    BlanksSkipped(bl, s);
    ValueIsNumber(ds);
    OctalValueAppend(ds, rest, 0);
    ValueEnds(rest, OctalValue(ds));
    if sign == [] {
      assert s == ds + rest;
    } else {
      assert s[1..] == ds + rest;
    }
  }

  lemma ValueEnds(rest: seq<byte>, acc: nat)
    requires rest == [] || !IsDigit(rest[0])
    ensures OctalValue(rest, acc) == acc
  {
  }

  /** At `off` there are `d` octal digits that spell `n`, and a NUL. */
  predicate Spells(h: seq<byte>, off: nat, d: nat, n: nat)
    requires off + d < |h|
  {
    && (forall i :: off <= i < off + d ==> 0x30 <= h[i] <= 0x37)
    && OctalNumber(h[off..off + d]) == n && h[off + d] == 0
  }

  /** At `off` there is the text `s`, filled up with NULs to `n` bytes. */
  predicate Holds(h: seq<byte>, off: nat, n: nat, s: seq<byte>)
    requires off + n <= |h| && |s| < n
  {
    h[off..off + |s|] == s && forall i :: off + |s| <= i < off + n ==> h[i] == 0
  }

  lemma {:induction false} DigitsSpell(n: nat)
    ensures OctalNumber(Digits(n)) == n && forall i :: 0 <= i < |Digits(n)| ==> 0x30 <= Digits(n)[i] <= 0x37
  {
    if n > 0 {
      DigitsSpell(n / 8);
      assert Digits(n)[..|Digits(n)| - 1] == Digits(n / 8);
    }
  }

  lemma {:induction false} ZerosSpell(k: nat, ds: seq<byte>)
    ensures OctalNumber(Repeat(0x30, k) + ds) == OctalNumber(ds)
    decreases k + |ds|
  {
    var z := Repeat(0x30, k);
    if ds != [] {
      assert (z + ds)[..k + |ds| - 1] == z + ds[..|ds| - 1];
      ZerosSpell(k, ds[..|ds| - 1]);
    } else if k > 0 {
      assert (z + ds)[..k - 1] == Repeat(0x30, k - 1) + ds;
      ZerosSpell(k - 1, ds);
    } else {
      assert z + ds == ds;
    }
  }

  lemma OctalSpells(n: nat, d: nat)
    requires n < Pow8(d)
    ensures var o := Octal(n, d);
      |o| == d && OctalNumber(o) == n && forall i :: 0 <= i < d ==> 0x30 <= o[i] <= 0x37
  {
    hide Digits, OctalNumber;
    DigitsCount(n, d);
    DigitsSpell(n);
    ZerosSpell(d - |Digits(n)|, Digits(n));
    assert |Digits(n)| == d ==> Repeat(0x30, 0) + Digits(n) == Digits(n);
  }

  lemma FieldSpells(n: nat, d: nat, h: seq<byte>, off: nat)
    requires n < Pow8(d) && off + d < |h| && h[off..off + d + 1] == OctField(n, d)
    ensures Spells(h, off, d, n)
  {
    hide OctalNumber, Octal;
    OctalSpells(n, d);
    var o := Octal(n, d);
    assert o[..d] == o;
    assert h[off..off + d] == h[off..off + d + 1][..d] == o;
    assert h[off + d] == h[off..off + d + 1][d];
    forall i | off <= i < off + d ensures 0x30 <= h[i] <= 0x37 {
      assert h[i] == h[off..off + d][i - off];
    }
  }

  lemma FieldHolds(s: seq<byte>, n: nat, h: seq<byte>, off: nat)
    requires |s| < n && off + n <= |h| && h[off..off + n] == TextField(s, n)
    ensures Holds(h, off, n, s)
  {
    assert h[off..off + |s|] == TextField(s, n)[..|s|];
    forall i | off + |s| <= i < off + n ensures h[i] == 0 {
      assert h[i] == h[off..off + n][i - off];
    }
  }

  lemma Pow8Of7()
    ensures Pow8(7) == 0x20_0000
  {
    assert Pow8(4) == 4096;
  }

  /** Where the fields of a header lie. */
  lemma HeaderCut(f: File)
    ensures var h := Header(f);
      && h[0..100] == TextField(f.name, 100)
      && h[100..108] == OctField(f.mode % 512, 7) && h[108..116] == OctField(f.uid % UINT32, 7) && h[116..124] == OctField(f.gid % UINT32, 7)
      && h[124..136] == OctField(|f.content| % UINT32, 11) && h[136..148] == OctField(f.mtime % UINT32, 11)
      && h[156..157] == [REG] && h[157..257] == Repeat(0, 100) && h[257..263] == USTAR && h[263..265] == VERSION_00
      && h[265..297] == TextField(f.uname, 32) && h[297..329] == TextField(f.gname, 32) && h[329..512] == Repeat(0, 183)
  {
    hide OctField, TextField, Repeat;
  }

  /** The header of a regular file in the ustar format of POSIX.1, section "pax": texts and numbers that fit are at the places given there. */
  lemma PosixHeader(f: File)
    ensures var h := Header(f);
      && (|f.name| < 100 ==> Holds(h, 0, 100, f.name))
      && Spells(h, 100, 7, f.mode % 0x200)
      && (f.uid < 0x20_0000 ==> Spells(h, 108, 7, f.uid))
      && (f.gid < 0x20_0000 ==> Spells(h, 116, 7, f.gid))
      && (|f.content| < 0x1_0000_0000 ==> Spells(h, 124, 11, |f.content|))
      && (f.mtime < 0x1_0000_0000 ==> Spells(h, 136, 11, f.mtime))
      && ((forall i :: 0 <= i < 512 && !(148 <= i < 156) ==> h[i] < 128) ==> Spells(h, 148, 7, PosixSum(h, 512)))
      && h[156] == 0x30
      && Holds(h, 157, 100, [])
      && Holds(h, 257, 6, [0x75, 0x73, 0x74, 0x61, 0x72]) && h[263..265] == [0x30, 0x30]
      && (|f.uname| < 32 ==> Holds(h, 265, 32, f.uname))
      && (|f.gname| < 32 ==> Holds(h, 297, 32, f.gname))
      && Holds(h, 329, 183, [])
  {
    hide Header, OctField, TextField, Spells, Holds;
    var h := Header(f);
    HeaderCut(f);
    Pow8Of7();
    Pow8Of11();
    PosixTexts(f);
    FieldSpells(f.mode % 512, 7, h, 100);
    if f.uid < 0x20_0000 {
      FieldSpells(f.uid, 7, h, 108);
    }
    if f.gid < 0x20_0000 {
      FieldSpells(f.gid, 7, h, 116);
    }
    if |f.content| < 0x1_0000_0000 {
      FieldSpells(|f.content|, 11, h, 124);
    }
    if f.mtime < 0x1_0000_0000 {
      FieldSpells(f.mtime, 11, h, 136);
    }
    if forall i :: 0 <= i < 512 && !(148 <= i < 156) ==> h[i] < 128 {
      HeaderChecks(f);
      ChecksumIsPosix(h);
      SumDifference(h, 512);
      FieldSpells(Checksum(h), 7, h, 148);
    }
    assert h[156] == h[156..157][0];
  }

  lemma PosixTexts(f: File)
    ensures var h := Header(f);
      && (|f.name| < 100 ==> Holds(h, 0, 100, f.name)) && Holds(h, 157, 100, []) && Holds(h, 329, 183, [])
      && Holds(h, 257, 6, [0x75, 0x73, 0x74, 0x61, 0x72])
      && (|f.uname| < 32 ==> Holds(h, 265, 32, f.uname)) && (|f.gname| < 32 ==> Holds(h, 297, 32, f.gname))
  {
    hide Header, OctField, Holds;
    var h := Header(f);
    HeaderCut(f);
    if |f.name| < 100 {
      FieldHolds(f.name, 100, h, 0);
    }
    if |f.uname| < 32 {
      FieldHolds(f.uname, 32, h, 265);
    }
    if |f.gname| < 32 {
      FieldHolds(f.gname, 32, h, 297);
    }
    var magic: seq<byte> := [0x75, 0x73, 0x74, 0x61, 0x72];
    assert TextField([], 100) == Repeat(0, 100) && TextField([], 183) == Repeat(0, 183) && TextField(magic, 6) == USTAR;
    FieldHolds([], 100, h, 157);
    FieldHolds([], 183, h, 329);
    FieldHolds(magic, 6, h, 257);
  }

  // ---------------------------------------------------------------- writing

  /** The content in blocks, the last one filled up with zeros. */
  function Blocks(content: seq<byte>): (r: seq<byte>)
    ensures |content| <= |r| < |content| + END
    ensures |r| % END == 0
    decreases |content|
  {
    if content == [] then []
    else if |content| < END then content + Repeat(0, END - |content|)
    else content[..END] + Blocks(content[END..])
  }

  /** What is written for a sequence of files. */
  function Archive(fs: seq<File>): seq<byte> {
    if fs == [] then [] else Header(fs[0]) + (Blocks(fs[0].content) + Archive(fs[1..]))
  }

  /** Copies bytes into the header. */
  method Put(b: array<byte>, off: nat, d: seq<byte>)
    requires off + |d| <= b.Length
    modifies b
    ensures b[..] == Splice(old(b[..]), off, d)
  {
    forall k | 0 <= k < |d| {
      b[off + k] := d[k];
    }
  }

  /** `snprintf` of a string into `n` bytes. */
  method PutText(b: array<byte>, off: nat, s: seq<byte>, n: nat)
    requires n > 0 && off + n <= b.Length && b[off..off + n] == Repeat(0, n)
    modifies b
    ensures b[..] == Splice(old(b[..]), off, TextField(s, n))
  {
    if |s| < n {
      Put(b, off, s + [0]);
      assert b[..] == Splice(old(b[..]), off, TextField(s, n)) by {
        var t := TextField(s, n);
        var c := old(b[..]);
        assert forall k :: off <= k < off + n ==> c[k] == old(b[off..off + n])[k - off] == 0;
        assert forall k :: 0 <= k < |c| ==> b[k] == Splice(c, off, t)[k];
      }
    } else {
      Put(b, off, s[..n - 1] + [0]);
    }
  }

  // ---------------------------------------------------------------- a header as a list of fields

  function Concat(ds: seq<seq<byte>>): seq<byte> {
    if ds == [] then [] else Concat(ds[..|ds| - 1]) + ds[|ds| - 1]
  }

  lemma ConcatLast(ds: seq<seq<byte>>, d: seq<byte>)
    ensures Concat(ds + [d]) == Concat(ds) + d
  {
    assert (ds + [d])[..|ds|] == ds;
  }

  /** A field lies behind those before it. */
  lemma {:induction false} FieldOf(ds: seq<seq<byte>>, i: nat)
    requires i < |ds|
    ensures var off := |Concat(ds[..i])|; off + |ds[i]| <= |Concat(ds)| && Concat(ds)[off..off + |ds[i]|] == ds[i]
    decreases |ds|
  {
    var n := |ds| - 1;
    var front := Concat(ds[..n]);
    if i < n {
      FieldOf(ds[..n], i);
      assert ds[..n][..i] == ds[..i];
      SliceOfFront(front, ds[n], |Concat(ds[..i])|, |ds[i]|);
    } else {
      SliceOfBack(front, ds[n]);
    }
  }

  /** Writing over a field replaces it. */
  lemma {:induction false} FieldReplaced(ds: seq<seq<byte>>, i: nat, e: seq<byte>)
    requires i < |ds| && |e| == |ds[i]|
    ensures var off := |Concat(ds[..i])|; off + |e| <= |Concat(ds)| && Splice(Concat(ds), off, e) == Concat(ds[i := e])
    decreases |ds|
  {
    var n := |ds| - 1;
    if i < n {
      FieldReplaced(ds[..n], i, e);
      assert ds[..n][..i] == ds[..i] && ds[i := e][..n] == ds[..n][i := e];
      var off := |Concat(ds[..i])|;
      SpliceInFront(Concat(ds[..n]), ds[n], off, e);
    } else {
      assert ds[i := e][..n] == ds[..n];
    }
  }

  lemma SpliceInFront(a: seq<byte>, b: seq<byte>, off: nat, e: seq<byte>)
    requires off + |e| <= |a|
    ensures Splice(a + b, off, e) == Splice(a, off, e) + b
  {
  }

  /** The sizes of the fields. */
  function Width(i: nat): nat
    requires i < 14
  {
    if i == 0 then 100 else if i == 1 then 8 else if i == 2 then 8 else if i == 3 then 8 else if i == 4 then 12 else
    if i == 5 then 12 else if i == 6 then 8 else if i == 7 then 1 else if i == 8 then 100 else if i == 9 then 6 else
    if i == 10 then 2 else if i == 11 then 32 else if i == 12 then 32 else 183
  }

  /** Where the fields begin: the offsets in `enum Header`. */
  function Offset(i: nat): nat
    requires i < 14
  {
    if i == 0 then 0 else if i == 1 then 100 else if i == 2 then 108 else if i == 3 then 116 else if i == 4 then 124 else
    if i == 5 then 136 else if i == 6 then 148 else if i == 7 then 156 else if i == 8 then 157 else if i == 9 then 257 else
    if i == 10 then 263 else if i == 11 then 265 else if i == 12 then 297 else 329
  }

  predicate Fields(ds: seq<seq<byte>>) {
    |ds| == 14 && forall i :: 0 <= i < 14 ==> |ds[i]| == Width(i)
  }

  lemma {:induction false} FieldOffset(ds: seq<seq<byte>>, i: nat)
    requires Fields(ds) && i < 14
    ensures |Concat(ds[..i])| == Offset(i)
    decreases i
  {
    if i > 0 {
      FieldOffset(ds, i - 1);
      assert ds[..i] == ds[..i - 1] + [ds[i - 1]];
      ConcatLast(ds[..i - 1], ds[i - 1]);
    }
  }

  lemma FieldsLength(ds: seq<seq<byte>>)
    requires Fields(ds)
    ensures |Concat(ds)| == END
  {
    FieldOffset(ds, 13);
    assert ds == ds[..13] + [ds[13]];
    ConcatLast(ds[..13], ds[13]);
  }

  /** Writes field number `i`. */
  method PutField(b: array<byte>, i: nat, d: seq<byte>, ghost ds: seq<seq<byte>>)
    requires Fields(ds) && b[..] == Concat(ds) && i < 14 && |d| == Width(i)
    modifies b
    ensures Fields(ds[i := d]) && b[..] == Concat(ds[i := d])
  {
    hide Concat;
    FieldOffset(ds, i);
    FieldReplaced(ds, i, d);
    Put(b, Offset(i), d);
  }

  /** Writes text into field number `i`, which is zero. */
  method PutTextField(b: array<byte>, i: nat, s: seq<byte>, ghost ds: seq<seq<byte>>)
    requires Fields(ds) && b[..] == Concat(ds) && i < 14 && Width(i) > 0 && ds[i] == Repeat(0, Width(i))
    modifies b
    ensures Fields(ds[i := TextField(s, Width(i))]) && b[..] == Concat(ds[i := TextField(s, Width(i))])
  {
    hide Concat, TextField, Repeat;
    FieldOffset(ds, i);
    FieldOf(ds, i);
    FieldReplaced(ds, i, TextField(s, Width(i)));
    assert b[Offset(i)..Offset(i) + Width(i)] == b[..][Offset(i)..Offset(i) + Width(i)];
    PutText(b, Offset(i), s, Width(i));
  }

  /** The fields of an all-zero header. */
  function ZeroFields(n: nat): (ds: seq<seq<byte>>)
    requires n <= 14
    ensures |ds| == n && forall i :: 0 <= i < n ==> ds[i] == Repeat(0, Width(i))
  {
    if n == 0 then [] else ZeroFields(n - 1) + [Repeat(0, Width(n - 1))]
  }

  lemma {:induction false} ZeroConcat(n: nat)
    requires n <= 14
    ensures forall k :: 0 <= k < |Concat(ZeroFields(n))| ==> Concat(ZeroFields(n))[k] == 0
  {
    if n > 0 {
      ZeroConcat(n - 1);
      ConcatLast(ZeroFields(n - 1), Repeat(0, Width(n - 1)));
    }
  }

  lemma ZeroHeader(b: seq<byte>)
    requires |b| == END && forall k :: 0 <= k < END ==> b[k] == 0
    ensures Fields(ZeroFields(14)) && b == Concat(ZeroFields(14))
  {
    hide Concat;
    ZeroConcat(14);
    assert Fields(ZeroFields(14));
    FieldsLength(ZeroFields(14));
  }

  /** The fields of a header. */
  function FieldsWith(f: File, chk: seq<byte>): seq<seq<byte>> {
    [TextField(f.name, 100), OctField(f.mode % 512, 7), OctField(f.uid % UINT32, 7), OctField(f.gid % UINT32, 7),
     OctField(|f.content| % UINT32, 11), OctField(f.mtime % UINT32, 11), chk, [REG], Repeat(0, 100), USTAR, VERSION_00,
     TextField(f.uname, 32), TextField(f.gname, 32), Repeat(0, 183)]
  }

  lemma HeaderOfFields(f: File, chk: seq<byte>)
    requires |chk| == 8
    ensures Fields(FieldsWith(f, chk)) && Concat(FieldsWith(f, chk)) == HeaderWith(f, chk)
  {
    hide OctField, TextField, Repeat, Concat;
    var ds := FieldsWith(f, chk);
    assert Concat([]) == [] by { NoFields(); }
    FirstFields(ds, HeaderStart(f), f);
    SixMore(ds[..6], ds[6], ds[7], ds[8], ds[9], ds[10], ds[11]);
    TwoMore(ds[..12], ds[12], ds[13]);
    assert ds[..12] == ds[..6] + [ds[6], ds[7], ds[8], ds[9], ds[10], ds[11]];
    assert ds == ds[..12] + [ds[12], ds[13]];
  }

  lemma NoFields()
    ensures Concat([]) == []
  {
  }

  lemma FirstFields(ds: seq<seq<byte>>, start: seq<byte>, f: File)
    requires |ds| >= 6 && start == HeaderStart(f)
    requires ds[0] == TextField(f.name, 100) && ds[1] == OctField(f.mode % 512, 7) && ds[2] == OctField(f.uid % UINT32, 7)
    requires ds[3] == OctField(f.gid % UINT32, 7) && ds[4] == OctField(|f.content| % UINT32, 11) && ds[5] == OctField(f.mtime % UINT32, 11)
    ensures Concat(ds[..6]) == start
  {
    hide OctField, TextField, Concat;
    NoFields();
    SixMore([], ds[0], ds[1], ds[2], ds[3], ds[4], ds[5]);
    assert ds[..6] == [] + [ds[0], ds[1], ds[2], ds[3], ds[4], ds[5]];
  }

  lemma SixMore(ds: seq<seq<byte>>, a: seq<byte>, b: seq<byte>, c: seq<byte>, d: seq<byte>, e: seq<byte>, g: seq<byte>)
    ensures Concat(ds + [a, b, c, d, e, g]) == Concat(ds) + a + b + c + d + e + g
  {
    hide Concat;
    TwoMore(ds, a, b);
    TwoMore(ds + [a, b], c, d);
    TwoMore(ds + [a, b, c, d], e, g);
    assert ds + [a, b, c, d] == ds + [a, b] + [c, d] && ds + [a, b, c, d, e, g] == ds + [a, b, c, d] + [e, g];
  }

  lemma TwoMore(ds: seq<seq<byte>>, a: seq<byte>, b: seq<byte>)
    ensures Concat(ds + [a, b]) == Concat(ds) + a + b
  {
    hide Concat;
    ConcatLast(ds, a);
    ConcatLast(ds + [a], b);
    assert ds + [a, b] == (ds + [a]) + [b];
  }

  /** The constant fields, the name and the numbers in front of the size. */
  method PutFirst(b: array<byte>, f: File, ghost ds0: seq<seq<byte>>) returns (ghost ds: seq<seq<byte>>)
    requires Fields(ds0) && b[..] == Concat(ds0) && ds0 == ZeroFields(14)
    modifies b
    ensures Fields(ds) && b[..] == Concat(ds) && |ds| == 14
    ensures ds == ds0[4 := Repeat(DIGIT_0, 12)][9 := USTAR][10 := VERSION_00][0 := TextField(f.name, 100)][1 := OctField(f.mode % 512, 7)]
                  [2 := OctField(f.uid % UINT32, 7)][3 := OctField(f.gid % UINT32, 7)]
  {
    hide OctField, TextField, Repeat, Concat, Fields;
    ds := ds0;
    PutField(b, 4, Repeat(DIGIT_0, 12), ds);
    ds := ds[4 := Repeat(DIGIT_0, 12)];
    PutField(b, 9, USTAR, ds);
    ds := ds[9 := USTAR];
    PutField(b, 10, VERSION_00, ds);
    ds := ds[10 := VERSION_00];
    PutTextField(b, 0, f.name, ds);
    ds := ds[0 := TextField(f.name, 100)];
    PutField(b, 1, OctField(f.mode % 512, 7), ds);
    ds := ds[1 := OctField(f.mode % 512, 7)];
    PutField(b, 2, OctField(f.uid % UINT32, 7), ds);
    ds := ds[2 := OctField(f.uid % UINT32, 7)];
    PutField(b, 3, OctField(f.gid % UINT32, 7), ds);
    ds := ds[3 := OctField(f.gid % UINT32, 7)];
  }

  /** The other fields, but for the checksum. */
  method PutSecond(b: array<byte>, f: File, ghost ds0: seq<seq<byte>>) returns (ghost ds: seq<seq<byte>>)
    requires Fields(ds0) && b[..] == Concat(ds0) && |ds0| == 14 && ds0[11] == Repeat(0, 32) && ds0[12] == Repeat(0, 32)
    modifies b
    ensures Fields(ds) && b[..] == Concat(ds)
    ensures ds == ds0[5 := OctField(f.mtime % UINT32, 11)][11 := TextField(f.uname, 32)][12 := TextField(f.gname, 32)]
                  [7 := [REG]][4 := OctField(|f.content| % UINT32, 11)]
  {
    hide OctField, TextField, Repeat, Concat, Fields;
    ds := ds0;
    PutField(b, 5, OctField(f.mtime % UINT32, 11), ds);
    ds := ds[5 := OctField(f.mtime % UINT32, 11)];
    PutTextField(b, 11, f.uname, ds);
    ds := ds[11 := TextField(f.uname, 32)];
    PutTextField(b, 12, f.gname, ds);
    ds := ds[12 := TextField(f.gname, 32)];
    PutField(b, 7, [REG], ds);
    ds := ds[7 := [REG]];
    PutField(b, 4, OctField(|f.content| % UINT32, 11), ds);
    ds := ds[4 := OctField(|f.content| % UINT32, 11)];
  }

  lemma AllFields(f: File, chk: seq<byte>, ds: seq<seq<byte>>)
    requires |ds| == 14
    requires ds[0] == TextField(f.name, 100) && ds[1] == OctField(f.mode % 512, 7) && ds[2] == OctField(f.uid % UINT32, 7)
    requires ds[3] == OctField(f.gid % UINT32, 7) && ds[4] == OctField(|f.content| % UINT32, 11) && ds[5] == OctField(f.mtime % UINT32, 11)
    requires ds[6] == chk && ds[7] == [REG] && ds[8] == Repeat(0, 100) && ds[9] == USTAR && ds[10] == VERSION_00
    requires ds[11] == TextField(f.uname, 32) && ds[12] == TextField(f.gname, 32) && ds[13] == Repeat(0, 183)
    ensures ds == FieldsWith(f, chk)
  {
    hide OctField, TextField, Repeat;
  }

  /** The first half of `c_file`: the header of a regular file. */
  method MakeHeader(f: File) returns (b: array<byte>)
    ensures fresh(b) && b.Length == END && b[..] == Header(f)
  {
    hide OctField, TextField, HeaderWith, Checksum, Repeat, Concat, Fields;
    b := new byte[END](_ => 0);
    ZeroHeader(b[..]);
    ghost var ds := PutFirst(b, f, ZeroFields(14));
    ds := PutSecond(b, f, ds);
    AllFields(f, Repeat(0, 8), ds);
    HeaderOfFields(f, Repeat(0, 8));
    var sum := ComputeChecksum(b);
    PutField(b, 6, OctField(sum, 7), ds);
    AllFields(f, OctField(sum, 7), ds[6 := OctField(sum, 7)]);
    HeaderOfFields(f, OctField(sum, 7));
  }

  /** One block of content; the buffer is filled up with zeros. */
  method FillBlock(b: array<byte>, d: seq<byte>)
    requires b.Length == END && |d| <= END
    modifies b
    ensures b[..] == d + Repeat(0, END - |d|)
  {
    Put(b, 0, d);
    if |d| < END {
      Put(b, |d|, Repeat(0, END - |d|));
    }
  }

  /** `c_file` for a regular file: what goes to standard output. */
  method WriteFile(f: File) returns (out: seq<byte>)
    ensures out == Header(f) + Blocks(f.content)
  {
    hide Header, Blocks, Repeat;
    var b := MakeHeader(f);
    out := b[..];
    ghost var h := b[..];
    var pos := 0;
    ghost var done: seq<byte> := [];
    WriteStart(h, f.content);
    while pos < |f.content|
      invariant pos <= |f.content| && b.Length == END && fresh(b)
      invariant out == h + done && Blocks(f.content) == done + Blocks(f.content[pos..])
    {
      var l := if |f.content| - pos < END then |f.content| - pos else END;
      FillBlock(b, f.content[pos..pos + l]);
      ghost var block := b[..];
      WriteStep(f.content, pos, l, done, block);
      out := out + b[..];
      assert (h + done) + block == h + (done + block);
      done := done + block;
      pos := pos + l;
    }
    WriteEnd(f.content[pos..], done);
  }

  lemma WriteStart(h: seq<byte>, content: seq<byte>)
    ensures h == h + [] && Blocks(content) == [] + Blocks(content[0..])
  {
    assert content[0..] == content;
  }

  lemma WriteStep(content: seq<byte>, pos: nat, l: nat, done: seq<byte>, block: seq<byte>)
    requires pos < |content| && l == (if |content| - pos < END then |content| - pos else END)
    requires Blocks(content) == done + Blocks(content[pos..]) && block == content[pos..pos + l] + Repeat(0, END - l)
    ensures Blocks(content) == (done + block) + Blocks(content[pos + l..])
  {
    hide Blocks, Repeat;
    var rest := content[pos..];
    FirstBlock(rest, l);
    Suffixes(content, pos, l);
    Assoc3(done, block, Blocks(rest[l..]));
  }

  lemma Suffixes(s: seq<byte>, i: nat, n: nat)
    requires i + n <= |s|
    ensures s[i..][..n] == s[i..i + n] && s[i..][n..] == s[i + n..]
  {
  }

  lemma WriteEnd(rest: seq<byte>, done: seq<byte>)
    requires rest == []
    ensures done + Blocks(rest) == done
  {
  }

  lemma FirstBlock(content: seq<byte>, l: nat)
    requires content != [] && l == if |content| < END then |content| else END
    ensures Blocks(content) == (content[..l] + Repeat(0, END - l)) + Blocks(content[l..])
  {
    if |content| < END {
      assert content[..l] == content && content[l..] == [];
      assert (content + Repeat(0, END - l)) + [] == content + Repeat(0, END - l);
    } else {
      assert content[..l] + Repeat(0, 0) == content[..l];
    }
  }

  // ---------------------------------------------------------------- reading

  /** `fread` of one block into a buffer that holds `b`: at the end of the input, what is left overwrites the front of the buffer. */
  function Refilled(inp: seq<byte>, b: seq<byte>): (r: seq<byte>)
    requires |b| == END
    ensures |r| == END
  {
    if |inp| >= END then inp[..END] else inp + b[|inp|..]
  }

  function AfterBlock(inp: seq<byte>): (r: seq<byte>)
    ensures |r| <= |inp|
  {
    if |inp| >= END then inp[END..] else []
  }

  /** The data that follow a header for a size of `l`. */
  function Data(l: int, inp: seq<byte>, b: seq<byte>): (r: seq<byte>)
    requires |b| == END
    ensures |r| == if l > 0 then l else 0
    decreases l
  {
    if l <= 0 then []
    else
      var c := Refilled(inp, b);
      (if l < END then c[..l] else c) + Data(l - END, AfterBlock(inp), c)
  }

  /** The input behind these data. */
  function AfterData(l: int, inp: seq<byte>): (r: seq<byte>)
    ensures |r| <= |inp|
    decreases l
  {
    if l <= 0 then inp else AfterData(l - END, AfterBlock(inp))
  }

  /** A C string in a field. */
  function CText(bs: seq<byte>): (r: seq<byte>)
    ensures |r| <= |bs|
  {
    if bs == [] || bs[0] == 0 then [] else [bs[0]] + CText(bs[1..])
  }

  /** The types for which a file is opened and written: all but links, devices, directories and pipes. */
  predicate IsWritten(kind: byte) {
    !(0x31 <= kind <= 0x36)
  }

  /** What happens to one entry of an archive. */
  datatype Visit = Visit(name: seq<byte>, written: bool, data: seq<byte>, sound: bool)

  /** The checksum in a header is right. */
  predicate Sound(h: seq<byte>)
    requires |h| == END
  {
    h[CHK..CHK + 8] == OctField(Checksum(h), 7)
  }

  /** The size that a header states. */
  function SizeOf(h: seq<byte>): int
    requires |h| == END
  {
    ToInt32(StrTol(h[124..]))
  }

  /** `tar` with `x`. */
  function Extract(inp: seq<byte>): seq<Visit>
    decreases |inp|
  {
    if |inp| < END || inp[0] == 0 then []
    else
      var h, rest := inp[..END], inp[END..];
      [Visit(CText(h[..100]), IsWritten(h[156]), Data(SizeOf(h), rest, h), Sound(h))] + Extract(AfterData(SizeOf(h), rest))
  }

  /** `x` and the loop of `tar`; writing an entry's data stands for writing the file. */
  method ExtractAll(stdin: seq<byte>) returns (visits: seq<Visit>)
    ensures visits == Extract(stdin)
  {
    hide StrTol, Checksum, OctField, CText, Extract, Data, AfterData;
    visits := [];
    var inp := stdin;
    var b := new byte[END];
    assert visits + Extract(inp) == Extract(inp);
    while true
      invariant b.Length == END && fresh(b)
      invariant Extract(stdin) == visits + Extract(inp)
      decreases |inp|
    {
      ExtractStep(inp);
      if |inp| < END {
        assert visits + [] == visits;
        return;
      }
      ghost var before := inp;
      Put(b, 0, inp[..END]);
      inp := inp[END..];
      ghost var h := b[..];
      assert h == before[..END];
      if b[0] == 0 {
        assert visits + [] == visits;
        return;
      }
      var fname := CText(b[..100]);
      var l := ToInt32(StrTol(b[124..]));
      assert b[124..] == h[124..] && b[..100] == h[..100] && b[CHK..CHK + 8] == h[CHK..CHK + 8];
      assert b[156] == h[156];
      var written;
      match b[156] {
        case 0x31 | 0x32 | 0x33 | 0x34 | 0x35 | 0x36 => written := false;
        case _ => written := true;
      }
      var chk := ComputeChecksum(b);
      var sound := b[CHK..CHK + 8] == OctField(chk, 7);
      var data;
      data, inp := CopyData(b, l, inp);
      assert visits + ([Visit(fname, written, data, sound)] + Extract(inp)) == (visits + [Visit(fname, written, data, sound)]) + Extract(inp);
      visits := visits + [Visit(fname, written, data, sound)];
    }
  }

  lemma ExtractStep(inp: seq<byte>)
    ensures |inp| < END || inp[0] == 0 ==> Extract(inp) == []
    ensures |inp| >= END && inp[0] != 0 ==>
      var h, rest := inp[..END], inp[END..];
      Extract(inp) == [Visit(CText(h[..100]), IsWritten(h[156]), Data(SizeOf(h), rest, h), Sound(h))] + Extract(AfterData(SizeOf(h), rest))
  {
    hide SizeOf, Sound, CText, Data, AfterData;
  }

  /** `read` of a block into the buffer: a short read leaves the rest of it as it was. */
  method ReadBlock(b: array<byte>, inp: seq<byte>) returns (rest: seq<byte>)
    requires b.Length == END
    modifies b
    ensures b[..] == Refilled(inp, old(b[..])) && rest == AfterBlock(inp)
  {
    if |inp| >= END {
      Put(b, 0, inp[..END]);
      rest := inp[END..];
    } else {
      Put(b, 0, inp);
      rest := [];
    }
  }

  lemma DataStep(data: seq<byte>, l: int, inp: seq<byte>, b: seq<byte>)
    requires |b| == END && l > 0
    ensures var c := Refilled(inp, b);
      var part := if l < END then c[..l] else c;
      data + Data(l, inp, b) == data + part + Data(l - END, AfterBlock(inp), c)
    ensures AfterData(l, inp) == AfterData(l - END, AfterBlock(inp))
  {}

  /** The loop over the blocks of a file. */
  method CopyData(b: array<byte>, l0: int, inp0: seq<byte>) returns (data: seq<byte>, inp: seq<byte>)
    requires b.Length == END
    modifies b
    ensures data == Data(l0, inp0, old(b[..])) && inp == AfterData(l0, inp0)
  {
    hide Refilled, AfterBlock;
    data, inp := [], inp0;
    var l := l0;
    assert [] + Data(l0, inp0, b[..]) == Data(l0, inp0, b[..]);
    while l > 0
      invariant Data(l0, inp0, old(b[..])) == data + Data(l, inp, b[..]) && AfterData(l0, inp0) == AfterData(l, inp)
      decreases l
    {
      hide Data, AfterData;
      DataStep(data, l, inp, b[..]);
      inp := ReadBlock(b, inp);
      data := data + if l < END then b[..l] else b[..];
      assert b[..] == b[..b.Length];
      l := l - END;
    }
    assert data + [] == data;
  }

  // ---------------------------------------------------------------- round trips

  /** The content comes back out of its blocks, and exactly these are consumed. */
  lemma {:induction false} DataOfBlocks(content: seq<byte>, rest: seq<byte>, b: seq<byte>)
    requires |b| == END
    ensures Data(|content|, Blocks(content) + rest, b) == content
    ensures AfterData(|content|, Blocks(content) + rest) == rest
    decreases |content|
  {
    hide Blocks, Repeat, Data, AfterData;
    if content == [] {
      WriteEnd(content, []);
      NoData(Blocks(content) + rest, b);
      assert Blocks(content) + rest == rest by { assert [] + Blocks(content) == Blocks(content); }
    } else {
      var l := if |content| < END then |content| else END;
      var block, tail := content[..l] + Repeat(0, END - l), content[l..];
      FirstBlock(content, l);
      DataOfBlocks(tail, rest, block);
      assert Blocks(content) + rest == block + (Blocks(tail) + rest);
      OneBlock(|content|, block, Blocks(tail) + rest, b);
      assert content == content[..l] + tail;
      if |content| < END {
        WriteEnd(tail, []);
        assert [] + Blocks(tail) == Blocks(tail);
        assert block[..l] == content && content + [] == content;
        assert Blocks(tail) + rest == rest;
      } else {
        assert block == content[..l];
      }
    }
  }

  lemma NoData(inp: seq<byte>, b: seq<byte>)
    requires |b| == END
    ensures Data(0, inp, b) == [] && AfterData(0, inp) == inp
  {
  }

  /** Reading a block that is there. */
  lemma OneBlock(l: nat, block: seq<byte>, rest: seq<byte>, b: seq<byte>)
    requires l > 0 && |block| == |b| == END
    ensures Data(l, block + rest, b) == if l < END then block[..l] + [] else block + Data(l - END, rest, block)
    ensures AfterData(l, block + rest) == if l < END then rest else AfterData(l - END, rest)
  {
    assert (block + rest)[..END] == block && (block + rest)[END..] == rest;
  }

  predicate NoNul(s: seq<byte>) {
    forall i :: 0 <= i < |s| ==> s[i] != 0
  }

  lemma {:induction false} TextBack(s: seq<byte>, z: seq<byte>)
    requires NoNul(s) && z != [] && z[0] == 0
    ensures CText(s + z) == s
    decreases |s|
  {
    if s == [] {
      assert s + z == z;
    } else {
      assert (s + z)[1..] == s[1..] + z;
      TextBack(s[1..], z);
    }
  }

  /** A name is read back exactly when it is shorter than its field. */
  lemma NameBack(name: seq<byte>)
    requires NoNul(name)
    ensures CText(TextField(name, 100)) == name <==> |name| <= 99
  {
    if |name| <= 99 {
      TextBack(name, Repeat(0, 100 - |name|));
    } else {
      TextBack(name[..99], [0]);
    }
  }

  /** A size is read back exactly when it fits in an `int`. */
  lemma SizeBack(f: File)
    ensures SizeOf(Header(f)) == |f.content| <==> |f.content| < 0x8000_0000
  {
    hide Header, OctField;
    var h := Header(f);
    var n := |f.content| % UINT32;
    HeaderCut(f);
    Pow8Of11();
    OctFieldValue(n, 11, h[136..]);
    assert h[124..] == h[124..136] + h[136..];
    Truncated(|f.content|);
  }

  lemma Truncated(n: nat)
    ensures ToInt32(n % UINT32) == n <==> n < 0x8000_0000
  {
  }

  /** The files that an archive can hold. */
  predicate Archivable(f: File) {
    1 <= |f.name| <= 99 && NoNul(f.name) && |f.content| < 0x8000_0000
  }

  /** The first entry of an archive: its name comes back exactly when it is short enough, its content exactly when it is small enough, and its checksum is always right. */
  lemma FirstEntry(f: File, rest: seq<byte>)
    requires |f.name| >= 1 && NoNul(f.name)
    ensures var vs := Extract(Header(f) + (Blocks(f.content) + rest));
      && |vs| >= 1 && vs[0].written && vs[0].sound
      && (vs[0].name == f.name <==> |f.name| <= 99)
      && (vs[0].data == f.content <==> |f.content| < 0x8000_0000)
      && (|f.content| < 0x8000_0000 ==> vs[1..] == Extract(rest))
  {
    hide Header, OctField, TextField, CText, StrTol, Checksum;
    var h, r := Header(f), Blocks(f.content) + rest;
    assert (h + r)[..END] == h && (h + r)[END..] == r;
    HeaderCut(f);
    assert h[..100] == h[0..100] && h[156] == h[156..157][0];
    HeaderChecks(f);
    NameBack(f.name);
    FirstByte(f.name);
    assert h[0] == h[..100][0];
    SizeBack(f);
    DataOfBlocks(f.content, rest, h);
  }

  lemma FirstByte(name: seq<byte>)
    requires name != [] && NoNul(name)
    ensures TextField(name, 100)[0] != 0
  {
  }

  /** What is expected of a file. */
  function Expected(fs: seq<File>): (vs: seq<Visit>)
    ensures |vs| == |fs| && forall i :: 0 <= i < |fs| ==> vs[i] == Visit(fs[i].name, true, fs[i].content, true)
  {
    if fs == [] then [] else [Visit(fs[0].name, true, fs[0].content, true)] + Expected(fs[1..])
  }

  /** Extracting an archive visits exactly its files, in order, writes exactly their contents, and finds no wrong checksum. */
  lemma {:induction false} ArchiveRoundTrip(fs: seq<File>)
    requires forall i :: 0 <= i < |fs| ==> Archivable(fs[i])
    ensures Extract(Archive(fs)) == Expected(fs)
    decreases |fs|
  {
    hide Header, Blocks, Extract;
    if fs == [] {
      NothingToExtract();
    } else {
      ArchiveRoundTrip(fs[1..]);
      FirstEntry(fs[0], Archive(fs[1..]));
      var vs := Extract(Archive(fs));
      assert vs == [vs[0]] + vs[1..];
    }
  }

  lemma NothingToExtract()
    ensures Extract([]) == []
  {
  }
}
