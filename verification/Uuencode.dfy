/** The uuencoded lines that carry flash data to the target. */
module Uuencode {
  import opened Bytes

  function Groups(n: nat): nat { (n + 2) / 3 }

  /** Six bits as a printable character; zero is a back quote. */
  function Char(v: nat): byte
    requires v < 64
  {
    if v != 0 then v + 0x20 else 0x60
  }

  function EncodeGroup(s0: byte, s1: byte, s2: byte): (r: seq<byte>)
    ensures |r| == 4 && forall i :: 0 <= i < 4 ==> 0x20 < r[i] <= 0x60
  {
    [Char(s0 / 4), Char(s0 % 4 * 16 + s1 / 16), Char(s1 % 16 * 4 + s2 / 64), Char(s2 % 64)]
  }

  /** The characters for a number of three-byte groups. */
  function Encode(src: seq<byte>, groups: nat): (r: seq<byte>)
    requires 3 * groups <= |src|
    ensures |r| == 4 * groups
    decreases groups
  {
    if groups == 0 then []
    else EncodeGroup(src[0], src[1], src[2]) + Encode(src[3..], groups - 1)
  }

  /** The line of a block of n bytes: its length character, then the data; up to two bytes beyond n are read. */
  function Line(src: seq<byte>, n: nat): (r: seq<byte>)
    requires 3 * Groups(n) <= |src| && n <= 95
    ensures |r| == 1 + 4 * Groups(n)
  {
    [n + 0x20] + Encode(src, Groups(n))
  }

  function Value(c: byte): byte { if c < 0x60 then (c - 0x20) % 256 else 0 }

  /** Byte j of a group of four characters; shifted bits above the byte are lost. */
  function DecodeByte(g: seq<byte>, j: nat): byte
    requires |g| >= 4
  {
    var (s0, s1, s2, s3) := (Value(g[0]), Value(g[1]), Value(g[2]), Value(g[3]));
    if j == 0 then s0 % 64 * 4 + s1 / 16 % 4
    else if j == 1 then s1 % 16 * 16 + s2 / 4 % 16
    else s2 % 4 * 64 + s3 % 64
  }

  /** Every three payload bytes come from four characters. */
  function Decode(chars: seq<byte>, n: nat): (r: seq<byte>)
    requires 4 * Groups(n) <= |chars|
    ensures |r| == n
  {
    seq<byte>(n, i requires 0 <= i < n => DecodeByte(chars[i / 3 * 4..], i % 3))
  }

  /** A line is readable when it holds as many groups as its length character asks for. */
  predicate Readable(line: seq<byte>) {
    |line| >= 1 && (line[0] < 0x20 || 1 + 4 * Groups(line[0] - 0x20) <= |line|)
  }

  function Payload(line: seq<byte>): seq<byte>
    requires Readable(line)
  {
    if line[0] < 0x20 then [] else Decode(line[1..], line[0] - 0x20)
  }

  lemma GroupRoundTrip(s0: byte, s1: byte, s2: byte, g: seq<byte>)
    requires g == EncodeGroup(s0, s1, s2)
    ensures DecodeByte(g, 0) == s0 && DecodeByte(g, 1) == s1 && DecodeByte(g, 2) == s2
  {
    hide Value, Char;
    CharValue(s0 / 4);
    CharValue(s0 % 4 * 16 + s1 / 16);
    CharValue(s1 % 16 * 4 + s2 / 64);
    CharValue(s2 % 64);
    Regroup(s0 / 4, s0 % 4, s1 / 16, s1 % 16, s2 / 64, s2 % 64);
  }

  /** Three bytes split as 6+2, 4+4 and 2+6 bits, joined to four times six bits and back. */
  lemma Regroup(a: nat, b: nat, c: nat, d: nat, e: nat, f: nat)
    requires a < 64 && b < 4 && c < 16 && d < 16 && e < 4 && f < 64
    ensures a % 64 * 4 + (b * 16 + c) / 16 % 4 == a * 4 + b
    ensures (b * 16 + c) % 16 * 16 + (d * 4 + e) / 4 % 16 == c * 16 + d
    ensures (d * 4 + e) % 4 * 64 + f % 64 == e * 64 + f
  {
    assert (b * 16 + c) / 16 == b;
    assert (d * 4 + e) / 4 == d;
  }

  lemma CharValue(v: nat)
    requires v < 64
    ensures Value(Char(v)) == v
  {
  }

  lemma DropDrop(s: seq<byte>, i: nat, j: nat)
    requires i + j <= |s|
    ensures s[i..][j..] == s[i + j..]
  {
  }

  lemma EncodeTail(src: seq<byte>, groups: nat)
    requires 3 * groups <= |src| && groups > 0
    ensures Encode(src, groups)[4..] == Encode(src[3..], groups - 1)
  {
  }

  /** From group k on, the encoding is that of the bytes from 3k on. */
  lemma {:induction false} EncodeSuffix(src: seq<byte>, groups: nat, k: nat)
    requires 3 * groups <= |src| && k <= groups
    ensures Encode(src, groups)[4 * k..] == Encode(src[3 * k..], groups - k)
    decreases k
  {
    hide EncodeGroup;
    if k == 0 {
      assert src[0..] == src;
    } else {
      EncodeSuffix(src, groups, k - 1);
      DropDrop(Encode(src, groups), 4 * (k - 1), 4);
      DropDrop(src, 3 * (k - 1), 3);
      EncodeTail(src[3 * (k - 1)..], groups - k + 1);
    }
  }

  lemma DecodeByteOfPrefix(chars: seq<byte>, g: seq<byte>, j: nat)
    requires |g| == 4 <= |chars| && chars[..4] == g
    ensures DecodeByte(chars, j) == DecodeByte(g, j)
  {
    assert forall i :: 0 <= i < 4 ==> chars[i] == chars[..4][i];
  }

  /** Character group k gives back the three bytes from 3k on. */
  lemma DecodeGroup(src: seq<byte>, groups: nat, k: nat, j: nat)
    requires 3 * groups <= |src| && k < groups && j < 3
    ensures DecodeByte(Encode(src, groups)[4 * k..], j) == src[3 * k + j]
  {
    hide EncodeGroup, DecodeByte;
    EncodeSuffix(src, groups, k);
    var s := src[3 * k..];
    var g := EncodeGroup(s[0], s[1], s[2]);
    GroupRoundTrip(s[0], s[1], s[2], g);
    DecodeByteOfPrefix(Encode(s, groups - k), g, j);
    assert s[j] == src[3 * k + j];
  }

  /** Decoding a line gives back the block, whatever bytes follow it in memory. */
  lemma RoundTrip(src: seq<byte>, n: nat)
    requires 3 * Groups(n) <= |src| && n <= 95
    ensures Readable(Line(src, n)) && Payload(Line(src, n)) == src[..n]
  {
    hide EncodeGroup, DecodeByte, Encode;
    var chars := Encode(src, Groups(n));
    assert Line(src, n)[1..] == chars;
    forall i | 0 <= i < n
      ensures DecodeByte(chars[i / 3 * 4..], i % 3) == src[i]
    {
      DecodeGroup(src, Groups(n), i / 3, i % 3);
    }
  }

  /** Four characters as a number of base 64; the blank and the back quote are zero. */
  function Number64(chars: seq<byte>, at: nat): nat
    requires at + 4 <= |chars|
  {
    ((Sextet(chars[at]) * 64 + Sextet(chars[at + 1])) * 64 + Sextet(chars[at + 2])) * 64 + Sextet(chars[at + 3])
  }

  /** The low six bits of a character's distance from the blank; characters from the back quote on are zero. */
  function Sextet(c: byte): nat { if c < 0x60 then (c + 0x20) % 64 else 0 }

  function Number256(bytes: seq<byte>, at: nat): nat
    requires at + 3 <= |bytes|
  {
    Join(bytes[at], bytes[at + 1], bytes[at + 2])
  }

  function Join(a: nat, b: nat, c: nat): nat { a * 0x1_0000 + b * 0x100 + c }

  /** In its line, every group of three bytes is one number, written in base 64 with characters from '!' to '`'. */
  lemma LineSpells(src: seq<byte>, n: nat, k: nat)
    requires 3 * Groups(n) <= |src| && n <= 95 && k < Groups(n)
    ensures Line(src, n)[0] == 0x20 + n
    ensures Number64(Line(src, n), 1 + 4 * k) == Number256(src, 3 * k)
    ensures var g := Line(src, n)[1 + 4 * k..]; forall i :: 0 <= i < 4 ==> 0x21 <= g[i] <= 0x60
  {
    hide EncodeGroup, Encode, Sextet;
    var chars := Encode(src, Groups(n));
    EncodeSuffix(src, Groups(n), k);
    var s := src[3 * k..];
    FirstGroup(s, Groups(n) - k);
    GroupSpells(s[0], s[1], s[2]);
    var g := EncodeGroup(s[0], s[1], s[2]);
    forall i | 0 <= i < 4
      ensures Line(src, n)[1 + 4 * k + i] == g[i]
    {
      assert chars[4 * k..][i] == chars[4 * k + i];
    }
    assert forall i :: 0 <= i < 4 ==> Line(src, n)[1 + 4 * k..][i] == g[i];
  }

  lemma FirstGroup(src: seq<byte>, groups: nat)
    requires 0 < groups && 3 * groups <= |src|
    ensures forall i :: 0 <= i < 4 ==> Encode(src, groups)[i] == EncodeGroup(src[0], src[1], src[2])[i]
  {
    hide EncodeGroup;
  }

  lemma GroupSpells(s0: byte, s1: byte, s2: byte)
    ensures Number64(EncodeGroup(s0, s1, s2), 0) == Join(s0, s1, s2)
  {
    hide Sextet, Char;
    CharSextet(s0 / 4);
    CharSextet(s0 % 4 * 16 + s1 / 16);
    CharSextet(s1 % 16 * 4 + s2 / 64);
    CharSextet(s2 % 64);
  }

  lemma CharSextet(v: nat)
    requires v < 64
    ensures Sextet(Char(v)) == v
  {
  }

  /** Whatever the characters, three payload bytes are the number their four characters write. */
  lemma PayloadReads(line: seq<byte>, k: nat)
    requires Readable(line) && line[0] >= 0x20 && 3 * k + 3 <= line[0] - 0x20
    ensures |Payload(line)| == line[0] - 0x20
    ensures Number256(Payload(line), 3 * k) == Number64(line, 1 + 4 * k)
  {
    hide DecodeByte, Number64, Payload, Join, Groups;
    PayloadAt(line, k, 0);
    PayloadAt(line, k, 1);
    PayloadAt(line, k, 2);
    var g := line[1..][4 * k..];
    DropDrop(line, 1, 4 * k);
    GroupReads(g);
    SameNumber(line, 1 + 4 * k);
  }

  lemma SameNumber(chars: seq<byte>, at: nat)
    requires at + 4 <= |chars|
    ensures Number64(chars[at..], 0) == Number64(chars, at)
  {
    hide Sextet;
  }

  lemma PayloadAt(line: seq<byte>, k: nat, j: nat)
    requires Readable(line) && line[0] >= 0x20 && 3 * k + j < line[0] - 0x20 && j < 3
    ensures 1 + 4 * k + 4 <= |line| && |Payload(line)| == line[0] - 0x20
    ensures Payload(line)[3 * k + j] == DecodeByte(line[1..][4 * k..], j)
  {
    hide DecodeByte;
    assert (3 * k + j) / 3 == k && (3 * k + j) % 3 == j;
  }

  lemma GroupReads(g: seq<byte>)
    requires |g| >= 4
    ensures Join(DecodeByte(g, 0), DecodeByte(g, 1), DecodeByte(g, 2)) == Number64(g, 0)
  {
    hide Value, Sextet, Join;
    ValueSextet(g[0]);
    ValueSextet(g[1]);
    ValueSextet(g[2]);
    ValueSextet(g[3]);
    var (v0, v1, v2, v3) := (Value(g[0]), Value(g[1]), Value(g[2]), Value(g[3]));
    SixBits(v0 % 64, v1 % 64, v2 % 64, v3 % 64);
    LowSix(v1);
    LowSix(v2);
  }

  lemma SixBits(a: nat, b: nat, c: nat, d: nat)
    ensures Join(a * 4 + b / 16, b % 16 * 16 + c / 4, c % 4 * 64 + d) == ((a * 64 + b) * 64 + c) * 64 + d
  {
  }

  /** The upper and lower parts of the low six bits. */
  lemma LowSix(v: nat)
    ensures v / 16 % 4 == v % 64 / 16 && v % 16 == v % 64 % 16
    ensures v / 4 % 16 == v % 64 / 4 && v % 4 == v % 64 % 4
  {
    var (q, r) := (v / 64, v % 64);
    assert v == 64 * q + r;
    assert v / 16 == 4 * q + r / 16 && v / 4 == 16 * q + r / 4;
    assert (4 * q + r / 16) % 4 == r / 16;
    assert (16 * q + r / 4) % 16 == r / 4;
  }

  lemma ValueSextet(c: byte)
    ensures Value(c) % 64 == Sextet(c)
  {
  }

  /** The data characters are printable: the terminator is the first zero of the buffer. */
  lemma {:induction false} Printable(src: seq<byte>, groups: nat)
    requires 3 * groups <= |src|
    ensures forall i :: 0 <= i < 4 * groups ==> 0x20 < Encode(src, groups)[i] <= 0x60
    decreases groups
  {
    if groups > 0 {
      Printable(src[3..], groups - 1);
    }
  }

  /** One turn of the encoder's loop. */
  method PutGroup(s0: byte, s1: byte, s2: byte, dest: array<byte>, d: nat)
    requires d + 4 <= dest.Length
    modifies dest
    ensures dest[..d + 4] == old(dest[..d]) + EncodeGroup(s0, s1, s2)
    ensures forall i :: d + 4 <= i < dest.Length ==> dest[i] == old(dest[i])
  {
    dest[d] := Char(s0 / 4);
    dest[d + 1] := Char(s0 % 4 * 16 + s1 / 16);
    dest[d + 2] := Char(s1 % 16 * 4 + s2 / 64);
    dest[d + 3] := Char(s2 % 64);
  }

  /** The encoder: writes the line and a terminator into dest. */
  method EncodeLine(src: seq<byte>, dest: array<byte>, count: nat)
    requires count <= 95
    requires 3 * Groups(count) <= |src| && 2 + 4 * Groups(count) <= dest.Length
    modifies dest
    ensures dest[..1 + 4 * Groups(count)] == Line(src, count)
    ensures dest[1 + 4 * Groups(count)] == 0
    ensures forall i :: 2 + 4 * Groups(count) <= i < dest.Length ==> dest[i] == old(dest[i])
  {
    hide EncodeGroup, Encode;
    ghost var goal := Line(src, count);
    assert src[0..] == src;
    var nmemb: nat := count;
    dest[0] := nmemb + 0x20;
    var s, d := 0, 1;
    while nmemb > 0
      invariant s + 3 * Groups(nmemb) <= |src|
      invariant d + 4 * Groups(nmemb) == 1 + 4 * Groups(count)
      invariant goal == dest[..d] + Encode(src[s..], Groups(nmemb))
      invariant forall i :: 2 + 4 * Groups(count) <= i < dest.Length ==> dest[i] == old(dest[i])
    {
      ghost var before := dest[..d];
      ghost var left: nat := if nmemb >= 3 then nmemb - 3 else 0;
      assert Groups(nmemb) == Groups(left) + 1;
      EncodeAt(src, s, Groups(nmemb));
      PutGroup(src[s], src[s + 1], src[s + 2], dest, d);
      assert goal == dest[..d + 4] + Encode(src[s + 3..], Groups(left));
      s, d := s + 3, d + 4;
      nmemb := if nmemb >= 3 then nmemb - 3 else 0;
    }
    EncodeNothing(src[s..]);
    dest[d] := 0;
  }

  lemma EncodeAt(src: seq<byte>, s: nat, groups: nat)
    requires groups > 0 && s + 3 * groups <= |src|
    ensures Encode(src[s..], groups) == EncodeGroup(src[s], src[s + 1], src[s + 2]) + Encode(src[s + 3..], groups - 1)
  {
    hide EncodeGroup;
    assert src[s..][3..] == src[s + 3..];
  }

  lemma EncodeNothing(src: seq<byte>)
    ensures Encode(src, 0) == []
  {
  }

  /** The decoder: writes the payload into dest and returns its length, negative on a control character. */
  method DecodeLine(src: seq<byte>, dest: array<byte>) returns (length: int)
    requires Readable(src) && src[0] as int - 0x20 <= dest.Length
    modifies dest
    ensures length == src[0] as int - 0x20
    ensures dest[..|Payload(src)|] == Payload(src)
    ensures forall i :: |Payload(src)| <= i < dest.Length ==> dest[i] == old(dest[i])
  {
    hide DecodeByte;
    length := src[0] as int - 0x20;
    ghost var n: nat := if length < 0 then 0 else length;
    ghost var goal := Payload(src);
    var s, i, j := 1, 0, 0;
    while i < length
      invariant 0 <= i <= n && j == i % 3 && s == 1 + i / 3 * 4
      invariant dest[..i] == goal[..i]
      invariant forall k :: n <= k < dest.Length ==> dest[k] == old(dest[k])
    {
      assert src[1..][i / 3 * 4..] == src[s..];
      dest[i] := DecodeByte(src[s..], j);
      i, j := i + 1, j + 1;
      if j > 2 {
        j := 0;
        s := s + 4;
      }
    }
  }
}
