/** Hexadecimal text as the two record readers see it. */
module Hex {
  import opened Bytes

  /** Value of a hex digit in either letter case, or -1. */
  function HexValue(c: byte): (v: int)
    ensures -1 <= v < 16
  {
    if '0' as int <= c <= '9' as int then c - '0' as int
    else if 'A' as int <= c <= 'F' as int then c - 'A' as int + 10
    else if 'a' as int <= c <= 'f' as int then c - 'a' as int + 10
    else -1
  }

  /** All a reader distinguishes: the record mark and hex digits; anything else is noise. */
  datatype Token = Mark | Digit(value: nibble)

  function TokenOf(c: byte, mark: byte): seq<Token> {
    if HexValue(c) >= 0 then [Digit(HexValue(c))]
    else if c == mark then [Mark]
    else []
  }

  function Tokens(text: seq<byte>, mark: byte): seq<Token> {
    if text == [] then [] else TokenOf(text[0], mark) + Tokens(text[1..], mark)
  }

  lemma {:induction false} TokensAppend(a: seq<byte>, b: seq<byte>, mark: byte)
    ensures Tokens(a + b, mark) == Tokens(a, mark) + Tokens(b, mark)
  {
    if a == [] {
      assert a + b == b;
    } else {
      assert (a + b)[1..] == a[1..] + b;
      TokensAppend(a[1..], b, mark);
    }
  }

  /** Neither the mark nor one of the characters 0 to 9, A to F and a to f. */
  predicate Noise(c: byte, mark: byte) {
    c != mark && !(0x30 <= c <= 0x39) && !(0x41 <= c <= 0x46) && !(0x61 <= c <= 0x66)
  }

  /** Noise may be interspersed anywhere, in any amount. */
  lemma NoiseIsInvisible(a: seq<byte>, noise: seq<byte>, b: seq<byte>, mark: byte)
    requires forall c :: c in noise ==> Noise(c, mark)
    ensures Tokens(a + noise + b, mark) == Tokens(a + b, mark)
  {
    NoTokens(noise, mark);
    TokensAppend(a + noise, b, mark);
    TokensAppend(a, noise, mark);
    TokensAppend(a, b, mark);
  }

  lemma {:induction false} NoTokens(noise: seq<byte>, mark: byte)
    requires forall c :: c in noise ==> HexValue(c) < 0 && c != mark
    ensures Tokens(noise, mark) == []
  {
    if noise != [] {
      assert forall c :: c in noise[1..] ==> c in noise;
      assert TokenOf(noise[0], mark) == [] by { assert noise[0] in noise; }
      NoTokens(noise[1..], mark);
    }
  }

  /** The two digits of every byte, high one first. */
  function Digits(bytes: seq<byte>): (r: seq<Token>)
    ensures |r| == 2 * |bytes|
  {
    if bytes == [] then []
    else [Digit(bytes[0] / 16), Digit(bytes[0] % 16)] + Digits(bytes[1..])
  }

  /** The character is the digit with that value, in either letter case. */
  predicate Writes(c: byte, v: nibble) {
    if v < 10 then c == 0x30 + v else c == 0x37 + v || c == 0x57 + v
  }

  lemma WrittenDigit(c: byte, v: nibble, mark: byte)
    requires Writes(c, v)
    ensures TokenOf(c, mark) == [Digit(v)]
  {
  }

  /** Bytes written with two digits each are read back, in either letter case. */
  lemma {:induction false} WrittenTokens(text: seq<byte>, bytes: seq<byte>, mark: byte)
    requires |text| == 2 * |bytes|
    requires forall k :: 0 <= k < |bytes| ==>
               Writes(text[2 * k], bytes[k] / 16) && Writes(text[2 * k + 1], bytes[k] % 16)
    ensures Tokens(text, mark) == Digits(bytes)
    decreases |bytes|
  {
    if bytes != [] {
      var (rest, tail) := (text[2..], bytes[1..]);
      assert text[1..][1..] == rest;
      assert Writes(text[2 * 0], bytes[0] / 16);
      WrittenDigit(text[0], bytes[0] / 16, mark);
      WrittenDigit(text[1], bytes[0] % 16, mark);
      hide Writes, TokenOf;
      forall k | 0 <= k < |tail|
        ensures Writes(rest[2 * k], tail[k] / 16) && Writes(rest[2 * k + 1], tail[k] % 16)
      {
        assert Writes(text[2 * (k + 1)], bytes[k + 1] / 16);
      }
      WrittenTokens(rest, tail, mark);
    }
  }

  lemma {:induction false} DigitsAppend(a: seq<byte>, b: seq<byte>)
    ensures Digits(a + b) == Digits(a) + Digits(b)
  {
    if a == [] {
      assert a + b == b;
    } else {
      assert (a + b)[1..] == a[1..] + b;
      DigitsAppend(a[1..], b);
    }
  }

  /** The first k digits of some bytes are whole bytes and perhaps one digit more. */
  lemma DigitsPrefix(bytes: seq<byte>, k: nat) returns (half: seq<Token>)
    requires k <= 2 * |bytes|
    ensures Digits(bytes)[..k] == Digits(bytes[..k / 2]) + half
    ensures |half| == k % 2 && forall t <- half :: t.Digit?
    decreases bytes
  {
    if bytes == [] {
      half := [];
    } else {
      var pair := [Digit(bytes[0] / 16), Digit(bytes[0] % 16)];
      var j := DigitsPrefix(bytes[1..], 0);
      if k < 2 {
        half := pair[..k];
        assert (pair + Digits(bytes[1..]))[..k] == half && bytes[..0] == [];
      } else {
        half := DigitsPrefix(bytes[1..], k - 2);
        assert (pair + Digits(bytes[1..]))[..k] == pair + Digits(bytes[1..])[..k - 2];
        assert bytes[..k / 2][1..] == bytes[1..][..(k - 2) / 2];
      }
    }
  }

  /** A low digit joins the high one already stored in the upper half of the byte. */
  lemma JoinDigits(high: nibble, low: nibble)
    ensures OrByte(high * 16, low) == high * 16 + low
  {
    OrDisjoint(high, low, 4);
    assert Pow2(4) == 16;
  }

  lemma {:induction false} OrDisjoint(high: nat, low: nat, k: nat)
    requires low < Pow2(k)
    ensures Or(high * Pow2(k), low) == high * Pow2(k) + low
  {
    if k == 0 {
      OrZero(high);
    } else {
      var half := high * Pow2(k - 1);
      assert high * Pow2(k) == 2 * half;
      OrDisjoint(high, low / 2, k - 1);
    }
  }

  lemma {:induction false} OrZero(x: nat)
    ensures Or(x, 0) == x
  {
    if x > 0 { OrZero(x / 2); }
  }
}
