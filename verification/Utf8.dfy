/** UTF-8 as RFC 3629 section 3 defines it, and the decoder of libuv/src/idna.c. */
module Utf8 {
  import opened Bytes

  /** The C value (unsigned) -1, by which the decoder reports an ill-formed sequence. */
  const INVALID: nat := 0xFFFF_FFFF

  /** A Unicode scalar value: a code point that RFC 3629 lets UTF-8 carry. */
  predicate Scalar(c: nat) {
    c <= 0x10FFFF && !(0xD800 <= c <= 0xDFFF)
  }

  predicate Scalars(cps: seq<nat>) {
    forall i :: 0 <= i < |cps| ==> Scalar(cps[i])
  }

  /** RFC 3629 section 3: the one, two, three or four bytes of a scalar value. */
  function Encode(c: nat): (r: seq<byte>)
    requires Scalar(c)
    ensures 1 <= |r| <= 4
  {
    if c < 0x80 then [c]
    else if c < 0x800 then [0xC0 + c / 64, 0x80 + c % 64]
    else if c < 0x10000 then [0xE0 + c / 64 / 64, 0x80 + c / 64 % 64, 0x80 + c % 64]
    else [0xF0 + c / 64 / 64 / 64, 0x80 + c / 64 / 64 % 64, 0x80 + c / 64 % 64, 0x80 + c % 64]
  }

  function EncodeAll(cps: seq<nat>): seq<byte>
    requires Scalars(cps)
  {
    if cps == [] then [] else EncodeAll(cps[..|cps| - 1]) + Encode(cps[|cps| - 1])
  }

  lemma {:induction false} EncodeAllConcat(a: seq<nat>, b: seq<nat>)
    requires Scalars(a) && Scalars(b)
    ensures Scalars(a + b) && EncodeAll(a + b) == EncodeAll(a) + EncodeAll(b)
  {
    hide Encode, Scalar;
    if b == [] {
      assert a + b == a;
    } else {
      var front, last := b[..|b| - 1], b[|b| - 1];
      EncodeAllConcat(a, front);
      var ab := a + b;
      assert ab[..|ab| - 1] == a + front && ab[|ab| - 1] == last;
      assert EncodeAll(ab) == EncodeAll(a + front) + Encode(last);
    }
  }

  /** The decoder reads exactly the bytes of an encoded code point that ends before the label does. */
  lemma FollowEncoded(mem: seq<byte>, p: nat, pe: nat, cp: nat)
    requires Stands(mem, p, cp) && p + |Encode(cp)| <= pe
    ensures 1 + Follow(mem[p], p + 1 - pe) == |Encode(cp)|
  {
    assert mem[p] == mem[p..p + |Encode(cp)|][0];
    if 0x80 <= cp {
      CombineEncoded(cp);
    }
  }

  /** Where code point i starts in the encoded text, and what stands there. */
  lemma {:induction false} EncodeAllAt(cps: seq<nat>, i: nat)
    requires Scalars(cps) && i < |cps|
    ensures var text, from, to := EncodeAll(cps), |EncodeAll(cps[..i])|, |EncodeAll(cps[..i + 1])|;
            to == from + |Encode(cps[i])| && to <= |text| && text[from..to] == Encode(cps[i])
  {
    assert cps[..i + 1][..i] == cps[..i];
    EncodeAllConcat(cps[..i + 1], cps[i + 1..]);
    assert cps[..i + 1] + cps[i + 1..] == cps;
  }

  /**
   * The bitwise exclusive or of two 2-bit numbers. The decoder's test
   * 0xC0 & (b ^ c ^ d) only looks at the two top bits of each byte.
   */
  function Xor2(x: nat, y: nat): (r: nat)
    requires x < 4 && y < 4
    ensures r < 4
  {
    (if (x < 2) == (y < 2) then 0 else 2) + (if Odd(x) == Odd(y) then 0 else 1)
  }

  predicate Odd(x: nat)
    requires x < 4
  {
    x == 1 || x == 3
  }

  /** How many bytes after the lead byte `a` the decoder reads; `gap` is the C value *p - pe. */
  function Follow(a: byte, gap: int): (n: nat)
    ensures n <= 3
  {
    if a < 0x80 || a > 0xF7 then 0
    else if gap != 1 && gap != 2 && a > 0xEF then 3
    else if gap != 1 && a > 0xDF then 2
    else if a > 0xBF then 1
    else 0
  }

  /** The encoding of cp stands at position p. */
  ghost predicate Stands(mem: seq<byte>, p: nat, cp: nat) {
    Scalar(cp) && p + |Encode(cp)| <= |mem| && mem[p..p + |Encode(cp)|] == Encode(cp)
  }

  /** A code point from its three groups of low bits and the high bits before them. */
  function Assemble(a: nat, b: nat, c: nat, d: nat): nat {
    a * 262144 + b * 4096 + c * 64 + d
  }

  /** The two top bits of a byte, and the six others. */
  function Top(x: nat): nat
  {
    x / 64
  }

  function Low(x: nat): nat
  {
    x % 64
  }

  /** The byte x is a continuation byte: its two top bits are 10. */
  predicate Continuation(x: nat) {
    Top(x) == 2
  }

  lemma SixBitGroups(c: nat)
    ensures c == Assemble(0, 0, c / 64, c % 64)
    ensures c == Assemble(0, c / 64 / 64, c / 64 % 64, c % 64)
    ensures c == Assemble(c / 64 / 64 / 64, c / 64 / 64 % 64, c / 64 % 64, c % 64)
  {
    var x := c / 64;
    var y := x / 64;
    assert c == 64 * x + c % 64;
    assert x == 64 * y + x % 64;
    assert y == 64 * (y / 64) + y % 64;
  }

  lemma ContinuationByte(g: nat)
    requires g < 64
    ensures Continuation(0x80 + g) && Low(0x80 + g) == g
  {}

  /** The common tail of the slow path: the checks on the gathered pieces, and the value they make. */
  function Combine(min: nat, a: nat, b: nat, c: nat, d: nat): (r: nat)
    requires Top(b) < 4 && Top(c) < 4 && Top(d) < 4
    ensures r == INVALID || Scalar(r)
  {
    if Xor2(Xor2(Top(b), Top(c)), Top(d)) != 2 then INVALID  // Invalid sequence.
    else
      var v := Assemble(a, Low(b), Low(c), Low(d));
      if v < min || v > 0x10FFFF || 0xD800 <= v <= 0xDFFF then INVALID else v
  }

  /** What the slow path makes of a whole sequence of two, three or four bytes. */
  function Combined(e: seq<byte>): nat
    requires 2 <= |e| <= 4
  {
    if |e| == 2 then Combine(0x80, 0, 0x80, 0x80 + e[0] as nat % 32, e[1])
    else if |e| == 3 then Combine(0x800, 0, 0x80 + e[0] as nat % 16, e[1], e[2])
    else Combine(0x10000, e[0] as nat % 8, e[1], e[2], e[3])
  }

  lemma CombineGroups(min: nat, a: nat, b: nat, c: nat, d: nat)
    requires b < 64 && c < 64 && d < 64
    requires min <= Assemble(a, b, c, d) && Scalar(Assemble(a, b, c, d))
    ensures Combine(min, a, 0x80 + b, 0x80 + c, 0x80 + d) == Assemble(a, b, c, d)
  {
    ContinuationByte(b);
    ContinuationByte(c);
    ContinuationByte(d);
  }

  /** On the encoding of cp the tail yields cp, whichever of the three lengths was read. */
  lemma CombineEncoded(cp: nat)
    requires Scalar(cp) && 0x80 <= cp
    ensures Combined(Encode(cp)) == cp
    ensures var a := Encode(cp)[0];
      if cp < 0x800 then 0xBF < a <= 0xDF else if cp < 0x10000 then 0xDF < a <= 0xEF else 0xEF < a <= 0xF7
  {
    hide Combine, Assemble;
    SixBitGroups(cp);
    var d, c, b, a := cp % 64, cp / 64 % 64, cp / 64 / 64 % 64, cp / 64 / 64 / 64;
    if cp < 0x800 {
      assert b == a == 0;
      CombineTwo(c, d);
    } else if cp < 0x10000 {
      assert a == 0;
      CombineThree(b, c, d);
    } else {
      CombineFour(a, b, c, d);
    }
  }

  lemma CombineTwo(c: nat, d: nat)
    requires d < 64 && 0x80 <= Assemble(0, 0, c, d) < 0x800
    ensures c < 32 && Combine(0x80, 0, 0x80, 0x80 + (0xC0 + c) % 32, 0x80 + d) == Assemble(0, 0, c, d)
  {
    hide Combine;
    assert (0xC0 + c) % 32 == c;
    CombineGroups(0x80, 0, 0, c, d);
  }

  lemma CombineThree(b: nat, c: nat, d: nat)
    requires c < 64 && d < 64 && 0x800 <= Assemble(0, b, c, d) < 0x10000 && Scalar(Assemble(0, b, c, d))
    ensures b < 16 && Combine(0x800, 0, 0x80 + (0xE0 + b) % 16, 0x80 + c, 0x80 + d) == Assemble(0, b, c, d)
  {
    hide Combine;
    assert (0xE0 + b) % 16 == b;
    CombineGroups(0x800, 0, b, c, d);
  }

  lemma CombineFour(a: nat, b: nat, c: nat, d: nat)
    requires b < 64 && c < 64 && d < 64 && 0x10000 <= Assemble(a, b, c, d) && Scalar(Assemble(a, b, c, d))
    ensures a < 8 && Combine(0x10000, (0xF0 + a) % 8, 0x80 + b, 0x80 + c, 0x80 + d) == Assemble(a, b, c, d)
  {
    hide Combine;
    assert (0xF0 + a) % 8 == a;
    CombineGroups(0x10000, a, b, c, d);
  }

  /**
   * uv__utf8_decode1 and uv__utf8_decode1_slow. `p'` is where the C pointer stands afterwards.
   * A shift is a multiplication, a mask a remainder, and an or of disjoint bits a sum.
   */
  method Decode1(mem: seq<byte>, p: nat, pe: nat) returns (c: nat, p': nat)
    requires p < |mem| && p + Follow(mem[p], p + 1 - pe) < |mem|
    ensures p' == p + 1 + Follow(mem[p], p + 1 - pe)
    ensures c <= INVALID && (c == INVALID || Scalar(c))
    ensures forall cp: nat | Stands(mem, p, cp) && p + |Encode(cp)| <= pe :: c == cp && p' == p + |Encode(cp)|
  {
    hide Combine, Assemble;
    forall cp: nat | Stands(mem, p, cp)
      ensures forall k {:trigger Encode(cp)[k]} :: 0 <= k < |Encode(cp)| ==> mem[p + k] == Encode(cp)[k]
      ensures 0x80 <= cp ==> cp == Combined(Encode(cp))
    {
      assert forall k {:trigger Encode(cp)[k]} :: 0 <= k < |Encode(cp)| ==> mem[p..p + |Encode(cp)|][k] == mem[p + k];
      if 0x80 <= cp { CombineEncoded(cp); }
    }
    var a := mem[p];
    p' := p + 1;
    if a < 128 {
      return a, p';
    }
    if a > 0xF7 {
      return INVALID, p';
    }
    var gap := p' - pe;
    if gap != 1 && gap != 2 && a > 0xEF {
      c := Combine(0x10000, a as nat % 8, mem[p'], mem[p' + 1], mem[p' + 2]);
      p' := p' + 3;
    } else if gap != 1 && a > 0xDF {
      c := Combine(0x800, 0, 0x80 + a as nat % 16, mem[p'], mem[p' + 1]);
      p' := p' + 2;
    } else if a > 0xBF {
      c := Combine(0x80, 0, 0x80, 0x80 + a as nat % 32, mem[p']);
      p' := p' + 1;
    } else {
      c := INVALID;
    }
  }
}
