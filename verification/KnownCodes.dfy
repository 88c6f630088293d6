/** Known answers: a label and its code, as RFC 3492 has them. */
module KnownCodes {
  import opened Bytes
  import opened Wrappers
  import opened Punycode
  import Arith

  lemma Int1(rest: seq<byte>)
    ensures DecodeInt([112, 106, 51, 98] + rest, 72, 36, 1, 0) == Some((48105, rest))
  {
    var r0: seq<byte> := [112, 106, 51, 98] + rest;
    var r1: seq<byte> := [106, 51, 98] + rest;
    var r2: seq<byte> := [51, 98] + rest;
    var r3: seq<byte> := [98] + rest;
    assert r0[0] == 112 && r0[1..] == r1;
    assert r1[0] == 106 && r1[1..] == r2;
    assert r2[0] == 51 && r2[1..] == r3;
    assert r3[0] == 98 && r3[1..] == rest;
    assert DecodeInt(r0, 72, 36, 1, 0) == DecodeInt(r1, 72, 72, 35, 15);
    assert DecodeInt(r1, 72, 72, 35, 15) == DecodeInt(r2, 72, 108, 1225, 330);
    assert DecodeInt(r2, 72, 108, 1225, 330) == DecodeInt(r3, 72, 144, 12250, 35855);
    assert DecodeInt(r3, 72, 144, 12250, 35855) == Some((48105, rest));
  }

  lemma Int2(rest: seq<byte>)
    ensures DecodeInt([52, 51, 50, 103] + rest, 26, 36, 1, 2) == Some((23666, rest))
  {
    var r0: seq<byte> := [52, 51, 50, 103] + rest;
    var r1: seq<byte> := [51, 50, 103] + rest;
    var r2: seq<byte> := [50, 103] + rest;
    var r3: seq<byte> := [103] + rest;
    assert r0[0] == 52 && r0[1..] == r1;
    assert r1[0] == 51 && r1[1..] == r2;
    assert r2[0] == 50 && r2[1..] == r3;
    assert r3[0] == 103 && r3[1..] == rest;
    assert DecodeInt(r0, 26, 36, 1, 2) == DecodeInt(r1, 26, 72, 26, 32);
    assert DecodeInt(r1, 26, 72, 26, 32) == DecodeInt(r2, 26, 108, 260, 786);
    assert DecodeInt(r2, 26, 108, 260, 786) == DecodeInt(r3, 26, 144, 2600, 8066);
    assert DecodeInt(r3, 26, 144, 2600, 8066) == Some((23666, rest));
  }

  lemma Int3(rest: seq<byte>)
    ensures DecodeInt([106, 104, 115] + rest, 69, 36, 1, 3) == Some((21047, rest))
  {
    var r0: seq<byte> := [106, 104, 115] + rest;
    var r1: seq<byte> := [104, 115] + rest;
    var r2: seq<byte> := [115] + rest;
    assert r0[0] == 106 && r0[1..] == r1;
    assert r1[0] == 104 && r1[1..] == r2;
    assert r2[0] == 115 && r2[1..] == rest;
    assert DecodeInt(r0, 69, 36, 1, 3) == DecodeInt(r1, 69, 72, 35, 12);
    assert DecodeInt(r1, 69, 72, 35, 12) == DecodeInt(r2, 69, 108, 1155, 257);
    assert DecodeInt(r2, 69, 108, 1155, 257) == Some((21047, rest));
  }

  lemma Biases()
    ensures Adapt(48105, 2, true) == 26 && Adapt(23664, 3, false) == 69
  {
    hide AdaptLoop;
    assert 48105 / 700 == 68 && 23664 / 2 == 11832;
    assert Arith.Div(68, 2) == 34 && Arith.Div(11832, 3) == 3944;
    AdaptLoopStep(102, 0);
    AdaptLoopStep(15776, 0);
    AdaptLoopStep(450, 36);
  }

  lemma First(rest: seq<byte>)
    ensures DecodeFrom([112, 106, 51, 98] + rest, [51], 128, 0, 72) == DecodeFrom(rest, [51, 24180], 24180, 2, 26)
  {
    hide DecodeInt, Adapt;
    Biases();
    Int1(rest);
    assert [51][..1] + [24180] + [51][1..] == [51, 24180];
    DecodeMore([112, 106, 51, 98] + rest, rest, [51], 128, 0, 72, 48105);
  }

  lemma Second(rest: seq<byte>)
    ensures DecodeFrom([52, 51, 50, 103] + rest, [51, 24180], 24180, 2, 26) == DecodeFrom(rest, [51, 24180, 32068], 32068, 3, 69)
  {
    hide DecodeInt, Adapt;
    Biases();
    Int2(rest);
    assert [51, 24180][..2] + [32068] + [51, 24180][2..] == [51, 24180, 32068];
    DecodeMore([52, 51, 50, 103] + rest, rest, [51, 24180], 24180, 2, 26, 23666);
  }

  lemma Third()
    ensures DecodeFrom([106, 104, 115], [51, 24180, 32068], 32068, 3, 69) == Some([51, 24180, 32068, 37329])
  {
    hide DecodeInt, Adapt;
    Int3([]);
    assert [106, 104, 115] + [] == [106, 104, 115];
    assert [51, 24180, 32068][..3] + [37329] + [51, 24180, 32068][3..] == [51, 24180, 32068, 37329];
    DecodeMore([106, 104, 115], [], [51, 24180, 32068], 32068, 3, 69, 21047);
  }

  /** One turn of the decoder. */
  lemma DecodeMore(input: seq<byte>, rest: seq<byte>, output: seq<nat>, n: nat, i: nat, bias: nat, i': nat)
    requires input != [] && DecodeInt(input, bias, 36, 1, i) == Some((i', rest)) && i' >= i
    ensures var count := |output| + 1;
            i' / count >= 0 && 0 <= i' % count <= |output|
            && DecodeFrom(input, output, n, i, bias)
               == DecodeFrom(rest, output[..i' % count] + [n + i' / count] + output[i' % count..], n + i' / count, i' % count + 1,
                             Adapt(i' - i, count, i == 0))
  {
    hide DecodeInt, Adapt;
    Arith.DivMod(i', |output| + 1);
  }

  /** "3-pj3b432gjhs" is the code of U+0033 U+5E74 U+7D44 U+91D1. */
  lemma KnownCode()
    ensures DecodeLabel([51, 45, 112, 106, 51, 98, 52, 51, 50, 103, 106, 104, 115]) == Some([0x33, 0x5E74, 0x7D44, 0x91D1])
  {
    hide DecodeFrom;
    var code: seq<byte> := [51, 45, 112, 106, 51, 98, 52, 51, 50, 103, 106, 104, 115];
    Hyphen(code);
    assert code[..1] == [51];
    assert Basic([51]).Some? && |Basic([51]).value| == 1 && Basic([51]).value[0] == 51;
    assert Basic([51]).value == [51];
    var r2: seq<byte> := [106, 104, 115];
    var r1: seq<byte> := [52, 51, 50, 103] + r2;
    assert code[2..] == [112, 106, 51, 98] + r1;
    First(r1);
    Second(r2);
    Third();
  }

  lemma {:induction false} Hyphen(code: seq<byte>)
    requires |code| >= 2 && code[1] == 45 && forall i :: 2 <= i < |code| ==> code[i] != 45
    ensures LastHyphen(code) == 1
    decreases |code|
  {
    if |code| > 2 {
      Hyphen(code[..|code| - 1]);
    }
  }

  lemma KnownThresholds()
    ensures Threshold(36, 72) == 1 && Threshold(72, 72) == 1 && Threshold(108, 72) == 26
    ensures DigitByte(19) == 116 && DigitByte(3) == 100 && DigitByte(0) == 97
    ensures Arith.Mod(123, 35) == 18 && Arith.Div(123, 35) == 3 && Arith.Mod(2, 35) == 2 && Arith.Div(2, 35) == 0
  {
  }

  lemma KnownDigits()
    ensures Digits(124, 72, 36) == [116, 100, 97]
  {
    hide Digits, DigitByte, Threshold, Arith.Div, Arith.Mod;
    KnownThresholds();
    DigitsAre(124, 72, 36);
    DigitsAre(3, 72, 72);
    DigitsAre(0, 72, 108);
    assert [116] + ([100] + [97]) == [116, 100, 97];
  }

  lemma OneCodePoint(c: nat, n: nat)
    requires c < MAX32
    ensures Below([c], n) == if c < n then [c] else []
    ensures Next([c], n) == if n <= c then c else MAX32
    ensures AsciiBytes([c]) == if c < 128 then [c] else []
  {
    hide Below, Next, AsciiBytes;
    BelowOne([c], c, n);
    NextOne([c], c, n);
    AsciiOne([c], c);
  }

  lemma BelowOne(q: seq<nat>, c: nat, n: nat)
    requires q == [c]
    ensures Below(q, n) == if c < n then [c] else []
  {
    assert q[..0] == [] && Below([], n) == [];
  }

  lemma NextOne(q: seq<nat>, c: nat, n: nat)
    requires q == [c] && c < MAX32
    ensures Next(q, n) == if n <= c then c else MAX32
  {
    assert q[..0] == [] && Next([], n) == MAX32;
  }

  lemma AsciiOne(q: seq<nat>, c: nat)
    requires q == [c]
    ensures AsciiBytes(q) == if c < 128 then [c] else []
  {
    hide Below;
    assert q[..0] == [] && AsciiBytes([]) == [];
  }

  lemma NothingMore(b: nat)
    ensures EncodeFrom([0xFC], 253, 1, b, 1, false) == Some([]) && Scan([0xFC], 252, 1, 1, b, 0, false) == Some([])
  {
    hide Below, Next, Adapt, Digits;
    OneCodePoint(0xFC, 253);
  }

  /** And "tda" that of U+00FC. */
  lemma KnownEncoding()
    ensures EncodeLabel([0xFC]) == Some([116, 100, 97])
  {
    hide Adapt, Digits, Below, Next, AsciiBytes, EncodeFrom, Scan;
    OneCodePoint(0xFC, 128);
    OneScan();
    FirstJump();
    assert [] + [] + [116, 100, 97] == [116, 100, 97];
  }

  lemma OneScan()
    ensures Scan([0xFC], 252, 0, 0, 72, 124, true) == Some([116, 100, 97])
  {
    hide Adapt, Digits, Below, EncodeFrom;
    var cps: seq<nat> := [0xFC];
    KnownDigits();
    NothingMore(Adapt(124, 1, true));
    ScanStep(cps, 252, 0, 0, 72, 124, true, []);
    assert Scan(cps, 252, 0, 0, 72, 124, true) == Prepend(Digits(124, 72, 36), Scan(cps, 252, 1, 1, Adapt(124, 1, true), 0, false));
    assert [116, 100, 97] + [] == [116, 100, 97];
  }

  lemma FirstJump()
    ensures EncodeFrom([0xFC], 128, 0, 72, 0, true) == Scan([0xFC], 252, 0, 0, 72, 124, true)
  {
    hide Adapt, Digits, Below, Next, Scan;
    OneCodePoint(0xFC, 128);
    assert 0 + (252 - 128) * (0 + 1) == 124;
  }
}
