/**
 * Punycode. The decoder is RFC 3492 section 6.2 and is the reference; the encoder is the
 * order of work of section 6.3 as libuv/src/idna.c does it, on unbounded numbers but with
 * the checks that make the C code give up. The main result is that the decoder undoes it.
 */
module Punycode {
  import opened Bytes
  import opened Utf8
  import opened Wrappers
  import Arith

  const MAX32: nat := 0xFFFF_FFFF

  // ---------- What both directions share: section 5 and section 6.1 ----------

  /** The threshold t of section 6.2 and 6.3, clamped to tmin..tmax. */
  function Threshold(k: nat, bias: nat): (t: nat)
    ensures 1 <= t <= 26
  {
    if k <= bias + 1 then 1 else if k >= bias + 26 then 26 else k - bias
  }

  function AdaptLoop(delta: nat, k: nat): nat {
    if delta > 455 then AdaptLoop(delta / 35, k + 36) else k + 36 * delta / (delta + 38)
  }

  /** Bias adaptation, section 6.1. */
  function Adapt(delta: nat, numPoints: nat, first: bool): nat
    requires numPoints > 0
  {
    var d := if first then delta / 700 else delta / 2;
    AdaptLoop(d + Arith.Div(d, numPoints), 0)
  }

  /** Section 5: digit values 0-25 are the letters, 26-35 the decimal digits. */
  function DigitByte(d: nat): byte
    requires d < 36
  {
    if d < 26 then 97 + d else 48 + (d - 26)
  }

  function DigitValue(b: byte): Option<nat> {
    if 97 <= b <= 122 then Some(b - 97)
    else if 65 <= b <= 90 then Some(b - 65)
    else if 48 <= b <= 57 then Some(b - 48 + 26)
    else None
  }

  // ---------- The decoder, section 6.2 ----------

  /** One generalised variable-length integer: the new value of i, and what is left of the input. */
  function DecodeInt(input: seq<byte>, bias: nat, k: nat, w: nat, i: nat): (r: Option<(nat, seq<byte>)>)
    ensures r.Some? ==> |r.value.1| < |input| && r.value.0 >= i
    decreases |input|
  {
    if input == [] then None
    else match DigitValue(input[0]) {
      case None => None
      case Some(digit) =>
        var t := Threshold(k, bias);
        var i' := i + digit * w;
        if digit < t then Some((i', input[1..]))
        else DecodeInt(input[1..], bias, k + 36, w * (36 - t), i')
    }
  }

  /** The main loop: decode a delta, adapt the bias, insert n into the output at position i. */
  function DecodeFrom(input: seq<byte>, output: seq<nat>, n: nat, i: nat, bias: nat): Option<seq<nat>>
    decreases |input|
  {
    if input == [] then Some(output)
    else match DecodeInt(input, bias, 36, 1, i) {
      case None => None
      case Some((i', rest)) =>
        var count := |output| + 1;
        Arith.DivMod(i', count);
        var n' := n + i' / count;
        var at := i' % count;
        DecodeFrom(rest, output[..at] + [n'] + output[at..], n', at + 1, Adapt(i' - i, count, i == 0))
    }
  }

  const HYPHEN: byte := 45

  /** The number of bytes before the last delimiter, 0 when there is none. */
  function LastHyphen(input: seq<byte>): (b: nat)
    ensures input == [] ==> b == 0
    ensures input != [] ==> b < |input|
  {
    if input == [] then 0
    else if input[|input| - 1] == HYPHEN then |input| - 1
    else LastHyphen(input[..|input| - 1])
  }

  /** The bytes before the delimiter as code points; None if one of them is not basic. */
  function Basic(input: seq<byte>): Option<seq<nat>> {
    if exists j :: 0 <= j < |input| && input[j] >= 128 then None
    else Some(seq(|input|, j requires 0 <= j < |input| => input[j] as nat))
  }

  function DecodeLabel(input: seq<byte>): Option<seq<nat>> {
    var b := LastHyphen(input);
    match Basic(input[..b])
    case None => None
    case Some(basic) => DecodeFrom(if b > 0 then input[b + 1..] else input, basic, 128, 0, 72)
  }

  // ---------- The encoder ----------

  function Digits(q: nat, bias: nat, k: nat): seq<byte> {
    var t := Threshold(k, bias);
    if q < t then [DigitByte(q)]
    else
      [DigitByte(t + Arith.Mod(q - t, 36 - t))] + Digits(Arith.Div(q - t, 36 - t), bias, k + 36)
  }

  /** The code points below n, in order. */
  function Below(cps: seq<nat>, n: nat): (r: seq<nat>)
    ensures |r| <= |cps|
  {
    if cps == [] then []
    else
      var c := cps[|cps| - 1];
      Below(cps[..|cps| - 1], n) + if c < n then [c] else []
  }

  /** The least code point that is at least n, as the minimum search computes it. */
  function Next(cps: seq<nat>, n: nat): nat {
    if cps == [] then MAX32
    else
      var c, m := cps[|cps| - 1], Next(cps[..|cps| - 1], n);
      if n <= c < m then c else m
  }

  function Prepend(a: seq<byte>, b: Option<seq<byte>>): Option<seq<byte>> {
    if b.None? then None else Some(a + b.value)
  }

  /**
   * The digits that remain to be written when every code point below n is done: h of them.
   * None is the overflow report UV_E2BIG.
   */
  function EncodeFrom(cps: seq<nat>, n: nat, h: nat, bias: nat, delta: nat, first: bool): Option<seq<byte>>
    requires forall c :: c in cps ==> c < MAX32
    decreases |cps| - |Below(cps, n)|, |cps| + 1
  {
    if |Below(cps, n)| == |cps| then Some([])
    else
      NextIsNext(cps, n);
      var m := Next(cps, n);
      var delta' := delta + (m - n) * (h + 1);
      if delta' > MAX32 then None else
      Scan(cps, m, 0, h, bias, delta', first)
  }

  /** The rest of one pass for the value n, from position j on. */
  function Scan(cps: seq<nat>, n: nat, j: nat, h: nat, bias: nat, delta: nat, first: bool): Option<seq<byte>>
    requires forall c :: c in cps ==> c < MAX32
    requires n in cps && j <= |cps|
    decreases |cps| - |Below(cps, n)|, |cps| - j
  {
    if j == |cps| then
      BelowGrows(cps, n);
      EncodeFrom(cps, n + 1, h, bias, delta + 1, first)
    else if cps[j] < n then
      if delta == MAX32 then None else Scan(cps, n, j + 1, h, bias, delta + 1, first)
    else if cps[j] > n then
      Scan(cps, n, j + 1, h, bias, delta, first)
    else
      Prepend(Digits(delta, bias, 36), Scan(cps, n, j + 1, h + 1, Adapt(delta, h + 1, first), 0, false))
  }

  function AsciiBytes(cps: seq<nat>): (r: seq<byte>)
    ensures |r| <= |cps|
    ensures |r| == |Below(cps, 128)|
    ensures forall j :: 0 <= j < |r| ==> r[j] == Below(cps, 128)[j] < 128
  {
    if cps == [] then []
    else AsciiBytes(cps[..|cps| - 1]) + if cps[|cps| - 1] < 128 then [cps[|cps| - 1]] else []
  }

  /** Everything after "xn--": the basic code points, a delimiter if there are any, the deltas. */
  function EncodeLabel(cps: seq<nat>): Option<seq<byte>>
    requires forall c :: c in cps ==> c < MAX32
  {
    var basic := AsciiBytes(cps);
    Prepend(basic + if basic == [] then [] else [HYPHEN], EncodeFrom(cps, 128, |basic|, 72, 0, true))
  }

  // ---------- The definitions, one step at a time ----------

  lemma AdaptLoopStep(delta: nat, k: nat)
    ensures delta > 455 ==> AdaptLoop(delta, k) == AdaptLoop(delta / 35, k + 36)
    ensures delta <= 455 ==> AdaptLoop(delta, k) == k + 36 * delta / (delta + 38) <= k + 36
  {
    Arith.AtMost(36 * delta, delta + 38, 36);
  }

  lemma DigitsStep(q: nat, bias: nat, k: nat, full: seq<byte>)
    ensures q < Threshold(k, bias) ==> Digits(q, bias, k) == [DigitByte(q)]
    ensures q >= Threshold(k, bias) ==>
      var x, y := q - Threshold(k, bias), 36 - Threshold(k, bias);
      var digit := Threshold(k, bias) + x % y;
      0 <= x % y < y && 0 <= x / y <= x && digit < 36
      && full + Digits(q, bias, k) == full + [DigitByte(digit)] + Digits(x / y, bias, k + 36)
  {
    hide DigitByte, Threshold;
    if q >= Threshold(k, bias) {
      Arith.DivMod(q - Threshold(k, bias), 36 - Threshold(k, bias));
    }
  }

  /** One step of a scan, with what is written so far in front. */
  lemma ScanStep(cps: seq<nat>, n: nat, j: nat, h: nat, bias: nat, delta: nat, first: bool, full: seq<byte>)
    requires forall c :: c in cps ==> c < MAX32
    requires n in cps && j < |cps|
    ensures cps[j] < n && delta == MAX32 ==> Scan(cps, n, j, h, bias, delta, first) == None
    ensures cps[j] < n && delta != MAX32 ==>
      Scan(cps, n, j, h, bias, delta, first) == Scan(cps, n, j + 1, h, bias, delta + 1, first)
    ensures cps[j] > n ==> Scan(cps, n, j, h, bias, delta, first) == Scan(cps, n, j + 1, h, bias, delta, first)
    ensures cps[j] == n ==>
      Prepend(full, Scan(cps, n, j, h, bias, delta, first))
      == Prepend(full + Digits(delta, bias, 36), Scan(cps, n, j + 1, h + 1, Adapt(delta, h + 1, first), 0, false))
  {
    hide Adapt, AdaptLoop, Digits, EncodeFrom, Below;
    if cps[j] == n {
      PrependTwice(full, Digits(delta, bias, 36), Scan(cps, n, j + 1, h + 1, Adapt(delta, h + 1, first), 0, false));
    }
  }

  lemma PrependTwice(a: seq<byte>, b: seq<byte>, c: Option<seq<byte>>)
    ensures Prepend(a, Prepend(b, c)) == Prepend(a + b, c)
  {
    if c.Some? {
      Associative(a, b, c.value);
    }
  }

  // ---------- Filters and minima ----------

  lemma {:induction false} BelowConcat(a: seq<nat>, b: seq<nat>, n: nat)
    ensures Below(a + b, n) == Below(a, n) + Below(b, n)
  {
    if b == [] {
      assert a + b == a;
    } else {
      BelowConcat(a, b[..|b| - 1], n);
      assert (a + b)[..|a + b| - 1] == a + b[..|b| - 1];
    }
  }

  lemma Snoc(cps: seq<nat>, front: seq<nat>, last: nat)
    requires cps == front + [last]
    ensures last in cps
    ensures forall c :: c in front ==> c in cps
    ensures forall c :: c in cps ==> c in front || c == last
  {}

  lemma {:induction false} BelowAll(cps: seq<nat>, n: nat)
    ensures |Below(cps, n)| == |cps| <==> forall c :: c in cps ==> c < n
    ensures |Below(cps, n)| == |cps| ==> Below(cps, n) == cps
  {
    if cps != [] {
      var front, last := cps[..|cps| - 1], cps[|cps| - 1];
      BelowAll(front, n);
      Snoc(cps, front, last);
    }
  }

  lemma {:induction false} BelowGrows(cps: seq<nat>, n: nat)
    ensures |Below(cps, n)| <= |Below(cps, n + 1)|
    ensures n in cps ==> |Below(cps, n)| < |Below(cps, n + 1)|
  {
    if cps != [] {
      BelowGrows(cps[..|cps| - 1], n);
    }
  }

  lemma {:induction false} BelowSame(cps: seq<nat>, n: nat, m: nat)
    requires n <= m && forall c :: c in cps ==> c < n || m <= c
    ensures Below(cps, n) == Below(cps, m)
  {
    if cps != [] {
      var front := cps[..|cps| - 1];
      Snoc(cps, front, cps[|cps| - 1]);
      BelowSame(front, n, m);
    }
  }

  lemma {:induction false} NextIsMin(cps: seq<nat>, n: nat)
    ensures Next(cps, n) == MAX32 || (Next(cps, n) in cps && n <= Next(cps, n))
    ensures forall c :: c in cps && n <= c ==> Next(cps, n) <= c
  {
    if cps != [] {
      var front := cps[..|cps| - 1];
      NextIsMin(front, n);
      Snoc(cps, front, cps[|cps| - 1]);
    }
  }

  lemma NextIsNext(cps: seq<nat>, n: nat)
    requires forall c :: c in cps ==> c < MAX32
    requires |Below(cps, n)| != |cps|
    ensures Next(cps, n) in cps && n <= Next(cps, n)
    ensures Below(cps, Next(cps, n)) == Below(cps, n)
  {
    NextIsMin(cps, n);
    BelowAll(cps, n);
    BelowSame(cps, n, Next(cps, n));
  }

  // ---------- One integer: the digits decode to the number ----------

  lemma DivModStep(q: nat, x: nat, t: nat, y: nat, w: nat, i: nat)
    requires y > 0 && q == t + x
    ensures i + (t + Arith.Mod(x, y)) * w + Arith.Div(x, y) * (w * y) == i + q * w
  {
    Arith.DivMod(x, y);
    var d, r := x / y, x % y;
    assert d * (w * y) == d * y * w;
    Arith.Distribute(t + r, d * y, w);
  }

  lemma Associative(a: seq<byte>, b: seq<byte>, c: seq<byte>)
    ensures a + b + c == a + (b + c)
  {}

  lemma DigitByteValue(d: nat)
    requires d < 36
    ensures DigitValue(DigitByte(d)) == Some(d) && DigitByte(d) != HYPHEN
  {}

  lemma DigitsAre(q: nat, bias: nat, k: nat)
    ensures var t := Threshold(k, bias);
      if q < t then Digits(q, bias, k) == [DigitByte(q)]
      else t + Arith.Mod(q - t, 36 - t) < 36
           && Digits(q, bias, k) == [DigitByte(t + Arith.Mod(q - t, 36 - t))] + Digits(Arith.Div(q - t, 36 - t), bias, k + 36)
  {
    hide DigitByte, Threshold, Arith.Div, Arith.Mod;
  }

  lemma {:induction false} DigitsDecode(q: nat, bias: nat, k: nat, w: nat, i: nat, rest: seq<byte>)
    ensures DecodeInt(Digits(q, bias, k) + rest, bias, k, w, i) == Some((i + q * w, rest))
    decreases q
  {
    hide DecodeInt, Digits, DigitByte, DigitValue, Threshold, Arith.Div, Arith.Mod;
    var t := Threshold(k, bias);
    DigitsAre(q, bias, k);
    if q < t {
      LastDigit(q, bias, k, w, i, rest);
    } else {
      var x, y := q - t, 36 - t;
      var digit := t + Arith.Mod(x, y);
      var tail := Digits(Arith.Div(x, y), bias, k + 36);
      DigitByteValue(digit);
      MoreDigits(digit, bias, k, w, i, tail + rest);
      Associative([DigitByte(digit)], tail, rest);
      DigitsDecode(Arith.Div(x, y), bias, k + 36, w * y, i + digit * w, rest);
      DivModStep(q, x, t, y, w, i);
    }
  }

  lemma LastDigit(q: nat, bias: nat, k: nat, w: nat, i: nat, rest: seq<byte>)
    requires q < Threshold(k, bias)
    ensures DecodeInt([DigitByte(q)] + rest, bias, k, w, i) == Some((i + q * w, rest))
  {
    hide DigitByte, DigitValue, Threshold;
    DigitByteValue(q);
    var input := [DigitByte(q)] + rest;
    assert input[1..] == rest;
  }

  lemma MoreDigits(digit: nat, bias: nat, k: nat, w: nat, i: nat, rest: seq<byte>)
    requires Threshold(k, bias) <= digit < 36
    ensures DecodeInt([DigitByte(digit)] + rest, bias, k, w, i)
         == DecodeInt(rest, bias, k + 36, w * (36 - Threshold(k, bias)), i + digit * w)
  {
    hide DigitByte, DigitValue, Threshold;
    DigitByteValue(digit);
    var input := [DigitByte(digit)] + rest;
    assert input[1..] == rest;
  }

  /** No digit is the delimiter, so the last delimiter is the one after the basic code points. */
  lemma {:induction false} DigitsNoHyphen(q: nat, bias: nat, k: nat)
    ensures HYPHEN !in Digits(q, bias, k)
    decreases q
  {
    hide DigitByte, Threshold, Arith.Div, Arith.Mod;
    var t := Threshold(k, bias);
    if q < t {
      DigitByteValue(q);
    } else {
      DigitByteValue(t + Arith.Mod(q - t, 36 - t));
      DigitsNoHyphen(Arith.Div(q - t, 36 - t), bias, k + 36);
    }
  }

  // ---------- The whole run: the decoder follows the encoder ----------

  /**
   * What the decoder has rebuilt when the encoder is at position j of the pass for n: the code
   * points up to n before j, and those below n from j on.
   */
  function Kept(cps: seq<nat>, n: nat, j: nat): seq<nat>
    requires j <= |cps|
  {
    Below(cps[..j], n + 1) + Below(cps[j..], n)
  }

  /** Moving the boundary over c inserts c where the boundary was, if c is n, and nothing otherwise. */
  lemma KeptMove(a: seq<nat>, c: nat, b: seq<nat>, n: nat)
    ensures Below(a + [c], n + 1) == Below(a, n + 1) + if c <= n then [c] else []
    ensures Below([c] + b, n) == (if c < n then [c] else []) + Below(b, n)
  {
    BelowConcat(a, [c], n + 1);
    BelowConcat([c], b, n);
    assert [c][..0] == [];
    assert Below([c], n) == if c < n then [c] else [];
    assert Below([c], n + 1) == if c < n + 1 then [c] else [];
  }

  /** A pass starts from, and ends with, all the code points below its value. */
  lemma KeptEnds(cps: seq<nat>, n: nat)
    ensures Kept(cps, n, 0) == Below(cps, n) && Below(cps[..0], n + 1) == []
    ensures Kept(cps, n, |cps|) == Below(cps, n + 1) && cps[..|cps|] == cps
  {
    assert cps[0..] == cps && cps[..0] == [] && cps[..|cps|] == cps && cps[|cps|..] == [];
  }

  /** One step of the scan, as the decoder's partial output sees it. */
  lemma KeptStep(cps: seq<nat>, n: nat, j: nat)
    requires j < |cps|
    ensures cps[j] != n ==> Kept(cps, n, j + 1) == Kept(cps, n, j)
    ensures cps[j] == n ==> var at, kept := |Below(cps[..j], n + 1)|, Kept(cps, n, j);
                            Kept(cps, n, j + 1) == kept[..at] + [n] + kept[at..]
    ensures |Below(cps[..j + 1], n + 1)| == |Below(cps[..j], n + 1)| + if cps[j] <= n then 1 else 0
  {
    hide Below;
    var a, c, b := cps[..j], cps[j], cps[j + 1..];
    assert cps[..j + 1] == a + [c];
    assert cps[j..] == [c] + b;
    KeptMove(a, c, b, n);
    var l, r := Below(a, n + 1), Below(b, n);
    var mid := if c < n then [c] else [];
    var mid' := if c <= n then [c] else [];
    assert Kept(cps, n, j) == l + (mid + r);
    assert Kept(cps, n, j + 1) == l + mid' + r;
  }

  /** steps * size, unfolded; it keeps products out of the two large lemmas. */
  function Rounds(steps: nat, size: nat): nat {
    if steps == 0 then 0 else Rounds(steps - 1, size) + size
  }

  lemma {:induction false} RoundsIsProduct(steps: nat, size: nat)
    ensures Rounds(steps, size) == steps * size
  {
    if steps > 0 {
      RoundsIsProduct(steps - 1, size);
      Arith.Distribute(steps, 1, size);
    }
  }

  lemma {:induction false} RoundsAdd(a: nat, b: nat, size: nat)
    ensures Rounds(a + b, size) == Rounds(a, size) + Rounds(b, size)
  {
    if b > 0 {
      RoundsAdd(a, b - 1, size);
    }
  }

  /**
   * `delta` is exactly what the decoder's counters (nd, i) lack to reach value n at the position
   * where the scan stands.
   */
  ghost predicate InStep(n: nat, at: nat, h: nat, delta: nat, nd: nat, i: nat) {
    nd <= n && delta == Rounds(n - nd, h + 1) + at - i
  }

  lemma {:induction false} FromDecodes(cps: seq<nat>, n: nat, h: nat, bias: nat, delta: nat, first: bool, nd: nat, i: nat)
    requires forall c :: c in cps ==> c < MAX32
    requires h == |Below(cps, n)| && InStep(n, 0, h, delta, nd, i) && (first <==> i == 0)
    requires EncodeFrom(cps, n, h, bias, delta, first).Some?
    ensures DecodeFrom(EncodeFrom(cps, n, h, bias, delta, first).value, Below(cps, n), nd, i, bias) == Some(cps)
    ensures HYPHEN !in EncodeFrom(cps, n, h, bias, delta, first).value
    decreases |cps| - |Below(cps, n)|, |cps| + 1
  {
    hide Adapt, AdaptLoop, Digits, DecodeInt, Scan, Below, Rounds, Next;
    if |Below(cps, n)| == |cps| {
      BelowAll(cps, n);
    } else {
      hide DecodeFrom;
      NextIsNext(cps, n);
      var m := Next(cps, n);
      RoundsAdd(n - nd, m - n, h + 1);
      RoundsIsProduct(m - n, h + 1);
      KeptEnds(cps, m);
      ScanDecodes(cps, m, 0, h, bias, delta + (m - n) * (h + 1), first, nd, i);
    }
  }

  lemma {:induction false} ScanDecodes(cps: seq<nat>, n: nat, j: nat, h: nat, bias: nat, delta: nat, first: bool, nd: nat, i: nat)
    requires forall c :: c in cps ==> c < MAX32
    requires n in cps && j <= |cps|
    requires h == |Kept(cps, n, j)| && (first <==> i == 0)
    requires InStep(n, |Below(cps[..j], n + 1)|, h, delta, nd, i)
    requires Scan(cps, n, j, h, bias, delta, first).Some?
    ensures DecodeFrom(Scan(cps, n, j, h, bias, delta, first).value, Kept(cps, n, j), nd, i, bias) == Some(cps)
    ensures HYPHEN !in Scan(cps, n, j, h, bias, delta, first).value
    decreases |cps| - |Below(cps, n)|, |cps| - j
  {
    hide Adapt, AdaptLoop, Digits, DecodeFrom, EncodeFrom, Below, Prepend;
    if j == |cps| {
      BelowGrows(cps, n);
      KeptEnds(cps, n);
      FromDecodes(cps, n + 1, h, bias, delta + 1, first, nd, i);
    } else {
      KeptStep(cps, n, j);
      if cps[j] < n {
        ScanDecodes(cps, n, j + 1, h, bias, delta + 1, first, nd, i);
      } else if cps[j] > n {
        ScanDecodes(cps, n, j + 1, h, bias, delta, first, nd, i);
      } else {
        InsertDecodes(cps, n, j, h, bias, delta, first, nd, i);
      }
    }
  }

  /** The case where a delta is written: the decoder reads it and inserts n at its place. */
  lemma {:induction false} InsertDecodes(cps: seq<nat>, n: nat, j: nat, h: nat, bias: nat, delta: nat, first: bool, nd: nat, i: nat)
    requires forall c :: c in cps ==> c < MAX32
    requires n in cps && j < |cps| && cps[j] == n
    requires h == |Kept(cps, n, j)| && (first <==> i == 0)
    requires InStep(n, |Below(cps[..j], n + 1)|, h, delta, nd, i)
    requires Scan(cps, n, j, h, bias, delta, first).Some?
    ensures DecodeFrom(Scan(cps, n, j, h, bias, delta, first).value, Kept(cps, n, j), nd, i, bias) == Some(cps)
    ensures HYPHEN !in Scan(cps, n, j, h, bias, delta, first).value
    decreases |cps| - |Below(cps, n)|, |cps| - j, 0
  {
    hide Adapt, AdaptLoop, Digits, DecodeInt, DecodeFrom, EncodeFrom, Below;
    var at, count, bias' := |Below(cps[..j], n + 1)|, h + 1, Adapt(delta, h + 1, first);
    var rest := Scan(cps, n, j + 1, h + 1, bias', 0, false);
    KeptStep(cps, n, j);
    ScanDecodes(cps, n, j + 1, h + 1, bias', 0, false, n, at + 1);
    DigitsDecode(delta, bias, 36, 1, i, rest.value);
    DigitsNoHyphen(delta, bias, 36);
    RoundsIsProduct(n - nd, count);
    DecodeOne(Digits(delta, bias, 36) + rest.value, Kept(cps, n, j), nd, i, bias, delta, rest.value, n - nd, at);
  }

  /** One turn of the decoder's main loop. */
  lemma DecodeOne(input: seq<byte>, output: seq<nat>, n: nat, i: nat, bias: nat, delta: nat, rest: seq<byte>, steps: nat, at: nat)
    requires input != [] && DecodeInt(input, bias, 36, 1, i) == Some((i + delta, rest))
    requires at <= |output| && i + delta == steps * (|output| + 1) + at
    ensures |rest| < |input|
    ensures DecodeFrom(input, output, n, i, bias)
            == DecodeFrom(rest, output[..at] + [n + steps] + output[at..], n + steps, at + 1, Adapt(delta, |output| + 1, i == 0))
  {
    hide Adapt, AdaptLoop, DecodeInt;
    Arith.Split(steps, at, |output| + 1);
  }

  lemma {:induction false} LastHyphenIs(a: seq<byte>, b: seq<byte>)
    requires HYPHEN !in b
    ensures LastHyphen(a + [HYPHEN] + b) == |a|
    ensures LastHyphen(b) == 0
  {
    var s := a + [HYPHEN] + b;
    if b != [] {
      var front := b[..|b| - 1];
      assert s[..|s| - 1] == a + [HYPHEN] + front;
      assert s[|s| - 1] == b[|b| - 1] && b[|b| - 1] in b;
      LastHyphenIs(a, front);
    }
  }

  /** The decoder finds the basic code points and the deltas where the encoder put them. */
  lemma DecodeParts(cps: seq<nat>, tail: seq<byte>)
    requires HYPHEN !in tail
    ensures var basic := AsciiBytes(cps);
            DecodeLabel(basic + (if basic == [] then [] else [HYPHEN]) + tail)
            == DecodeFrom(tail, Below(cps, 128), 128, 0, 72)
  {
    hide DecodeFrom, AsciiBytes, LastHyphen, Below;
    var basic := AsciiBytes(cps);
    assert Basic(basic).Some? && Basic(basic).value == Below(cps, 128);
    LastHyphenIs(basic, tail);
    if basic == [] {
      var input := basic + [] + tail;
      assert input == tail && input[..0] == basic;
    } else {
      var input := basic + [HYPHEN] + tail;
      assert input[|basic| + 1..] == tail && input[..|basic|] == basic;
    }
  }

  /** The round trip: whatever the encoder writes, the decoder of RFC 3492 turns back into the label. */
  lemma RoundTrip(cps: seq<nat>)
    requires forall c :: c in cps ==> c < MAX32
    requires EncodeLabel(cps).Some?
    ensures DecodeLabel(EncodeLabel(cps).value) == Some(cps)
  {
    hide DecodeFrom, DecodeLabel, EncodeFrom, AsciiBytes, Below;
    var h := |AsciiBytes(cps)|;
    FromDecodes(cps, 128, h, 72, 0, true, 128, 0);
    DecodeParts(cps, EncodeFrom(cps, 128, h, 72, 0, true).value);
  }

  // ---------- When the encoder gives up ----------

  /** While the label has fewer than 3855 code points, n passes over it advance delta by less than 2^32. */
  lemma RoundsFit(n: nat, size: nat, extra: nat)
    requires n <= 0x10FFFF && size <= 3855 && extra <= size
    ensures Rounds(n, size) + extra <= MAX32 - 1
  {
    RoundsIsProduct(n, size);
    Arith.MulMono(n, 0x10FFFF, size);
  }

  lemma {:induction false} FromFits(cps: seq<nat>, n: nat, h: nat, bias: nat, delta: nat, first: bool)
    requires Scalars(cps) && |cps| < 3855
    requires h == |Below(cps, n)| && delta <= Rounds(n, h + 1)
    ensures EncodeFrom(cps, n, h, bias, delta, first).Some?
    decreases |cps| - |Below(cps, n)|, |cps| + 1
  {
    hide Adapt, AdaptLoop, Digits, Scan, Below;
    if |Below(cps, n)| != |cps| {
      NextIsNext(cps, n);
      var m := Next(cps, n);
      RoundsAdd(n, m - n, h + 1);
      RoundsIsProduct(m - n, h + 1);
      RoundsFit(m, h + 1, 0);
      KeptEnds(cps, m);
      ScanFits(cps, m, 0, h, bias, delta + (m - n) * (h + 1), first);
    }
  }

  lemma {:induction false} ScanFits(cps: seq<nat>, n: nat, j: nat, h: nat, bias: nat, delta: nat, first: bool)
    requires Scalars(cps) && |cps| < 3855
    requires n in cps && j <= |cps|
    requires h == |Kept(cps, n, j)| && delta <= Rounds(n, h + 1) + |Below(cps[..j], n + 1)|
    ensures Scan(cps, n, j, h, bias, delta, first).Some?
    decreases |cps| - |Below(cps, n)|, |cps| - j
  {
    hide Adapt, AdaptLoop, Digits, EncodeFrom, Below;
    if j == |cps| {
      BelowGrows(cps, n);
      KeptEnds(cps, n);
      FromFits(cps, n + 1, h, bias, delta + 1, first);
    } else {
      KeptStep(cps, n, j);
      if cps[j] < n {
        RoundsFit(n, h + 1, |Below(cps[..j], n + 1)|);
        ScanFits(cps, n, j + 1, h, bias, delta + 1, first);
      } else if cps[j] > n {
        ScanFits(cps, n, j + 1, h, bias, delta, first);
      } else {
        ScanFits(cps, n, j + 1, h + 1, Adapt(delta, h + 1, first), 0, false);
      }
    }
  }

  /** So a label that could ever be a domain name (63 bytes) is never refused as too big. */
  lemma ShortLabelsFit(cps: seq<nat>)
    requires Scalars(cps) && |cps| < 3855
    ensures EncodeLabel(cps).Some?
  {
    FromFits(cps, 128, |AsciiBytes(cps)|, 72, 0, true);
  }
}
