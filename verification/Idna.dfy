/** uv__idna_toascii_label: one label of a domain name, UTF-8 in, ASCII or "xn--" Punycode out. */
module Idna {
  import opened Bytes
  import opened Wrappers
  import opened Utf8
  import Arith
  import P = Punycode

  /** The C type unsigned int; a value of this type is proved not to wrap. */
  type u32 = n: nat | n <= P.MAX32

  datatype Status = Ok(count: nat) | Einval | E2big

  const ALPHABET := "abcdefghijklmnopqrstuvwxyz0123456789"

  /** "xn--" */
  const ACE: seq<byte> := [120, 110, 45, 45]

  /** mem[s..se] is the label in UTF-8, and what the last loop condition reads after it is readable. */
  ghost predicate Text(mem: seq<byte>, s: nat, se: nat, cps: seq<nat>) {
    && s <= se < |mem| && se + Follow(mem[se], 1) < |mem|
    && Scalars(cps) && mem[s..se] == EncodeAll(cps)
    && |cps| < 0x8000_0000
  }

  ghost function Offset(s: nat, cps: seq<nat>, i: nat): nat
    requires Scalars(cps) && i <= |cps|
  {
    s + |EncodeAll(cps[..i])|
  }

  lemma TextAt(mem: seq<byte>, s: nat, se: nat, cps: seq<nat>, i: nat)
    requires Text(mem, s, se, cps) && i <= |cps|
    ensures i < |cps| ==> Stands(mem, Offset(s, cps, i), cps[i])
                          && Offset(s, cps, i + 1) == Offset(s, cps, i) + |Encode(cps[i])| <= se
    ensures i == |cps| ==> Offset(s, cps, i) == se
  {
    hide Encode, EncodeAll, Follow;
    if i < |cps| {
      EncodeAllAt(cps, i);
      var from, to := |EncodeAll(cps[..i])|, |EncodeAll(cps[..i + 1])|;
      Subslice(mem, s, se, from, to);
    } else {
      assert cps[..i] == cps;
    }
  }

  lemma Subslice(mem: seq<byte>, s: nat, se: nat, from: nat, to: nat)
    requires s <= se <= |mem| && from <= to <= se - s
    ensures mem[s..se][from..to] == mem[s + from..s + to]
  {
    forall k | 0 <= k < to - from
      ensures mem[s..se][from..to][k] == mem[s + from..s + to][k]
    {
      assert mem[s..se][from + k] == mem[s + from + k];
    }
  }

  lemma TextBounds(mem: seq<byte>, s: nat, se: nat, cps: seq<nat>)
    requires Text(mem, s, se, cps)
    ensures |cps| < 0x8000_0000 && Scalars(cps)
    ensures forall c :: c in cps ==> c < P.MAX32
  {}

  /** Where a foreach_codepoint loop stands: at code point i, which is c, with p just after it. */
  ghost predicate Cursor(s: nat, se: nat, cps: seq<nat>, i: nat, c: nat, p: nat) {
    && Scalars(cps) && i <= |cps| && (i < |cps| <==> p <= se)
    && (i < |cps| ==> c == cps[i] && p == Offset(s, cps, i + 1))
  }

  /** The condition of the foreach_codepoint loops: `p' <= se` tells whether a code point was read. */
  method Next(mem: seq<byte>, s: nat, se: nat, p: nat, ghost cps: seq<nat>, ghost i: nat) returns (c: u32, p': nat)
    requires Text(mem, s, se, cps) && i <= |cps| && p == Offset(s, cps, i)
    ensures Cursor(s, se, cps, i, c, p')
  {
    hide Encode, EncodeAll, Scalar, Follow, Stands;
    TextAt(mem, s, se, cps, i);
    if i < |cps| {
      FollowEncoded(mem, p, se, cps[i]);
    }
    c, p' := 0, p;
    if p <= se {
      c, p' := Decode1(mem, p, se);
    }
  }

  method First(mem: seq<byte>, s: nat, se: nat, ghost cps: seq<nat>) returns (c: u32, p': nat)
    requires Text(mem, s, se, cps)
    ensures Cursor(s, se, cps, 0, c, p')
  {
    assert cps[..0] == [];
    c, p' := Next(mem, s, se, s, cps, 0);
  }

  /** Counts the ASCII code points and the others. */
  method Count(mem: seq<byte>, s: nat, se: nat, ghost cps: seq<nat>) returns (h: u32, todo: u32, invalid: bool)
    requires Text(mem, s, se, cps)
    ensures !invalid && h == |P.Below(cps, 128)| && todo == |cps| - h
  {
    hide Encode, EncodeAll, Scalar, Follow, Text, Offset;
    TextBounds(mem, s, se, cps);
    h, todo := 0, 0;
    ghost var i := 0;
    assert cps[..0] == [];
    var c: u32, p: nat := First(mem, s, se, cps);
    while p <= se
      invariant Cursor(s, se, cps, i, c, p)
      invariant h == |P.Below(cps[..i], 128)| && todo == i - h
      decreases |cps| - i
    {
      assert cps[..i + 1][..i] == cps[..i];
      assert c in cps;
      if c < 128 {
        h := h + 1;
      } else if c == INVALID {
        return h, todo, true;
      } else {
        todo := todo + 1;
      }
      i := i + 1;
      c, p := Next(mem, s, se, p, cps, i);
    }
    assert cps[..i] == cps;
    invalid := false;
  }

  /** The least code point that is at least n. */
  method Minimum(mem: seq<byte>, s: nat, se: nat, n: u32, ghost cps: seq<nat>) returns (m: u32)
    requires Text(mem, s, se, cps)
    ensures m == P.Next(cps, n)
  {
    hide Encode, EncodeAll, Scalar, Follow, Text, Offset;
    TextBounds(mem, s, se, cps);
    m := 0xFFFF_FFFF;
    ghost var i := 0;
    assert cps[..0] == [];
    var c: u32, p: nat := First(mem, s, se, cps);
    while p <= se
      invariant Cursor(s, se, cps, i, c, p)
      invariant m == P.Next(cps[..i], n)
      decreases |cps| - i
    {
      assert cps[..i + 1][..i] == cps[..i];
      if c >= n && c < m {
        m := c;
      }
      i := i + 1;
      c, p := Next(mem, s, se, p, cps, i);
    }
    assert cps[..i] == cps;
  }

  function Min(a: nat, b: nat): nat {
    if a < b then a else b
  }

  /**
   * `full` is everything written since position d0, as far as there is room for it: like the
   * C code, a full buffer silently drops the rest.
   */
  ghost predicate Written(buf: array<byte>, d0: nat, d: nat, full: seq<byte>)
    reads buf
    ensures Written(buf, d0, d, full) ==> d0 <= d <= buf.Length
  {
    d0 <= d <= buf.Length && d - d0 == Min(|full|, buf.Length - d0) && buf[d0..d] == full[..d - d0]
  }

  /** if (*d < de) *(*d)++ = x; */
  method Put(buf: array<byte>, ghost d0: nat, d: nat, x: byte, ghost full: seq<byte>) returns (d': nat)
    requires Written(buf, d0, d, full)
    modifies buf
    ensures Written(buf, d0, d', full + [x]) && buf[..d0] == old(buf[..d0])
  {
    d' := d;
    if d < buf.Length {
      buf[d] := x;
      d' := d + 1;
      assert buf[d0..d] == old(buf[d0..d]);
      assert buf[d0..d'] == buf[d0..d] + [x];
    }
  }

  /** Copies the first h ASCII code points, which are all of them. */
  method CopyBasic(mem: seq<byte>, s: nat, se: nat, h: u32, buf: array<byte>, ghost d0: nat, d: nat,
                   ghost cps: seq<nat>, ghost full: seq<byte>) returns (d': nat)
    requires Text(mem, s, se, cps) && h == |P.AsciiBytes(cps)|
    requires Written(buf, d0, d, full)
    modifies buf
    ensures Written(buf, d0, d', full + P.AsciiBytes(cps)) && buf[..d0] == old(buf[..d0])
  {
    hide Encode, EncodeAll, Scalar, Follow, Text, Offset, Written, P.AsciiBytes;
    TextBounds(mem, s, se, cps);
    d' := d;
    var x: u32 := 0;
    ghost var i, done := 0, full;
    AsciiSnoc(cps, 0, full);
    var c: u32, p: nat := First(mem, s, se, cps);
    while p <= se
      invariant Cursor(s, se, cps, i, c, p)
      invariant x == |P.AsciiBytes(cps[..i])| && done == full + P.AsciiBytes(cps[..i])
      invariant Written(buf, d0, d', done) && buf[..d0] == old(buf[..d0])
      decreases |cps| - i
    {
      AsciiSnoc(cps, i, full);
      if c <= 127 {
        d' := Put(buf, d0, d', c, done);
        done := done + [c];
        x := x + 1;
        if x == h {
          AsciiPrefix(cps, i + 1);
          return;
        }
      }
      i := i + 1;
      c, p := Next(mem, s, se, p, cps, i);
    }
    assert cps[..i] == cps;
  }

  lemma AsciiSnoc(cps: seq<nat>, i: nat, full: seq<byte>)
    requires i <= |cps|
    ensures i == 0 ==> full + P.AsciiBytes(cps[..i]) == full
    ensures i < |cps| ==>
      full + P.AsciiBytes(cps[..i + 1]) == full + P.AsciiBytes(cps[..i]) + if cps[i] < 128 then [cps[i]] else []
  {
    if i < |cps| {
      assert cps[..i + 1][..i] == cps[..i];
      P.Associative(full, P.AsciiBytes(cps[..i]), if cps[i] < 128 then [cps[i]] else []);
    }
  }

  /** Once as many ASCII code points are found as the label has, no more follow. */
  lemma {:induction false} AsciiPrefix(cps: seq<nat>, i: nat)
    requires i <= |cps|
    ensures P.AsciiBytes(cps[..i]) <= P.AsciiBytes(cps)
    ensures |P.AsciiBytes(cps[..i])| == |P.AsciiBytes(cps)| ==> P.AsciiBytes(cps[..i]) == P.AsciiBytes(cps)
    decreases |cps|
  {
    if i < |cps| {
      var front := cps[..|cps| - 1];
      assert front[..i] == cps[..i];
      AsciiPrefix(front, i);
    } else {
      assert cps[..i] == cps;
    }
  }

  /** 10 to the power e. */
  ghost function Pow10(e: nat): nat {
    if e == 0 then 1 else 10 * Pow10(e - 1)
  }

  lemma Pow10Covers()
    ensures Pow10(10) > P.MAX32
  {
    assert Pow10(5) == 100_000;
  }

  /** alphabet[t] */
  function Alphabet(t: nat): (b: byte)
    requires t < 36
    ensures b == P.DigitByte(t)
  {
    ALPHABET[t] as int
  }

  /** Writes delta as a generalised variable-length integer. */
  method PutDigits(delta: u32, bias: nat, buf: array<byte>, ghost d0: nat, d: nat, ghost full: seq<byte>) returns (d': nat)
    requires Written(buf, d0, d, full)
    modifies buf
    ensures Written(buf, d0, d', full + P.Digits(delta, bias, 36)) && buf[..d0] == old(buf[..d0])
  {
    hide P.Digits, P.DigitByte, Alphabet, Written, Pow10;
    d' := d;
    var k: u32, q: u32 := 36, delta;
    ghost var left: nat, done := 10, full;
    Pow10Covers();
    while true
      invariant q < Pow10(left) && left <= 10 && k == 36 * (11 - left)
      invariant done + P.Digits(q, bias, k) == full + P.Digits(delta, bias, 36)
      invariant Written(buf, d0, d', done) && buf[..d0] == old(buf[..d0])
      decreases q
    {
      var t: u32 := 1;
      if k > bias {
        t := k - bias;
      }
      if t > 26 {
        t := 26;
      }
      assert t == P.Threshold(k, bias);
      P.DigitsStep(q, bias, k, done);
      if q < t {
        break;
      }
      var x: u32 := q - t;
      var y: u32 := 36 - t;
      QuotientShrinks(q, x, y, left);
      q := x / y;
      t := t + x % y;
      d' := Put(buf, d0, d', Alphabet(t), done);
      done, left, k := done + [P.DigitByte(t)], left - 1, k + 36;
    }
    d' := Put(buf, d0, d', Alphabet(q), done);
  }

  /** A divisor is at least 10, so a digit is dropped in every round. */
  lemma QuotientShrinks(q: nat, x: nat, y: nat, left: nat)
    requires q < Pow10(left) && x < q && y >= 10
    ensures left > 0 && x / y < q && x / y < Pow10(left - 1)
  {
    Arith.DivMod(x, y);
    Arith.MulMono(10, y, x / y);
  }

  lemma AdaptStart(delta: u32, h: nat, first: bool, d: nat)
    requires 0 < h && d == (if first then delta / 2 / 350 else delta / 2)
    ensures P.Adapt(delta, h, first) == P.AdaptLoop(d + Arith.Div(d, h), 0) && d + Arith.Div(d, h) <= P.MAX32
  {
    hide P.AdaptLoop, Arith.Div;
    assert delta / 2 / 350 == delta / 700;
  }

  method AdaptBias(delta0: u32, h: u32, first: bool) returns (bias: u32)
    requires 0 < h
    ensures bias == P.Adapt(delta0, h, first)
  {
    hide P.Adapt, P.AdaptLoop, Arith.Div;
    var delta: u32 := delta0 / 2;
    if first {
      delta := delta / 350;
    }
    AdaptStart(delta0, h, first, delta);
    delta := delta + Arith.Div(delta, h);
    bias := AdaptRounds(delta);
  }

  method AdaptRounds(delta0: u32) returns (bias: u32)
    ensures bias == P.AdaptLoop(delta0, 0)
  {
    hide P.AdaptLoop;
    var delta: u32 := delta0;
    bias := 0;
    ghost var left: nat := 10;
    Pow10Covers();
    while delta > 35 * 26 / 2
      invariant P.AdaptLoop(delta, bias) == P.AdaptLoop(delta0, 0)
      invariant delta < Pow10(left) && left <= 10 && bias == 36 * (10 - left)
    {
      P.AdaptLoopStep(delta, bias);
      delta := delta / 35;
      left, bias := left - 1, bias + 36;
    }
    P.AdaptLoopStep(delta, bias);
    bias := bias + 36 * delta / (delta + 38);
  }

  /** What one call of the pass loop returns: UV_E2BIG, or the counters for the next pass. */
  method Scan(mem: seq<byte>, s: nat, se: nat, n: u32, h0: u32, bias0: u32, delta0: u32, first0: bool,
              buf: array<byte>, ghost d0: nat, d: nat, ghost cps: seq<nat>, ghost full: seq<byte>)
    returns (ok: bool, h: u32, bias: u32, delta: u32, first: bool, d': nat, ghost full': seq<byte>)
    requires Text(mem, s, se, cps) && n in cps && forall c :: c in cps ==> c < P.MAX32
    requires h0 == |P.Below(cps, n)|
    requires Written(buf, d0, d, full)
    modifies buf
    ensures buf[..d0] == old(buf[..d0])
    ensures !ok ==> P.Scan(cps, n, 0, h0, bias0, delta0, first0) == None
    ensures ok ==> h == |P.Below(cps, n + 1)| && delta < P.MAX32
                   && Written(buf, d0, d', full')
                   && P.Prepend(full, P.Scan(cps, n, 0, h0, bias0, delta0, first0))
                      == P.Prepend(full', P.EncodeFrom(cps, n + 1, h, bias, delta + 1, first))
  {
    hide Encode, EncodeAll, Scalar, Follow, Text, Offset, P.Adapt, P.AdaptLoop, P.Digits, P.EncodeFrom, P.Below, P.Scan, P.Kept;
    TextBounds(mem, s, se, cps);
    h, bias, delta, first, d', full' := h0, bias0, delta0, first0, d, full;
    ghost var i := 0;
    P.KeptEnds(cps, n);
    var c: u32, p: nat := First(mem, s, se, cps);
    while p <= se
      invariant Cursor(s, se, cps, i, c, p)
      invariant h == |P.Kept(cps, n, i)|
      invariant n in cps[..i] ==> delta <= i
      invariant P.Prepend(full, P.Scan(cps, n, 0, h0, bias0, delta0, first0))
             == P.Prepend(full', P.Scan(cps, n, i, h, bias, delta, first))
      invariant Written(buf, d0, d', full') && buf[..d0] == old(buf[..d0])
      decreases |cps| - i
    {
      P.ScanStep(cps, n, i, h, bias, delta, first, full');
      P.KeptStep(cps, n, i);
      KeptSize(cps, n, i, cps[i] == n);
      assert cps[..i + 1] == cps[..i] + [cps[i]];
      if c < n {
        if delta == 0xFFFF_FFFF {
          ok := false;
          return;
        }
        delta := delta + 1;
      }
      if c == n {
        d' := PutDigits(delta, bias, buf, d0, d', full');
        full' := full' + P.Digits(delta, bias, 36);
        h := h + 1;
        bias := AdaptBias(delta, h, first);
        first, delta := false, 0;
      }
      i := i + 1;
      c, p := Next(mem, s, se, p, cps, i);
    }
    ok := true;
    P.KeptEnds(cps, n);
    ScanEnd(cps, n, h, bias, delta, first);
  }

  lemma ScanEnd(cps: seq<nat>, n: nat, h: nat, bias: nat, delta: nat, first: bool)
    requires n in cps && forall c :: c in cps ==> c < P.MAX32
    ensures P.Scan(cps, n, |cps|, h, bias, delta, first) == P.EncodeFrom(cps, n + 1, h, bias, delta + 1, first)
  {
    hide P.EncodeFrom, P.Below, P.Adapt, P.Digits;
  }

  lemma KeptSize(cps: seq<nat>, n: nat, j: nat, here: bool)
    requires j < |cps| && here == (cps[j] == n)
    ensures |P.Kept(cps, n, j)| + (if here then 1 else 0) <= |cps|
    ensures |P.Kept(cps, n, j + 1)| == |P.Kept(cps, n, j)| + if here then 1 else 0
  {
    hide P.Below;
    P.KeptStep(cps, n, j);
  }

  /** The whole function for a label whose text is well-formed UTF-8. */
  method ToAsciiLabel(mem: seq<byte>, s: nat, se: nat, buf: array<byte>, d0: nat, ghost cps: seq<nat>)
    returns (r: Status, d: nat)
    requires Text(mem, s, se, cps) && d0 <= buf.Length
    modifies buf
    ensures buf[..d0] == old(buf[..d0])
    ensures |P.Below(cps, 128)| == |cps| ==> r == Ok(|cps|) && Written(buf, d0, d, P.AsciiBytes(cps)) && P.AsciiBytes(cps) == cps
    ensures |P.Below(cps, 128)| < |cps| ==>
      match P.EncodeLabel(cps)
      case None => r == E2big
      case Some(code) => r == Ok(0) && Written(buf, d0, d, ACE + code) && P.DecodeLabel(code) == Some(cps)
  {
    hide Encode, EncodeAll, Scalar, Follow, Text, Offset;
    hide P.EncodeFrom, P.EncodeLabel, P.DecodeLabel, P.AsciiBytes, P.Below, P.Scan, P.Next;
    TextBounds(mem, s, se, cps);
    d := d0;
    var h: u32, todo: u32, invalid := Count(mem, s, se, cps);
    if invalid {
      return Einval, d;
    }
    ghost var full: seq<byte> := [];
    if todo > 0 {
      d := Put(buf, d0, d, 120, []);
      d := Put(buf, d0, d, 110, [120]);
      d := Put(buf, d0, d, 45, [120, 110]);
      d := Put(buf, d0, d, 45, [120, 110, 45]);
      full := ACE;
    }
    d := CopyBasic(mem, s, se, h, buf, d0, d, cps, full);
    if todo == 0 {
      AllAscii(cps);
      assert [] + P.AsciiBytes(cps) == P.AsciiBytes(cps);
      return Ok(h), d;
    }
    full := full + P.AsciiBytes(cps);
    // The separator is only written when there are ASCII characters before it.
    if h > 0 {
      d := Put(buf, d0, d, P.HYPHEN, full);
      full := full + [P.HYPHEN];
    }
    EncodeStart(cps, full);
    r, d := Deltas(mem, s, se, h, todo, buf, d0, d, cps, full);
    if P.EncodeLabel(cps).Some? {
      P.RoundTrip(cps);
    }
  }

  lemma EncodeStart(cps: seq<nat>, full: seq<byte>)
    requires forall c :: c in cps ==> c < P.MAX32
    requires full == ACE + P.AsciiBytes(cps) + if P.AsciiBytes(cps) == [] then [] else [P.HYPHEN]
    ensures P.Prepend(full, P.EncodeFrom(cps, 128, |P.AsciiBytes(cps)|, 72, 0, true)) == P.Prepend(ACE, P.EncodeLabel(cps))
  {
    hide P.EncodeFrom, P.AsciiBytes;
    var basic := P.AsciiBytes(cps);
    var sep: seq<byte> := if basic == [] then [] else [P.HYPHEN];
    P.Associative(ACE, basic, sep);
    P.PrependTwice(ACE, basic + sep, P.EncodeFrom(cps, 128, |basic|, 72, 0, true));
  }

  /** The outer loop: one pass for each distinct non-ASCII code point, in increasing order. */
  method Deltas(mem: seq<byte>, s: nat, se: nat, h0: u32, todo0: u32, buf: array<byte>, ghost d0: nat, d1: nat,
                ghost cps: seq<nat>, ghost full0: seq<byte>) returns (r: Status, d: nat)
    requires Text(mem, s, se, cps) && forall c :: c in cps ==> c < P.MAX32
    requires h0 == |P.Below(cps, 128)| && todo0 == |cps| - h0
    requires Written(buf, d0, d1, full0)
    modifies buf
    ensures buf[..d0] == old(buf[..d0])
    ensures match P.Prepend(full0, P.EncodeFrom(cps, 128, h0, 72, 0, true))
            case None => r == E2big
            case Some(all) => r == Ok(0) && Written(buf, d0, d, all)
  {
    hide Encode, EncodeAll, Scalar, Follow, Text, Offset;
    hide P.EncodeFrom, P.Below, P.Scan, P.Next;
    TextBounds(mem, s, se, cps);
    var h: u32, todo: u32 := h0, todo0;
    ghost var full := full0;
    d := d1;
    var n: u32, bias: u32, delta: u32, first := 128, 72, 0, true;
    while todo > 0
      invariant h == |P.Below(cps, n)| && todo == |cps| - h
      invariant P.Prepend(full, P.EncodeFrom(cps, n, h, bias, delta, first))
             == P.Prepend(full0, P.EncodeFrom(cps, 128, h0, 72, 0, true))
      invariant Written(buf, d0, d, full) && buf[..d0] == old(buf[..d0])
      decreases todo
    {
      P.NextIsNext(cps, n);
      FromStep(cps, n, h, bias, delta, first);
      var m: u32 := Minimum(mem, s, se, n, cps);
      var x: u32 := m - n;
      var y: u32 := h + 1;
      var fits;
      fits, delta := Increase(delta, x, y);
      if !fits {
        return E2big, d;
      }
      n := m;
      P.BelowGrows(cps, n);
      var ok, h': u32, bias': u32, delta': u32, first', d': nat, more := Scan(mem, s, se, n, h, bias, delta, first, buf, d0, d, cps, full);
      if !ok {
        return E2big, d';
      }
      todo := todo - (h' - h);
      h, bias, delta, first, d, full := h', bias', delta' + 1, first', d', more;
      n := n + 1;
    }
    r := Ok(0);
    FromEnd(cps, n, h, bias, delta, first, full);
  }

  /** Lines 177-180: delta + x * y, if it fits 32 bits. */
  method Increase(delta: u32, x: u32, y: u32) returns (fits: bool, sum: u32)
    requires y > 0
    ensures fits <==> delta + x * y <= P.MAX32
    ensures fits ==> sum == delta + x * y
  {
    DeltaCheck(delta, x, y);
    if x > (0xFFFF_FFFF - delta) / y {
      return false, delta;
    }
    return true, delta + x * y;
  }

  lemma FromStep(cps: seq<nat>, n: nat, h: nat, bias: nat, delta: nat, first: bool)
    requires forall c :: c in cps ==> c < P.MAX32
    requires |P.Below(cps, n)| != |cps|
    requires P.Next(cps, n) in cps && n <= P.Next(cps, n)
    ensures var m := P.Next(cps, n);
            var delta' := delta + (m - n) * (h + 1);
            P.EncodeFrom(cps, n, h, bias, delta, first)
            == if delta' > P.MAX32 then None else P.Scan(cps, m, 0, h, bias, delta', first)
  {
    hide P.Below, P.Next, P.Scan;
  }

  lemma FromEnd(cps: seq<nat>, n: nat, h: nat, bias: nat, delta: nat, first: bool, full: seq<byte>)
    requires forall c :: c in cps ==> c < P.MAX32
    requires |P.Below(cps, n)| == |cps|
    ensures P.Prepend(full, P.EncodeFrom(cps, n, h, bias, delta, first)) == Some(full)
  {
    hide P.Below;
    assert full + [] == full;
  }

  /** The division test of line 177 is the exact test for delta + x * y exceeding 32 bits. */
  lemma DeltaCheck(delta: u32, x: nat, y: nat)
    requires y > 0
    ensures x > (P.MAX32 - delta) / y <==> delta + x * y > P.MAX32
  {
    var room := P.MAX32 - delta;
    Arith.DivMod(room, y);
    var q := room / y;
    if x > q {
      Arith.MulMono(q + 1, x, y);
      Arith.Distribute(q, 1, y);
    } else {
      Arith.MulMono(x, q, y);
    }
  }

  lemma {:induction false} AllAscii(cps: seq<nat>)
    requires |P.Below(cps, 128)| == |cps|
    ensures P.AsciiBytes(cps) == cps
  {
    P.BelowAll(cps, 128);
  }
}
