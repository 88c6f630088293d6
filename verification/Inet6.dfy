/**
 * The text of IPv6 addresses (RFC 4291 section 2.2) as inet_ntop6 of libuv/src/inet.c prints it and
 * as inet_pton6 reads it.
 */
module Inet6 {
  import opened Bytes
  import opened Wrappers
  import opened Inet4

  type word = w: int | 0 <= w < 65536

  /** %x */
  function Hex(w: word): (s: string)
    ensures 1 <= |s| <= 4
  {
    if w < 16 then [DigitChar(w)]
    else if w < 256 then [DigitChar(w / 16), DigitChar(w % 16)]
    else if w < 4096 then [DigitChar(w / 256), DigitChar(w / 16 % 16), DigitChar(w % 16)]
    else [DigitChar(w / 4096), DigitChar(w / 256 % 16), DigitChar(w / 16 % 16), DigitChar(w % 16)]
  }

  /** The value of a digit in xdigits_l or xdigits_u. */
  function HexValue(c: char): Option<nat> {
    if '0' <= c <= '9' then Some(c as int - '0' as int)
    else if 'a' <= c <= 'f' then Some(c as int - 'a' as int + 10)
    else if 'A' <= c <= 'F' then Some(c as int - 'A' as int + 10)
    else None
  }

  function Flat(ws: seq<word>): (a: seq<byte>)
    ensures |a| == 2 * |ws|
  {
    seq(2 * |ws|, i requires 0 <= i < 2 * |ws| => if i % 2 == 0 then ws[i / 2] / 256 else ws[i / 2] % 256)
  }

  function Word(hi: byte, lo: byte): (w: word)
    ensures w / 256 == hi && w % 256 == lo
  {
    hi as int * 256 + lo as int
  }

  function Words(a: seq<byte>): (ws: seq<word>)
    requires |a| == 16
    ensures |ws| == 8
  {
    seq(8, i requires 0 <= i < 8 => Word(a[2 * i], a[2 * i + 1]))
  }

  lemma FlatWords(a: seq<byte>)
    requires |a| == 16
    ensures Flat(Words(a)) == a
  {
    hide Word;
    var ws := Words(a);
    forall i | 0 <= i < 16 ensures Flat(ws)[i] == a[i] {
      assert i == 2 * (i / 2) + i % 2;
      assert ws[i / 2] == Word(a[2 * (i / 2)], a[2 * (i / 2) + 1]);
    }
  }

  /** Words with a colon behind each. */
  function Groups(ws: seq<word>): string {
    if ws == [] then [] else Hex(ws[0]) + ([':'] + Groups(ws[1..]))
  }

  /** Words with colons between them. */
  function Joined(ws: seq<word>): string {
    if ws == [] then [] else Groups(ws[..|ws| - 1]) + Hex(ws[|ws| - 1])
  }

  predicate ZeroRun(ws: seq<word>, base: nat, len: nat) {
    base + len <= |ws| && forall i :: base <= i < base + len ==> ws[i] == 0
  }

  /** The first longest run of at least two zero words, or -1 if there is none. */
  ghost predicate IsBest(ws: seq<word>, base: int, len: nat) {
    if base < 0 then base == -1 && forall b: nat, l: nat :: l >= 2 ==> !ZeroRun(ws, b, l)
    else len >= 2 && ZeroRun(ws, base, len) && forall b: nat, l: nat :: ZeroRun(ws, b, l) ==> l < len || (l == len && base <= b)
  }

  /** Whether the last four bytes are printed as an IPv4 address. */
  predicate Embedded(ws: seq<word>, base: int, len: nat)
    requires |ws| == 8
  {
    base == 0 && (len == 6 || (len == 5 && ws[5] == 0xffff))
  }

  /** The text of an address, with the run from base on, if any, written as "::". */
  function Text6(a: seq<byte>, base: int, len: nat): string
    requires |a| == 16 && (base >= 0 ==> base + len <= 8)
  {
    var ws := Words(a);
    if base < 0 then Joined(ws)
    else if Embedded(ws, base, len) then "::" + (Groups(ws[len..6]) + Text4(a[12..]))
    else Joined(ws[..base]) + ("::" + Joined(ws[base + len..]))
  }

  // ---------- The parser ----------

  function Zeros(n: nat): seq<byte> {
    seq(n, i => 0)
  }

  /** Lines 289-308: the bytes behind "::" are moved to the end. */
  function Close6(all: seq<byte>, colon: Option<nat>): Option<seq<byte>>
    requires (colon.Some? ==> colon.value <= |all|) && |all| <= 16
  {
    match colon
    case Some(c) => if |all| == 16 then None else Some(all[..c] + Zeros(16 - |all|) + all[c..])
    case None => if |all| != 16 then None else Some(all)
  }

  /** From line 283 on: a last word, and the closing. */
  function Finish6(out: seq<byte>, colon: Option<nat>, val: nat, seen: nat): Option<seq<byte>>
    requires (colon.Some? ==> colon.value <= |out|) && |out| <= 16 && (seen > 0 ==> val < 65536)
  {
    if seen == 0 then Close6(out, colon)
    else if |out| + 2 > 16 then None
    else Close6(out + [val / 256, val % 256], colon)
  }

  /** The number of values of `seen` hexadecimal digits. */
  function Limit(seen: nat): nat {
    if seen == 0 then 1 else if seen == 1 then 16 else if seen == 2 then 256 else if seen == 3 then 4096 else 65536
  }

  /** The loop of lines 243-282; `cur` is curtok, and `out` is tmp up to tp. */
  function Scan6(s: string, cur: string, out: seq<byte>, colon: Option<nat>, val: nat, seen: nat): Option<seq<byte>>
    requires (colon.Some? ==> colon.value <= |out|) && |out| <= 16 && seen <= 4 && val < Limit(seen)
    decreases |s|
  {
    if s == [] then Finish6(out, colon, val, seen)
    else match HexValue(s[0])
      case Some(d) => if seen + 1 > 4 then None else Scan6(s[1..], cur, out, colon, val * 16 + d, seen + 1)
      case None =>
        if s[0] == ':' then
          if seen == 0 then (if colon.Some? then None else Scan6(s[1..], s[1..], out, Some(|out|), 0, 0))
          else if s[1..] == [] || |out| + 2 > 16 then None
          else Scan6(s[1..], s[1..], out + [val / 256, val % 256], colon, 0, 0)
        else if s[0] == '.' && |out| + 4 <= 16 then
          match Parse4(cur)
          case Some(q) => Verdict(cur); Finish6(out + q, colon, 0, 0)
          case None => None
        else None
  }

  /** inet_pton6: a leading colon must be the first of two, and is skipped. */
  function Parse6(s: string): Option<seq<byte>> {
    if s != [] && s[0] == ':' then
      if |s| > 1 && s[1] == ':' then Scan6(s[1..], s[1..], [], None, 0, 0) else None
    else Scan6(s, s, [], None, 0, 0)
  }

  // ---------- The parser reads what the printer wrote ----------

  lemma ScanDigit(d: nat, rest: string, cur: string, out: seq<byte>, colon: Option<nat>, val: nat, seen: nat)
    requires (colon.Some? ==> colon.value <= |out|) && |out| <= 16 && seen < 4 && val < Limit(seen) && d < 16
    ensures Scan6([DigitChar(d)] + rest, cur, out, colon, val, seen) == Scan6(rest, cur, out, colon, val * 16 + d, seen + 1)
  {
    assert ([DigitChar(d)] + rest)[1..] == rest;
    assert HexValue(DigitChar(d)) == Some(d);
  }

  lemma HexOne(w: word)
    requires w < 16
    ensures Hex(w) == [DigitChar(w)]
  {
    hide DigitChar;
  }

  lemma HexSnoc(w: word)
    requires w >= 16
    ensures Hex(w) == Hex(w / 16) + [DigitChar(w % 16)]
  {
    hide DigitChar;
  }

  lemma HexLimit(w: word)
    ensures w < Limit(|Hex(w)|) && (w < 4096 ==> |Hex(w)| < 4)
  {
    hide DigitChar;
  }

  lemma {:induction false} ScanHex(w: word, rest: string, cur: string, out: seq<byte>, colon: Option<nat>)
    requires (colon.Some? ==> colon.value <= |out|) && |out| <= 16
    ensures w < Limit(|Hex(w)|)
    ensures Scan6(Hex(w) + rest, cur, out, colon, 0, 0) == Scan6(rest, cur, out, colon, w, |Hex(w)|)
    decreases w
  {
    hide Scan6, DigitChar, Limit, Hex;
    HexLimit(w);
    if w < 16 {
      HexOne(w);
      LimitOfNone();
      ScanDigit(w, rest, cur, out, colon, 0, 0);
    } else {
      var r := [DigitChar(w % 16)] + rest;
      HexSnoc(w);
      HexLimit(w / 16);
      assert Hex(w) + rest == Hex(w / 16) + r;
      ScanHex(w / 16, r, cur, out, colon);
      ScanDigit(w % 16, rest, cur, out, colon, w / 16, |Hex(w / 16)|);
    }
  }

  lemma ScanColon(rest: string, cur: string, out: seq<byte>, colon: Option<nat>, w: word, seen: nat)
    requires (colon.Some? ==> colon.value <= |out|) && |out| <= 14 && 0 < seen <= 4 && w < Limit(seen) && rest != []
    ensures Scan6([':'] + rest, cur, out, colon, w, seen) == Scan6(rest, rest, out + Flat([w]), colon, 0, 0)
  {
    assert ([':'] + rest)[1..] == rest;
    assert Flat([w]) == [w / 256, w % 256];
  }

  lemma GroupsCons(ws: seq<word>)
    ensures Groups(ws) == if ws == [] then [] else Hex(ws[0]) + ([':'] + Groups(ws[1..]))
  {
    hide Hex;
  }

  lemma FourParts(a: string, b: string, c: string, d: string)
    ensures a + (b + c) + d == a + (b + (c + d))
  {
  }

  lemma {:induction false} ScanGroups(ws: seq<word>, rest: string, cur: string, out: seq<byte>, colon: Option<nat>)
    requires (colon.Some? ==> colon.value <= |out|) && |out| + 2 * |ws| <= 16 && rest != []
    ensures Scan6(Groups(ws) + rest, cur, out, colon, 0, 0)
            == Scan6(rest, if ws == [] then cur else rest, out + Flat(ws), colon, 0, 0)
    decreases |ws|
  {
    hide Scan6, Hex, Limit, Groups;
    GroupsCons(ws);
    if ws == [] {
      assert Groups(ws) + rest == rest && out + Flat(ws) == out;
    } else {
      var w, tail := ws[0], Groups(ws[1..]) + rest;
      assert Groups(ws) + rest == Hex(w) + ([':'] + tail) by {
        FourParts(Hex(w), [':'], Groups(ws[1..]), rest);
      }
      ScanHex(w, [':'] + tail, cur, out, colon);
      ScanColon(tail, cur, out, colon, w, |Hex(w)|);
      ScanGroups(ws[1..], rest, tail, out + Flat([w]), colon);
      FlatCons(ws);
      assert out + Flat([w]) + Flat(ws[1..]) == out + Flat(ws);
      GroupsCons([]);
      assert ws[1..] == [] ==> tail == rest;
    }
  }

  lemma FlatCons(ws: seq<word>)
    requires ws != []
    ensures Flat(ws) == Flat([ws[0]]) + Flat(ws[1..])
  {
    forall i | 2 <= i < |Flat(ws)| ensures Flat(ws)[i] == Flat(ws[1..])[i - 2] {
      assert (i - 2) / 2 == i / 2 - 1 && (i - 2) % 2 == i % 2;
    }
  }

  lemma ScanJoined(ws: seq<word>, cur: string, out: seq<byte>, colon: Option<nat>)
    requires (colon.Some? ==> colon.value <= |out|) && |out| + 2 * |ws| <= 16
    ensures Scan6(Joined(ws), cur, out, colon, 0, 0) == Close6(out + Flat(ws), colon)
  {
    hide Hex, Groups;
    if ws == [] {
      assert out + Flat(ws) == out;
    } else {
      var front, last := ws[..|ws| - 1], ws[|ws| - 1];
      ScanGroups(front, Hex(last), cur, out, colon);
      var cur' := if front == [] then cur else Hex(last);
      assert Hex(last) + [] == Hex(last);
      ScanHex(last, [], cur', out + Flat(front), colon);
      FlatSnoc(ws);
      assert Flat([last]) == [last / 256, last % 256];
      assert out + Flat(front) + Flat([last]) == out + Flat(ws);
    }
  }

  lemma FlatSnoc(ws: seq<word>)
    requires ws != []
    ensures Flat(ws) == Flat(ws[..|ws| - 1]) + Flat([ws[|ws| - 1]])
  {
    var n := |ws| - 1;
    forall i | 0 <= i < 2 * n ensures Flat(ws)[i] == Flat(ws[..n])[i] {
    }
    assert (2 * n) / 2 == n && (2 * n + 1) / 2 == n;
  }

  /** The decimal digits of a byte are read as hexadecimal ones, until the dot. */
  lemma ScanDecimal(b: byte, rest: string, cur: string, out: seq<byte>, colon: Option<nat>) returns (val: nat, seen: nat)
    requires (colon.Some? ==> colon.value <= |out|) && |out| <= 16
    ensures seen <= 4 && val < Limit(seen)
    ensures Scan6(Dec(b) + rest, cur, out, colon, 0, 0) == Scan6(rest, cur, out, colon, val, seen)
  {
    hide Scan6, DigitChar;
    if b < 10 {
      ScanDigit(b, rest, cur, out, colon, 0, 0);
      val, seen := b, 1;
    } else if b < 100 {
      var r1 := [DigitChar(b % 10)] + rest;
      assert Dec(b) + rest == [DigitChar(b / 10)] + r1;
      ScanDigit(b / 10, r1, cur, out, colon, 0, 0);
      ScanDigit(b % 10, rest, cur, out, colon, b / 10, 1);
      val, seen := b / 10 * 16 + b % 10, 2;
    } else {
      var r1 := [DigitChar(b % 10)] + rest;
      var r2 := [DigitChar(b / 10 % 10)] + r1;
      assert Dec(b) + rest == [DigitChar(b / 100)] + r2;
      ScanDigit(b / 100, r2, cur, out, colon, 0, 0);
      ScanDigit(b / 10 % 10, r1, cur, out, colon, b / 100, 1);
      ScanDigit(b % 10, rest, cur, out, colon, b / 100 * 16 + b / 10 % 10, 2);
      val, seen := (b / 100 * 16 + b / 10 % 10) * 16 + b % 10, 3;
    }
  }

  lemma ScanText4(q: seq<byte>, out: seq<byte>, colon: Option<nat>)
    requires |q| == 4 && (colon.Some? ==> colon.value <= |out|) && |out| + 4 <= 16
    ensures Scan6(Text4(q), Text4(q), out, colon, 0, 0) == Close6(out + q, colon)
  {
    hide Text4, Dec, Close6, Parse4;
    TextSplit(q, 0);
    var t, rest := Text4(q), ['.'] + Tail4(q, 1);
    assert q[..0] == [] && Dotted([]) + Tail4(q, 0) == Tail4(q, 0);
    assert t == Dec(q[0]) + rest;
    var val, seen := ScanDecimal(q[0], rest, t, out, colon);
    Inverse4(t, q);
    assert rest[0] == '.' && HexValue('.') == None;
  }

  lemma ScanDouble(x: string, cur: string, out: seq<byte>)
    requires |out| <= 16
    ensures Scan6([':'] + x, cur, out, None, 0, 0) == Scan6(x, x, out, Some(|out|), 0, 0)
  {
    assert ([':'] + x)[1..] == x;
  }

  lemma FlatSlice(ws: seq<word>, i: nat, j: nat)
    requires i <= j <= |ws|
    ensures Flat(ws[i..j]) == Flat(ws)[2 * i..2 * j]
  {
    forall k | 0 <= k < 2 * (j - i) ensures Flat(ws[i..j])[k] == Flat(ws)[2 * i + k] {
      assert (2 * i + k) / 2 == i + k / 2 && (2 * i + k) % 2 == k % 2;
    }
  }

  lemma FlatZeros(ws: seq<word>, i: nat, j: nat)
    requires i <= j <= |ws| && forall k :: i <= k < j ==> ws[k] == 0
    ensures Flat(ws[i..j]) == Zeros(2 * (j - i))
  {
  }

  /** With "::" for the words from base on, when they are zero, the address comes back. */
  lemma CloseRun(ws: seq<word>, base: nat, len: nat)
    requires |ws| == 8 && len > 0 && ZeroRun(ws, base, len)
    ensures Close6(Flat(ws[..base]) + Flat(ws[base + len..]), Some(2 * base)) == Some(Flat(ws))
  {
    hide Flat, Zeros, Close6;
    var a := Flat(ws);
    FlatSlice(ws, 0, base);
    FlatSlice(ws, base, base + len);
    FlatSlice(ws, base + len, 8);
    FlatZeros(ws, base, base + len);
    assert ws[0..base] == ws[..base] && ws[base + len..8] == ws[base + len..];
    CloseGap(a, 2 * base, 2 * (base + len));
    assert a[0..2 * base] == a[..2 * base] && a[2 * (base + len)..2 * 8] == a[2 * (base + len)..];
  }

  lemma CloseGap(a: seq<byte>, i: nat, j: nat)
    requires |a| == 16 && i < j <= 16 && a[i..j] == Zeros(j - i)
    ensures Close6(a[..i] + a[j..], Some(i)) == Some(a)
  {
    var all := a[..i] + a[j..];
    assert a == a[..i] + a[i..j] + a[j..];
    assert all[..i] == a[..i] && all[i..] == a[j..];
  }

  lemma StartsWithDigit(ws: seq<word>, rest: string)
    requires ws != []
    ensures var s := Groups(ws) + rest; s != [] && s[0] != ':'
    ensures var s := Joined(ws) + rest; s != [] && s[0] != ':'
  {
    HexIsNoColon(ws[0]);
    HexIsNoColon(ws[|ws| - 1]);
  }

  lemma HexIsNoColon(w: word)
    ensures Hex(w)[0] != ':'
  {
  }

  lemma JoinedColon(ws: seq<word>)
    requires ws != []
    ensures Joined(ws) + [':'] == Groups(ws)
    decreases |ws|
  {
    hide Hex;
    GroupsSnoc(ws);
  }

  lemma {:induction false} GroupsSnoc(ws: seq<word>)
    requires ws != []
    ensures Groups(ws) == Groups(ws[..|ws| - 1]) + (Hex(ws[|ws| - 1]) + [':'])
    decreases |ws|
  {
    hide Hex;
    if |ws| > 1 {
      var tail := ws[1..];
      GroupsSnoc(tail);
      assert tail[..|tail| - 1] == ws[..|ws| - 1][1..] && tail[|tail| - 1] == ws[|ws| - 1];
      Regroup3(Hex(ws[0]), Groups(tail[..|tail| - 1]), Hex(ws[|ws| - 1]) + [':']);
    } else {
      assert Groups(ws[1..]) == [] && Groups(ws[..0]) == [];
      assert [':'] + [] == [':'] && [] + (Hex(ws[0]) + [':']) == Hex(ws[0]) + [':'];
    }
  }

  lemma Regroup3(a: string, b: string, c: string)
    ensures a + ([':'] + (b + c)) == a + ([':'] + b) + c
  {
  }

  /** Text with "::" in it, after the words `pre`. */
  lemma ParseDouble(pre: seq<word>, x: string)
    requires |pre| <= 7
    ensures Parse6(Joined(pre) + ("::" + x)) == Scan6(x, x, Flat(pre), Some(2 * |pre|), 0, 0)
  {
    hide Scan6, Joined, Groups;
    var y := [':'] + x;
    ScanDouble(x, y, Flat(pre));
    if pre == [] {
      NothingJoined();
      assert Joined(pre) + ("::" + x) == [':'] + y;
      assert ([':'] + y)[1..] == y && y[0] == ':';
    } else {
      JoinedColon(pre);
      var s := Groups(pre) + y;
      assert Joined(pre) + ("::" + x) == (Joined(pre) + [':']) + y == s;
      StartsWithDigit(pre, y);
      ScanGroups(pre, y, s, [], None);
      assert [] + Flat(pre) == Flat(pre);
    }
  }

  lemma ParseEmbedded(a: seq<byte>, len: nat)
    requires |a| == 16 && len <= 6 && len > 0 && ZeroRun(Words(a), 0, len) && Embedded(Words(a), 0, len)
    ensures Parse6(Text6(a, 0, len)) == Some(a)
  {
    hide Scan6, Text4, Groups, Words, Close6;
    var ws := Words(a);
    FlatWords(a);
    var mid, t := ws[len..6], Text4(a[12..]);
    Length4(a[12..]);
    var x := Groups(mid) + t;
    assert [] + ("::" + x) == "::" + x;
    ParseDouble([], x);
    ScanGroups(mid, t, x, [], Some(0));
    NoGroups(t);
    assert [] + Flat(mid) == Flat(mid);
    ScanText4(a[12..], Flat(mid), Some(0));
    FlatSlice(ws, len, 6);
    FlatSlice(ws, len, 8);
    assert ws[len..8] == ws[len..];
    assert Flat(mid) + a[12..] == Flat(ws[len..]);
    CloseRun(ws, 0, len);
    assert ws[..0] == [] && Flat([]) + Flat(ws[len..]) == Flat(ws[len..]);
  }

  lemma NoGroups(t: string)
    ensures Groups([]) + t == t
  {
  }

  /** inet_pton6 of what inet_ntop6 prints is the address, whichever run of zero words is written as "::". */
  lemma RoundTrip(a: seq<byte>, base: int, len: nat)
    requires |a| == 16 && (base >= 0 ==> len > 0 && ZeroRun(Words(a), base, len))
    ensures Parse6(Text6(a, base, len)) == Some(a)
  {
    hide Scan6, Hex, Groups, Joined, Words;
    var ws := Words(a);
    FlatWords(a);
    if base < 0 {
      ScanJoined(ws, Joined(ws), [], None);
      StartsWithDigit(ws, []);
      assert Joined(ws) + [] == Joined(ws) && [] + Flat(ws) == Flat(ws);
    } else if Embedded(ws, base, len) {
      ParseEmbedded(a, len);
    } else {
      var x := Joined(ws[base + len..]);
      ParseDouble(ws[..base], x);
      ScanJoined(ws[base + len..], x, Flat(ws[..base]), Some(2 * base));
      CloseRun(ws, base, len);
    }
  }

  lemma {:induction false} GroupsLength(ws: seq<word>)
    ensures |Groups(ws)| <= 5 * |ws|
  {
    hide Hex;
    if ws != [] {
      GroupsLength(ws[1..]);
    }
  }

  lemma JoinedLength(ws: seq<word>)
    ensures ws != [] ==> |Joined(ws)| <= 5 * |ws| - 1
    ensures ws == [] ==> |Joined(ws)| == 0
  {
    hide Hex;
    if ws != [] {
      GroupsLength(ws[..|ws| - 1]);
    }
  }

  /** The text and its NUL fit in the buffer of 46 bytes, with room to spare. */
  lemma TextFits(a: seq<byte>, base: int, len: nat)
    requires |a| == 16 && (base >= 0 ==> base + len <= 8)
    ensures |Text6(a, base, len)| <= if base < 0 || len >= 2 then 39 else 41
  {
    hide Joined, Groups, Text4, Words;
    var ws := Words(a);
    if base < 0 {
      JoinedLength(ws);
    } else if Embedded(ws, base, len) {
      Length4(a[12..]);
      GroupsLength(ws[len..6]);
    } else {
      JoinedLength(ws[..base]);
      JoinedLength(ws[base + len..]);
    }
  }

  /** There is only one best run. */
  lemma BestIsUnique(ws: seq<word>, base: int, len: nat, base': int, len': nat)
    requires IsBest(ws, base, len) && IsBest(ws, base', len')
    ensures base == base' && (base >= 0 ==> len == len')
  {
    if base >= 0 && base' >= 0 {
      assert ZeroRun(ws, base', len') && ZeroRun(ws, base, len);
    }
  }

  // ---------- What the text looks like ----------

  /** %x gives lower-case digits and no leading zeros. */
  lemma HexIsShort(w: word)
    ensures forall c | c in Hex(w) :: '0' <= c <= '9' || 'a' <= c <= 'f'
    ensures Hex(w)[0] == '0' ==> w == 0 && Hex(w) == "0"
  {
  }

  lemma {:induction false} GroupChars(ws: seq<word>, c: char)
    requires c in Groups(ws)
    ensures c == ':' || '0' <= c <= '9' || 'a' <= c <= 'f'
  {
    hide Hex;
    HexIsShort(ws[0]);
    if c !in Hex(ws[0]) && c != ':' {
      GroupChars(ws[1..], c);
    }
  }

  lemma JoinedChars(ws: seq<word>, c: char)
    requires c in Joined(ws)
    ensures c == ':' || '0' <= c <= '9' || 'a' <= c <= 'f'
  {
    hide Hex, Groups;
    HexIsShort(ws[|ws| - 1]);
    if c in Groups(ws[..|ws| - 1]) {
      GroupChars(ws[..|ws| - 1], c);
    }
  }

  lemma NoDots(ws: seq<word>)
    ensures '.' !in Joined(ws)
  {
    hide Joined;
    if '.' in Joined(ws) {
      JoinedChars(ws, '.');
    }
  }

  lemma DotInText4(q: seq<byte>)
    requires |q| == 4
    ensures '.' in Text4(q)
  {
    hide Dec;
    assert Dotted(q[..3])[|Dotted(q[..3])| - 1] == '.';
  }

  /** The first ten bytes are zero, and the next two are these. */
  predicate Begins(src: seq<byte>, b: byte) {
    |src| == 16 && (forall i :: 0 <= i < 10 ==> src[i] == 0) && src[10] == src[11] == b
  }

  lemma BytesOfWord(src: seq<byte>, i: nat)
    requires |src| == 16 && i < 8
    ensures Words(src)[i] == 0 <==> src[2 * i] == 0 && src[2 * i + 1] == 0
    ensures Words(src)[i] == 0xffff <==> src[2 * i] == 255 && src[2 * i + 1] == 255
  {
  }

  lemma LeadingWords(src: seq<byte>, n: nat)
    requires |src| == 16 && n <= 8 && forall i :: 0 <= i < 2 * n ==> src[i] == 0
    ensures ZeroRun(Words(src), 0, n)
  {
    hide Words;
    forall i | 0 <= i < n ensures Words(src)[i] == 0 {
      BytesOfWord(src, i);
    }
  }

  /** Zero words up to one that is not zero, and less than as many behind it. */
  lemma BestStarts(ws: seq<word>, n: nat, base: int, len: nat)
    requires |ws| == 8 && 4 <= n < 8 && ZeroRun(ws, 0, n) && ws[n] != 0 && IsBest(ws, base, len)
    ensures base == 0 && len == n
  {
    forall b: nat, l: nat | ZeroRun(ws, b, l) ensures l < n || (l == n && 0 <= b) {
      assert b > n || b + l <= n;
    }
    assert IsBest(ws, 0, n);
    BestIsUnique(ws, base, len, 0, n);
  }

  /** The best run, in the two cases of an IPv4 tail. */
  lemma TailRun(src: seq<byte>, base: int, len: nat)
    requires |src| == 16 && IsBest(Words(src), base, len)
    ensures Begins(src, 255) ==> base == 0 && len == 5
    ensures Begins(src, 0) && src[12..14] != [0, 0] ==> base == 0 && len == 6
  {
    hide Words, IsBest, ZeroRun;
    BytesOfWord(src, 5);
    BytesOfWord(src, 6);
    if Begins(src, 255) {
      LeadingWords(src, 5);
      BestStarts(Words(src), 5, base, len);
    } else if Begins(src, 0) && src[12..14] != [0, 0] {
      assert src[12..14] == [src[12], src[13]];
      LeadingWords(src, 6);
      BestStarts(Words(src), 6, base, len);
    }
  }

  lemma LeadingZeros(src: seq<byte>, n: nat)
    requires |src| == 16 && n <= 8 && ZeroRun(Words(src), 0, n)
    ensures forall i :: 0 <= i < 2 * n ==> src[i] == 0
  {
    hide Words;
    forall i | 0 <= i < 2 * n ensures src[i] == 0 {
      assert Words(src)[i / 2] == 0;
      BytesOfWord(src, i / 2);
    }
  }

  lemma TailBytes(src: seq<byte>, base: int, len: nat)
    requires |src| == 16 && IsBest(Words(src), base, len) && base >= 0 && base + len <= 8 && Embedded(Words(src), base, len)
    ensures Begins(src, 255) || (Begins(src, 0) && src[12..14] != [0, 0])
  {
    hide Words;
    var ws := Words(src);
    LeadingZeros(src, len);
    BytesOfWord(src, 5);
    BytesOfWord(src, 6);
    if len == 6 {
      assert src[12..14] == [src[12], src[13]];
      assert ws[6] == 0 ==> ZeroRun(ws, 0, 7);
    }
  }

  /**
   * The text has a dot exactly for the addresses that begin with ten zero bytes and two of 255, or with
   * twelve zero bytes before two that are not both zero; these end in the text of an IPv4 address.
   */
  lemma DotExactly(src: seq<byte>, base: int, len: nat)
    requires |src| == 16 && IsBest(Words(src), base, len) && (base >= 0 ==> base + len <= 8)
    ensures '.' in Text6(src, base, len) <==> Begins(src, 255) || (Begins(src, 0) && src[12..14] != [0, 0])
    ensures Begins(src, 255) ==> Text6(src, base, len) == "::ffff:" + Text4(src[12..])
    ensures Begins(src, 0) && src[12..14] != [0, 0] ==> Text6(src, base, len) == "::" + Text4(src[12..])
    ensures !Begins(src, 255) && !(Begins(src, 0) && src[12..14] != [0, 0]) ==>
              var ws := Words(src);
              Text6(src, base, len) == if base < 0 then Joined(ws) else Joined(ws[..base]) + "::" + Joined(ws[base + len..])
  {
    hide IsBest, Joined, Text4, Groups, Begins;
    var ws := Words(src);
    TailRun(src, base, len);
    if base >= 0 && Embedded(ws, base, len) {
      TailBytes(src, base, len);
      DotInText4(src[12..]);
      TailGroups(src, len);
      assert Text6(src, base, len) == "::" + (Groups(ws[len..6]) + Text4(src[12..]));
      var k :| 0 <= k < |Text4(src[12..])| && Text4(src[12..])[k] == '.';
      assert Text6(src, base, len)[2 + |Groups(ws[len..6])| + k] == '.';
      assert Begins(src, 255) ==> Text6(src, base, len) == "::ffff:" + Text4(src[12..]);
      assert "::" + ([] + Text4(src[12..])) == "::" + Text4(src[12..]);
    } else {
      NotEmbedded(src, base, len);
      if base < 0 {
        NoDots(ws);
      } else {
        NoDots(ws[..base]);
        NoDots(ws[base + len..]);
      }
    }
  }

  lemma NotEmbedded(src: seq<byte>, base: int, len: nat)
    requires |src| == 16 && !Embedded(Words(src), base, len)
    ensures Begins(src, 255) ==> !(base == 0 && len == 5)
    ensures Begins(src, 0) ==> !(base == 0 && len == 6)
  {
  }

  /** What stands between the colons and the IPv4 address. */
  lemma TailGroups(src: seq<byte>, len: nat)
    requires |src| == 16 && Embedded(Words(src), 0, len)
    ensures Groups(Words(src)[len..6]) == if len == 6 then [] else "ffff:"
  {
    var ws := Words(src);
    if len == 6 {
      assert ws[6..6] == [];
    } else {
      assert ws[5..6] == [0xffff] && ws[5..6][1..] == [];
      assert Hex(0xffff) == "ffff";
      assert Groups([]) == [];
    }
  }

  /** The runs of known addresses: of two longest ones the first is shortened, and one zero word is not. */
  lemma KnownRuns()
    ensures forall base, len :: IsBest([0x2001, 0xdb8, 0, 0, 1, 0, 0, 1], base, len) ==> base == 2 && len == 2
    ensures forall base, len :: IsBest([0x2001, 0xdb8, 0, 1, 1, 1, 1, 1], base, len) ==> base == -1
    ensures forall base, len :: IsBest([0, 0, 0, 0, 0, 0, 0, 1], base, len) ==> base == 0 && len == 7
  {
    var ws: seq<word> := [0x2001, 0xdb8, 0, 0, 1, 0, 0, 1];
    forall b: nat, l: nat | ZeroRun(ws, b, l) ensures l < 2 || (l == 2 && 2 <= b) {
      assert b + 2 < 8 ==> ws[b] != 0 || ws[b + 1] != 0 || ws[b + 2] != 0;
      assert b + 1 < 8 ==> ws[b] != 0 || ws[b + 1] != 0 || b in {2, 5};
    }
    assert ZeroRun(ws, 2, 2) && IsBest(ws, 2, 2);
    forall base, len | IsBest(ws, base, len) ensures base == 2 && len == 2 {
      BestIsUnique(ws, base, len, 2, 2);
    }
    var one: seq<word> := [0x2001, 0xdb8, 0, 1, 1, 1, 1, 1];
    forall b: nat, l: nat | l >= 2 ensures !ZeroRun(one, b, l) {
      assert b + l <= 8 ==> one[b] != 0 || one[b + 1] != 0;
    }
    var last: seq<word> := [0, 0, 0, 0, 0, 0, 0, 1];
    forall b: nat, l: nat | ZeroRun(last, b, l) ensures l < 7 || (l == 7 && 0 <= b) {
      assert last[7] == 1;
    }
    assert ZeroRun(last, 0, 7) && IsBest(last, 0, 7);
    forall base, len | IsBest(last, base, len) ensures base == 0 && len == 7 {
      BestIsUnique(last, base, len, 0, 7);
    }
  }

  lemma KnownText()
    ensures Joined([0x2001, 0xdb8]) + "::" + Joined([1, 0, 0, 1]) == "2001:db8::1:0:0:1"
  {
    assert [0x2001, 0xdb8][..1] == [0x2001];
    KnownGroups();
  }

  lemma KnownGroups()
    ensures Joined([1, 0, 0, 1]) == "1:0:0:1" && Hex(0xdb8) == "db8" && Groups([0x2001]) == "2001:"
  {
    assert [1, 0, 0, 1][..3] == [1, 0, 0] && [1, 0, 0][1..] == [0, 0] && [0, 0][1..] == [0] && [0][1..] == [];
    assert [0x2001][1..] == [];
  }

  // ---------- inet_ntop6 ----------

  /** Lines 86-88: two bytes to a word. */
  method Pack(src: seq<byte>) returns (words: array<word>)
    requires |src| == 16
    ensures fresh(words) && words.Length == 8 && words[..] == Words(src)
  {
    hide Part;
    words := new word[8](i => 0);
    NonePacked(src);
    for i := 0 to 16
      invariant words[..] == seq(8, k requires 0 <= k < 8 => Part(src, k, i))
    {
      PartNext(src, i);
      words[i / 2] := words[i / 2] + if i % 2 == 0 then src[i] as int * 256 else src[i] as int;
    }
    AllPacked(src);
  }

  /** Word k when the first i bytes have been put in. */
  function Part(src: seq<byte>, k: nat, i: nat): word
    requires |src| == 16 && k < 8
  {
    (if 2 * k < i then src[2 * k] as int * 256 else 0) + if 2 * k + 1 < i then src[2 * k + 1] as int else 0
  }

  lemma PartNext(src: seq<byte>, i: nat)
    requires |src| == 16 && i < 16
    ensures forall k :: 0 <= k < 8 && k != i / 2 ==> Part(src, k, i + 1) == Part(src, k, i)
    ensures Part(src, i / 2, i + 1) == Part(src, i / 2, i) + if i % 2 == 0 then src[i] as int * 256 else src[i] as int
  {
    assert i == 2 * (i / 2) + i % 2;
  }

  lemma NonePacked(src: seq<byte>)
    requires |src| == 16
    ensures forall k :: 0 <= k < 8 ==> Part(src, k, 0) == 0
  {
  }

  lemma AllPacked(src: seq<byte>)
    requires |src| == 16
    ensures seq(8, k requires 0 <= k < 8 => Part(src, k, 16)) == Words(src)
  {
  }

  /** The run is the first longest among those that end by `end`; base is -1 if there are none. */
  ghost predicate Leads(ws: seq<word>, end: nat, base: int, len: nat)
    requires end <= |ws|
  {
    && (if base < 0 then base == -1 else 0 < len && base + len <= end && ZeroRun(ws, base, len))
    && (forall b: nat, l: nat :: ZeroRun(ws, b, l) && 0 < l && b + l <= end ==> base >= 0 && (l < len || (l == len && base <= b)))
  }

  /** A run ended at i: the better one of it and the best so far. */
  lemma Better(ws: seq<word>, base: int, len: nat, cur: nat, i: nat)
    requires cur < i <= |ws| && ZeroRun(ws, cur, i - cur) && (cur > 0 ==> ws[cur - 1] != 0) && Leads(ws, cur, base, len)
    ensures if base == -1 || i - cur > len then Leads(ws, i, cur, i - cur) else Leads(ws, i, base, len)
  {
    forall b: nat, l: nat | ZeroRun(ws, b, l) && 0 < l && b + l <= i
      ensures b + l <= cur || (b >= cur && l <= i - cur) {
    }
  }

  /** Lines 89-112: the first longest run of two or more zero words. */
  method FirstLongest(words: array<word>) returns (base: int, len: nat)
    requires words.Length == 8
    ensures IsBest(words[..], base, len)
  {
    ghost var ws := words[..];
    var curBase, curLen := -1, 0;
    base, len := -1, 0;
    for i := 0 to 8
      invariant words[..] == ws
      invariant if curBase < 0 then curBase == -1 && Leads(ws, i, base, len) && (i > 0 ==> ws[i - 1] != 0)
                else curBase < i && curLen == i - curBase && ZeroRun(ws, curBase, curLen) && Leads(ws, curBase, base, len)
                     && (curBase > 0 ==> ws[curBase - 1] != 0)
    {
      if words[i] == 0 {
        if curBase == -1 {
          curBase, curLen := i, 1;
        } else {
          curLen := curLen + 1;
        }
      } else {
        if curBase != -1 {
          Better(ws, base, len, curBase, i);
          if base == -1 || curLen > len {
            base, len := curBase, curLen;
          }
          curBase := -1;
        }
        PastNonZero(ws, i, base, len);
      }
    }
    if curBase != -1 {
      Better(ws, base, len, curBase, 8);
      if base == -1 || curLen > len {
        base, len := curBase, curLen;
      }
    }
    if base != -1 && len < 2 {
      base := -1;
    }
  }

  lemma PastNonZero(ws: seq<word>, i: nat, base: int, len: nat)
    requires i < |ws| && ws[i] != 0 && Leads(ws, i, base, len)
    ensures Leads(ws, i + 1, base, len)
  {
    forall b: nat, l: nat | ZeroRun(ws, b, l) && 0 < l && b + l <= i + 1
      ensures b + l <= i {
    }
  }

  /** Words with a colon before each. */
  function Lead(ws: seq<word>): string {
    if ws == [] then [] else Lead(ws[..|ws| - 1]) + [':'] + Hex(ws[|ws| - 1])
  }

  lemma {:induction false} LeadColon(ws: seq<word>)
    ensures Lead(ws) + [':'] == [':'] + Groups(ws)
    ensures ws != [] ==> Lead(ws) == [':'] + Joined(ws)
    decreases |ws|
  {
    hide Hex, Groups;
    if ws == [] {
      NoGroups([]);
      assert Groups([]) + [] == Groups([]);
    } else {
      var front, last := ws[..|ws| - 1], ws[|ws| - 1];
      LeadColon(front);
      GroupsSnoc(ws);
      assert [':'] + Groups(front) + Hex(last) == [':'] + (Groups(front) + Hex(last));
      assert [':'] + (Groups(front) + Hex(last)) + [':'] == [':'] + (Groups(front) + (Hex(last) + [':']));
    }
  }

  /** The text of the words before word i. */
  function Emitted(ws: seq<word>, base: int, len: nat, i: nat): string
    requires i <= |ws|
  {
    if base < 0 || i <= base then Joined(ws[..i])
    else Joined(ws[..base]) + [':'] + if i <= base + len then [] else Lead(ws[base + len..i])
  }

  lemma EmitWord(ws: seq<word>, base: int, len: nat, i: nat)
    requires i < |ws| && (base < 0 || (len > 0 && (i < base || base + len <= i)))
    ensures Emitted(ws, base, len, i + 1) == Emitted(ws, base, len, i) + (if i != 0 then [':'] else []) + Hex(ws[i])
  {
    hide Hex, Groups;
    if base < 0 || i < base {
      assert ws[..i + 1][..i] == ws[..i];
      if i > 0 {
        JoinedColon(ws[..i]);
      } else {
        NoGroups([]);
        assert Groups([]) + [] == Groups([]);
      }
    } else {
      assert ws[base + len..i + 1][..i - base - len] == ws[base + len..i];
      if i == base + len {
        assert ws[base + len..i] == [] && Lead(ws[base + len..i]) == [];
      }
      assert Lead(ws[base + len..i + 1]) == Lead(ws[base + len..i]) + [':'] + Hex(ws[i]);
      Grouped4(Joined(ws[..base]) + [':'], Lead(ws[base + len..i]), Hex(ws[i]));
    }
  }

  lemma Grouped4(a: string, b: string, c: string)
    ensures a + (b + [':'] + c) == a + b + [':'] + c
  {
  }

  lemma {:induction false} EmittedLength(ws: seq<word>, base: int, len: nat, i: nat)
    requires i <= |ws|
    ensures |Emitted(ws, base, len, i)| <= 5 * i + 1
    decreases i
  {
    hide Hex, Joined, Lead;
    if base < 0 || i <= base {
      JoinedLength(ws[..i]);
    } else {
      JoinedLength(ws[..base]);
      if i > base + len {
        LeadColon(ws[base + len..i]);
        JoinedLength(ws[base + len..i]);
      }
    }
  }

  /** The whole text, when it does not end in an IPv4 address. */
  lemma EmittedAll(a: seq<byte>, base: int, len: nat)
    requires |a| == 16 && (base >= 0 ==> base + len <= 8 && len > 0 && !Embedded(Words(a), base, len))
    ensures Text6(a, base, len) == Emitted(Words(a), base, len, 8) + if base >= 0 && base + len == 8 then [':'] else []
  {
    hide Words, Joined, Lead;
    var ws := Words(a);
    assert ws[..8] == ws;
    if base >= 0 {
      var pre, post := Joined(ws[..base]), ws[base + len..];
      assert ws[base + len..8] == post;
      LeadColon(post);
      if post == [] {
        NothingJoined();
        assert pre + [':'] + [] + [':'] == pre + ("::" + []);
      } else {
        assert pre + [':'] + ([':'] + Joined(post)) == pre + ("::" + Joined(post));
      }
    }
  }

  lemma NothingJoined()
    ensures Joined([]) == []
  {
  }

  /** The whole text, when it does. */
  lemma EmittedEmbedded(a: seq<byte>, len: nat)
    requires |a| == 16 && 0 < len <= 6 && Embedded(Words(a), 0, len)
    ensures Text6(a, 0, len) == Emitted(Words(a), 0, len, 6) + [':'] + Text4(a[12..])
    ensures |Emitted(Words(a), 0, len, 6)| <= 6
  {
    hide Words, Joined, Lead, Groups, Text4;
    var ws := Words(a);
    JoinedLength(ws[len..6]);
    NothingJoined();
    assert ws[..0] == [];
    LeadColon(ws[len..6]);
    if len == 6 {
      assert ws[len..6] == [];
      NoGroups([]);
      assert Groups([]) + [] == Groups([]);
    }
    Grouped5(Groups(ws[len..6]), Text4(a[12..]));
    assert [] + [':'] + Lead(ws[len..6]) == [':'] + Lead(ws[len..6]);
  }

  lemma Grouped5(g: string, t: string)
    ensures "::" + (g + t) == [':'] + ([':'] + g) + t
  {
  }

  /** *tp++ for each character. */
  method Put(tmp: array<char>, tp: nat, s: string) returns (tp': nat)
    requires tp + |s| < tmp.Length
    modifies tmp
    ensures tp' == tp + |s| && tmp[..tp'] == old(tmp[..tp]) + s
  {
    for i := 0 to |s|
      invariant tmp[..tp + i] == old(tmp[..tp]) + s[..i]
    {
      tmp[tp + i] := s[i];
      assert s[..i + 1] == s[..i] + [s[i]];
    }
    assert s[..|s|] == s;
    tp' := tp + |s|;
  }

  lemma BestFits(ws: seq<word>, base: int, len: nat)
    requires IsBest(ws, base, len)
    ensures if base < 0 then base == -1 else len >= 2 && base + len <= |ws| && ZeroRun(ws, base, len)
  {
  }

  lemma NothingEmitted(ws: seq<word>, base: int, len: nat)
    ensures Emitted(ws, base, len, 0) == []
  {
    NothingJoined();
    assert ws[..0] == [];
  }

  lemma EmitRun(ws: seq<word>, base: int, len: nat, i: nat)
    requires base <= i < base + len && 0 <= base && i < |ws|
    ensures Emitted(ws, base, len, i + 1) == Emitted(ws, base, len, i) + if i == base then [':'] else []
  {
    hide Joined, Lead;
  }

  /** inet_ntop6, for a destination of `size` bytes: None is UV_ENOSPC. */
  method Ntop6(src: seq<byte>, size: nat) returns (text: Option<string>, ghost base: int, ghost len: nat)
    requires |src| == 16
    ensures IsBest(Words(src), base, len) && (base >= 0 ==> len > 0 && ZeroRun(Words(src), base, len))
    ensures text == if |Text6(src, base, len)| < size then Some(Text6(src, base, len)) else None
    ensures if text.Some? then Parse6(text.value) == Some(src) && |text.value| < size && |text.value| <= 39 else size <= 39
    ensures var zeros := forall i :: 0 <= i < 10 ==> src[i] == 0;
            var mapped, compatible := zeros && src[10] == src[11] == 255, zeros && src[10] == src[11] == 0 && src[12..14] != [0, 0];
            text.Some? ==> && ('.' in text.value <==> mapped || compatible)
                           && (mapped ==> text.value == "::ffff:" + Text4(src[12..]))
                           && (compatible ==> text.value == "::" + Text4(src[12..]))
  {
    hide Hex, Text4, IsBest, Text6, Emitted, Words, ZeroRun, Parse6;
    var words := Pack(src);
    ghost var ws := words[..];
    var bestBase, bestLen := FirstLongest(words);
    base, len := bestBase, bestLen;
    BestFits(ws, base, len);
    NothingEmitted(ws, base, len);
    var tmp := new char[46];
    var tp, i := 0, 0;
    ghost var embedded := false;
    while i < 8
      invariant words[..] == ws && i <= 8 && !embedded && (i > 6 ==> !Embedded(ws, base, len))
      invariant 0 <= tp < 46 && tmp[..tp] == Emitted(ws, base, len, i)
    {
      EmittedLength(ws, base, len, i);
      if bestBase != -1 && bestBase <= i < bestBase + bestLen {
        EmitRun(ws, base, len, i);
        if i == bestBase {
          tp := Put(tmp, tp, [':']);
        }
        i := i + 1;
        continue;
      }
      EmitWord(ws, base, len, i);
      if i != 0 {
        tp := Put(tmp, tp, [':']);
      }
      var word5, word7 := words[5], words[7];
      if i == 6 && bestBase == 0 && (bestLen == 6 || (bestLen == 7 && word7 != 1) || (bestLen == 5 && word5 == 0xffff)) {
        // The case of seven words is never met: word 6 would be one of them.
        assert bestLen != 7;
        EmittedEmbedded(src, len);
        Length4(src[12..]);
        var quad := Ntop4(src[12..], 46 - tp);
        assert quad.Some?;
        tp := Put(tmp, tp, quad.value);
        embedded := true;
        break;
      }
      tp := Put(tmp, tp, Hex(words[i]));
      i := i + 1;
    }
    TextFits(src, base, len);
    if !embedded {
      EmittedAll(src, base, len);
    }
    if bestBase != -1 && bestBase + bestLen == 8 {
      tp := Put(tmp, tp, [':']);
    }
    assert tmp[..tp] == Text6(src, base, len);
    RoundTrip(src, base, len);
    DotExactly(src, base, len);
    if tp + 1 > size {
      return None, base, len;
    }
    return Some(tmp[..tp]), base, len;
  }

  // ---------- inet_pton6 ----------

  /** Lines 299-302: the n bytes from c on go to the end of tmp, and leave zeros behind. */
  method Shift(tmp: array<byte>, c: nat, tp: nat)
    requires tmp.Length == 16 && c <= tp < 16 && forall k :: tp <= k < 16 ==> tmp[k] == 0
    modifies tmp
    ensures tmp[..] == old(tmp[..c]) + Zeros(16 - tp) + old(tmp[c..tp])
  {
    ghost var all := tmp[..];
    var n, gap := tp - c, 16 - tp;
    for i := 1 to n + 1
      invariant forall k :: 0 <= k < tp - (i - 1) ==> tmp[k] == all[k]
      invariant forall k :: tp - (i - 1) <= k < 16 - (i - 1) ==> tmp[k] == 0
      invariant forall k :: 16 - (i - 1) <= k < 16 ==> tmp[k] == all[k - gap]
    {
      tmp[16 - i] := tmp[c + n - i];
      tmp[c + n - i] := 0;
    }
    Shifted(all, tmp[..], c, tp);
  }

  lemma Shifted(all: seq<byte>, now: seq<byte>, c: nat, tp: nat)
    requires |all| == |now| == 16 && c <= tp < 16
    requires forall k :: 0 <= k < c ==> now[k] == all[k]
    requires forall k :: c <= k < 16 - (tp - c) ==> now[k] == 0
    requires forall k :: 16 - (tp - c) <= k < 16 ==> now[k] == all[k - (16 - tp)]
    ensures now == all[..c] + Zeros(16 - tp) + all[c..tp]
  {
  }

  /** Lines 267-268: a word in network order. */
  method PutWord(tmp: array<byte>, tp: nat, val: word) returns (tp': nat)
    requires tmp.Length == 16 && tp + 2 <= 16
    modifies tmp
    ensures tp' == tp + 2 && tmp[..tp'] == old(tmp[..tp]) + [val / 256, val % 256]
    ensures forall k :: tp' <= k < 16 ==> tmp[k] == old(tmp[k])
  {
    tmp[tp], tmp[tp + 1] := val / 256, val % 256;
    tp' := tp + 2;
  }

  /** From line 283 on. */
  method EndAddress(tmp: array<byte>, tp: nat, colon: Option<nat>, val: word, seen: nat) returns (address: Option<seq<byte>>)
    requires tmp.Length == 16 && tp <= 16 && (colon.Some? ==> colon.value <= tp) && forall k :: tp <= k < 16 ==> tmp[k] == 0
    modifies tmp
    ensures address == Finish6(old(tmp[..tp]), colon, val, seen)
  {
    hide Close6;
    var end := tp;
    if seen > 0 {
      if tp + 2 > 16 {
        return None;
      }
      end := PutWord(tmp, tp, val);
    }
    var ok := CloseAddress(tmp, end, colon);
    return if ok then Some(tmp[..]) else None;
  }

  /** Lines 289-308. */
  method CloseAddress(tmp: array<byte>, tp: nat, colon: Option<nat>) returns (ok: bool)
    requires tmp.Length == 16 && tp <= 16 && (colon.Some? ==> colon.value <= tp) && forall k :: tp <= k < 16 ==> tmp[k] == 0
    modifies tmp
    ensures Close6(old(tmp[..tp]), colon) == if ok then Some(tmp[..]) else None
  {
    if colon.Some? {
      if tp == 16 {
        return false;
      }
      ghost var all := tmp[..tp];
      assert all[..colon.value] == tmp[..colon.value] && all[colon.value..] == tmp[colon.value..tp];
      Shift(tmp, colon.value, tp);
      return true;
    }
    assert tp == 16 ==> tmp[..tp] == tmp[..];
    return tp == 16;
  }

  /** One character of Scan6. */
  lemma ScanOne6(s: string, cur: string, out: seq<byte>, colon: Option<nat>, val: nat, seen: nat)
    requires s != [] && (colon.Some? ==> colon.value <= |out|) && |out| <= 16 && seen <= 4 && val < Limit(seen)
    ensures var r := Scan6(s, cur, out, colon, val, seen);
            && (HexValue(s[0]).Some? ==> r == if seen == 4 then None else Scan6(s[1..], cur, out, colon, val * 16 + HexValue(s[0]).value, seen + 1))
            && (s[0] == ':' && seen == 0 ==> r == if colon.Some? then None else Scan6(s[1..], s[1..], out, Some(|out|), 0, 0))
            && (s[0] == ':' && seen > 0 && (s[1..] == [] || |out| + 2 > 16) ==> r == None)
            && (s[0] == ':' && seen > 0 && s[1..] != [] && |out| + 2 <= 16 ==> r == Scan6(s[1..], s[1..], out + [val / 256, val % 256], colon, 0, 0))
            && (s[0] == '.' && |out| + 4 <= 16 && Parse4(cur).Some? ==> |Parse4(cur).value| == 4 && r == Close6(out + Parse4(cur).value, colon))
            && (HexValue(s[0]).None? && s[0] != ':' && !(s[0] == '.' && |out| + 4 <= 16 && Parse4(cur).Some?) ==> r == None)
  {
    Verdict(cur);
  }

  lemma ScanEnd6(s: string, cur: string, out: seq<byte>, colon: Option<nat>, val: nat, seen: nat)
    requires s == [] && (colon.Some? ==> colon.value <= |out|) && |out| <= 16 && seen <= 4 && val < Limit(seen)
    ensures Scan6(s, cur, out, colon, val, seen) == Finish6(out, colon, val, seen)
  {
  }

  /** Line 274: an IPv4 text up to the end goes to tp. */
  method PutQuad(cur: string, tmp: array<byte>, tp: nat) returns (ok: bool)
    requires tmp.Length == 16 && tp + 4 <= 16 && forall k :: tp <= k < 16 ==> tmp[k] == 0
    modifies tmp
    ensures forall k :: tp + 4 <= k < 16 ==> tmp[k] == 0
    ensures if ok then Parse4(cur).Some? && |Parse4(cur).value| == 4 && tmp[..tp + 4] == old(tmp[..tp]) + Parse4(cur).value else Parse4(cur) == None
  {
    hide Parse4, Text4;
    ghost var out := tmp[..tp];
    ghost var rest := tmp[tp + 4..];
    ok := Pton4(cur, tmp, tp);
    assert tmp[..tp] == out && tmp[tp + 4..] == rest;
    assert forall k :: tp + 4 <= k < 16 ==> tmp[k] == rest[k - (tp + 4)];
    assert tmp[..tp + 4] == out + tmp[tp..tp + 4];
  }

  /** inet_pton6; None is UV_EINVAL. */
  method Pton6(src: string) returns (address: Option<seq<byte>>)
    ensures address == Parse6(src)
  {
    hide Scan6, Text4, Parse4, HexValue, Close6, Limit;
    var tmp := new byte[16](i => 0);
    var tp: nat, i: nat := 0, 0;
    var colon: Option<nat> := None;
    if |src| > 0 && src[0] == ':' {
      i := 1;
      if |src| == 1 || src[1] != ':' {
        return None;
      }
    }
    var cur: nat, seen: nat, val: nat := i, 0, 0;
    ghost var quad := false;
    LimitOfNone();
    assert src[0..] == src && tmp[..0] == [];
    while i < |src|
      invariant !quad && 0 <= cur <= i <= |src| && 0 <= tp <= 16 && (colon.Some? ==> 0 <= colon.value <= tp)
      invariant 0 <= seen <= 4 && 0 <= val < Limit(seen) && forall k :: tp <= k < 16 ==> tmp[k] == 0
      invariant Parse6(src) == Scan6(src[i..], src[cur..], tmp[..tp], colon, val, seen)
    {
      var ch := src[i];
      ghost var out := tmp[..tp];
      ScanOne6(src[i..], src[cur..], out, colon, val, seen);
      assert src[i..][1..] == src[i + 1..];
      i := i + 1;
      Digits(ch, val, seen);
      var digit := HexValue(ch);
      if digit.Some? {
        val := val * 16 + digit.value;
        seen := seen + 1;
        if seen > 4 {
          return None;
        }
      } else if ch == ':' {
        cur := i;
        if seen == 0 {
          if colon.Some? {
            return None;
          }
          colon := Some(tp);
        } else if i == |src| {
          return None;
        } else if tp + 2 > 16 {
          return None;
        } else {
          tp := PutWord(tmp, tp, val);
          seen, val := 0, 0;
        }
      } else if ch == '.' && tp + 4 <= 16 {
        var ok := PutQuad(src[cur..], tmp, tp);
        if !ok {
          return None;
        }
        tp, seen, val := tp + 4, 0, 0;
        quad := true;
        break;
      } else {
        return None;
      }
    }
    Digits(' ', val, seen);
    if !quad {
      ScanEnd6(src[i..], src[cur..], tmp[..tp], colon, val, seen);
    }
    address := EndAddress(tmp, tp, colon, val, seen);
  }

  lemma LimitOfNone()
    ensures 0 < Limit(0)
  {
  }

  lemma Digits(c: char, val: nat, seen: nat)
    requires val < Limit(seen)
    ensures val < 65536 && (seen == 0 ==> val == 0)
    ensures HexValue(c).Some? ==> HexValue(c).value < 16 && (seen < 4 ==> val * 16 + HexValue(c).value < Limit(seen + 1))
  {
  }
}
