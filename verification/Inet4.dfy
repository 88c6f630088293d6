/** The text of IPv4 addresses, and what inet_pton4 of libuv/src/inet.c makes of a string. */
module Inet4 {
  import opened Bytes
  import opened Wrappers

  function DigitChar(d: nat): char
    requires d < 16
  {
    if d < 10 then '0' + d as char else 'a' + (d - 10) as char
  }

  predicate IsDigit(c: char) {
    '0' <= c <= '9'
  }

  /** %u */
  function Dec(b: byte): (s: string)
    ensures 1 <= |s| <= 3 && forall c :: c in s ==> IsDigit(c)
  {
    if b < 10 then [DigitChar(b)]
    else if b < 100 then [DigitChar(b / 10), DigitChar(b % 10)]
    else [DigitChar(b / 100), DigitChar(b / 10 % 10), DigitChar(b % 10)]
  }

  /** Every number with a dot behind it. */
  function Dotted(vals: seq<byte>): string {
    if vals == [] then [] else Dotted(vals[..|vals| - 1]) + Dec(vals[|vals| - 1]) + ['.']
  }

  /** The numbers with dots between them. */
  function Text4(vals: seq<byte>): string {
    if vals == [] then [] else Dotted(vals[..|vals| - 1]) + Dec(vals[|vals| - 1])
  }

  /** The string as inet_pton4 reads it: the octets so far, and whether the last one is under way. */
  function Scan4(s: string, vals: seq<byte>, saw: bool): Option<seq<byte>>
    requires saw ==> vals != []
    decreases |s|
  {
    if s == [] then (if |vals| < 4 then None else Some(vals))
    else if IsDigit(s[0]) then
      var d := s[0] as int - '0' as int;
      if saw then
        var last := vals[|vals| - 1];
        if last == 0 || last * 10 + d > 255 then None else Scan4(s[1..], vals[..|vals| - 1] + [last * 10 + d], true)
      else if |vals| >= 4 then None
      else Scan4(s[1..], vals + [d], true)
    else if s[0] == '.' && saw && |vals| != 4 then Scan4(s[1..], vals, false)
    else None
  }

  function Parse4(s: string): Option<seq<byte>> {
    Scan4(s, [], false)
  }

  /** The text read so far, from what inet_pton4 remembers of it. */
  function Read4(vals: seq<byte>, saw: bool): string {
    if saw then Text4(vals) else Dotted(vals)
  }

  /** The digit d was read: what is remembered then. */
  lemma ReadDigit(vals: seq<byte>, saw: bool, d: nat)
    requires d < 10 && (saw ==> vals != [] && vals[|vals| - 1] > 0 && vals[|vals| - 1] * 10 + d <= 255)
    ensures saw ==> Read4(vals[..|vals| - 1] + [vals[|vals| - 1] * 10 + d], true) == Read4(vals, true) + [DigitChar(d)]
    ensures !saw ==> Read4(vals + [d], true) == Read4(vals, false) + [DigitChar(d)]
  {
    if saw {
      var last, front := vals[|vals| - 1], vals[..|vals| - 1];
      OneMoreDigit(last, d);
      assert (front + [last * 10 + d])[..|front|] == front;
    } else {
      assert (vals + [d])[..|vals|] == vals;
    }
  }

  lemma {:induction false} Sound4(s: string, vals: seq<byte>, saw: bool)
    requires (saw ==> vals != []) && |vals| <= 4 && (|vals| == 4 ==> saw)
    requires Scan4(s, vals, saw).Some?
    ensures var a := Scan4(s, vals, saw).value; |a| == 4 && Read4(vals, saw) + s == Text4(a)
    decreases |s|
  {
    hide Dec, Text4, Dotted;
    if s != [] {
      assert s == [s[0]] + s[1..];
      if IsDigit(s[0]) {
        var d := s[0] as int - '0' as int;
        assert s[0] == DigitChar(d);
        ReadDigit(vals, saw, d);
        var next := if saw then vals[..|vals| - 1] + [vals[|vals| - 1] * 10 + d] else vals + [d];
        Sound4(s[1..], next, true);
        Regroup(Read4(vals, saw), s[0], s[1..]);
      } else {
        Sound4(s[1..], vals, false);
        DotRead(vals);
        Regroup(Read4(vals, true), s[0], s[1..]);
      }
    }
  }

  lemma Regroup(a: string, c: char, b: string)
    ensures a + ([c] + b) == a + [c] + b
  {
  }

  lemma DotRead(vals: seq<byte>)
    requires vals != []
    ensures Read4(vals, false) == Read4(vals, true) + ['.']
  {
  }

  lemma OneMoreDigit(last: byte, d: nat)
    requires last > 0 && d < 10 && last * 10 + d <= 255
    ensures Dec(last * 10 + d) == Dec(last) + [DigitChar(d)]
  {
    assert (last * 10 + d) / 10 == last && (last * 10 + d) % 10 == d;
  }

  lemma ScanFirst(d: nat, rest: string, vals: seq<byte>)
    requires d < 10 && |vals| < 4
    ensures Scan4([DigitChar(d)] + rest, vals, false) == Scan4(rest, vals + [d], true)
  {
    assert ([DigitChar(d)] + rest)[1..] == rest;
  }

  lemma ScanNext(d: nat, rest: string, vals: seq<byte>, last: byte)
    requires d < 10 && last > 0 && last * 10 + d <= 255
    ensures Scan4([DigitChar(d)] + rest, vals + [last], true) == Scan4(rest, vals + [last * 10 + d], true)
  {
    assert ([DigitChar(d)] + rest)[1..] == rest;
    assert (vals + [last])[..|vals|] == vals;
  }

  lemma Front(a: string, b: string, c: string)
    ensures (a + b) + c == a + (b + c)
  {
  }

  lemma DecIs(b: byte)
    ensures Dec(b) == if b < 10 then [DigitChar(b)]
                      else if b < 100 then [DigitChar(b / 10)] + [DigitChar(b % 10)]
                      else [DigitChar(b / 100)] + ([DigitChar(b / 10 % 10)] + [DigitChar(b % 10)])
  {
    hide DigitChar;
  }

  lemma ScanDec(b: byte, rest: string, vals: seq<byte>)
    requires |vals| < 4
    ensures Scan4(Dec(b) + rest, vals, false) == Scan4(rest, vals + [b], true)
  {
    hide Scan4, DigitChar, Dec;
    DecIs(b);
    if b < 10 {
      ScanFirst(b, rest, vals);
    } else if b < 100 {
      var last := [DigitChar(b % 10)];
      Front([DigitChar(b / 10)], last, rest);
      ScanFirst(b / 10, last + rest, vals);
      ScanNext(b % 10, rest, vals, b / 10);
    } else {
      var middle, last := [DigitChar(b / 10 % 10)], [DigitChar(b % 10)];
      Front([DigitChar(b / 100)], middle + last, rest);
      Front(middle, last, rest);
      ScanFirst(b / 100, middle + (last + rest), vals);
      ScanNext(b / 10 % 10, last + rest, vals, b / 100);
      ScanNext(b % 10, rest, vals, b / 10);
    }
  }

  lemma ScanDot(rest: string, vals: seq<byte>)
    requires 0 < |vals| < 4
    ensures Scan4(['.'] + rest, vals, true) == Scan4(rest, vals, false)
  {
    assert (['.'] + rest)[1..] == rest;
  }

  /** The text from number k on. */
  function Tail4(a: seq<byte>, k: nat): string
    requires |a| == 4 && k < 4
    decreases 4 - k
  {
    Dec(a[k]) + if k == 3 then [] else ['.'] + Tail4(a, k + 1)
  }

  lemma {:induction false} TextSplit(a: seq<byte>, k: nat)
    requires |a| == 4 && k < 4
    ensures Text4(a) == Dotted(a[..k]) + Tail4(a, k)
    decreases 4 - k
  {
    hide Dec;
    if k < 3 {
      TextSplit(a, k + 1);
      assert a[..k + 1][..k] == a[..k];
      Regroup(Dotted(a[..k]) + Dec(a[k]), '.', Tail4(a, k + 1));
      assert Dotted(a[..k]) + Dec(a[k]) + (['.'] + Tail4(a, k + 1)) == Dotted(a[..k]) + (Dec(a[k]) + (['.'] + Tail4(a, k + 1)));
    } else {
      assert Dec(a[3]) + [] == Dec(a[3]);
    }
  }

  lemma ScanPart(a: seq<byte>, k: nat, rest: string)
    requires |a| == 4 && k < 4
    ensures Scan4(Dec(a[k]) + rest, a[..k], false) == Scan4(rest, a[..k + 1], true)
    ensures k < 3 ==> Scan4(['.'] + rest, a[..k + 1], true) == Scan4(rest, a[..k + 1], false)
  {
    hide Scan4, Dec;
    ScanDec(a[k], rest, a[..k]);
    assert a[..k + 1] == a[..k] + [a[k]];
    if k < 3 {
      ScanDot(rest, a[..k + 1]);
    }
  }

  lemma {:induction false} ScanTail(a: seq<byte>, k: nat)
    requires |a| == 4 && k < 4
    ensures Scan4(Tail4(a, k), a[..k], false) == Some(a)
    decreases 4 - k
  {
    hide Scan4, Dec;
    if k < 3 {
      ScanPart(a, k, ['.'] + Tail4(a, k + 1));
      ScanPart(a, k, Tail4(a, k + 1));
      ScanTail(a, k + 1);
    } else {
      ScanPart(a, 3, []);
      assert a[..4] == a;
      EndOfText(a);
    }
  }

  lemma Complete4(a: seq<byte>)
    requires |a| == 4
    ensures Parse4(Text4(a)) == Some(a)
  {
    TextSplit(a, 0);
    ScanTail(a, 0);
    assert a[..0] == [] && Dotted([]) + Tail4(a, 0) == Tail4(a, 0);
  }

  lemma EndOfText(a: seq<byte>)
    requires |a| == 4
    ensures Scan4([], a, true) == Some(a)
  {
  }

  /** inet_pton4 accepts exactly the texts that inet_ntop4 prints, and gives back the address. */
  lemma Inverse4(s: string, a: seq<byte>)
    ensures Parse4(s) == Some(a) <==> |a| == 4 && s == Text4(a)
  {
    if |a| == 4 {
      Complete4(a);
    }
    if Parse4(s).Some? {
      Sound4(s, [], false);
    }
  }

  lemma Length4(a: seq<byte>)
    requires |a| == 4
    ensures 7 <= |Text4(a)| <= 15
  {
    TextSplit(a, 0);
    assert |Tail4(a, 3)| <= 3 && |Tail4(a, 2)| <= 7 && |Tail4(a, 1)| <= 11;
  }

  lemma DottedStep(a: seq<byte>, k: nat)
    requires k < |a|
    ensures Dotted(a[..k + 1]) == if k == 0 then Dec(a[k]) + ['.'] else Dotted(a[..k]) + Dec(a[k]) + ['.']
  {
    hide Dec;
    assert a[..k + 1][..k] == a[..k];
    if k == 0 {
      assert Dotted(a[..0]) + Dec(a[0]) == Dec(a[0]);
    }
  }

  /** inet_ntop4: the text is stored if it and its NUL fit in size bytes. */
  method Ntop4(src: seq<byte>, size: nat) returns (text: Option<string>)
    requires |src| == 4
    ensures text == if |Text4(src)| < size then Some(Text4(src)) else None
  {
    hide Dec;
    var tmp := Dec(src[0]) + ['.'] + Dec(src[1]) + ['.'] + Dec(src[2]) + ['.'] + Dec(src[3]);
    DottedStep(src, 0);
    DottedStep(src, 1);
    DottedStep(src, 2);
    if |tmp| >= size {
      return None;
    }
    return Some(tmp);
  }

  lemma ScanEnd(vals: seq<byte>, saw: bool)
    requires saw ==> vals != []
    ensures Scan4([], vals, saw) == if |vals| < 4 then None else Some(vals)
  {
  }

  /** One character of Scan4. */
  lemma ScanOne(src: string, i: nat, vals: seq<byte>, saw: bool)
    requires i < |src| && (saw ==> vals != [])
    ensures var d := src[i] as int - '0' as int;
            var last := if saw then vals[|vals| - 1] else 0;
            Scan4(src[i..], vals, saw) ==
              if IsDigit(src[i]) then
                (if (saw && last == 0) || last * 10 + d > 255 || (!saw && |vals| >= 4) then None
                 else Scan4(src[i + 1..], (if saw then vals[..|vals| - 1] else vals) + [last * 10 + d], true))
              else if src[i] == '.' && saw && |vals| != 4 then Scan4(src[i + 1..], vals, false)
              else None
  {
    assert src[i..][1..] == src[i + 1..];
  }

  /** Lines 187-219: tmp, and whether the string is an address. */
  method Octets(src: string) returns (ok: bool, tmp: array<byte>)
    ensures fresh(tmp) && tmp.Length == 4
    ensures Parse4(src) == if ok then Some(tmp[..]) else None
  {
    hide Text4, Scan4, Parse4;
    tmp := new byte[4];
    var sawDigit, octets, at, i := false, 0, 0, 0;
    tmp[0] := 0;
    ghost var parsed := Parse4(src);
    ParseIs(src);
    assert tmp[..0] == [] && src[0..] == src;
    while i < |src|
      invariant 0 <= i <= |src| && at <= 3 && octets <= 4
      invariant octets == if sawDigit then at + 1 else at
      invariant !sawDigit ==> tmp[at] == 0
      invariant parsed == Scan4(src[i..], tmp[..octets], sawDigit)
    {
      var ch := src[i];
      ghost var vals := tmp[..octets];
      ScanOne(src, i, vals, sawDigit);
      if IsDigit(ch) {
        var nw := tmp[at] as int * 10 + (ch as int - '0' as int);
        if sawDigit && tmp[at] == 0 {
          return false, tmp;
        }
        if nw > 255 {
          return false, tmp;
        }
        if !sawDigit && octets + 1 > 4 {
          return false, tmp;
        }
        tmp[at] := nw;
        if !sawDigit {
          octets, sawDigit := octets + 1, true;
          assert tmp[..octets] == vals + [nw];
        } else {
          assert tmp[..octets] == vals[..octets - 1] + [nw];
        }
      } else if ch == '.' && sawDigit {
        if octets == 4 {
          return false, tmp;
        }
        at := at + 1;
        tmp[at], sawDigit := 0, false;
        assert tmp[..octets] == vals;
      } else {
        return false, tmp;
      }
      i := i + 1;
    }
    assert src[i..] == [];
    ScanEnd(tmp[..octets], sawDigit);
    if octets < 4 {
      assert parsed.None?;
      return false, tmp;
    }
    assert tmp[..4] == tmp[..];
    return true, tmp;
  }

  /** inet_pton4, which writes to dst from p on: UV_EINVAL is false, and dst is then left alone. */
  method Pton4(src: string, dst: array<byte>, p: nat) returns (ok: bool)
    requires p + 4 <= dst.Length
    modifies dst
    ensures ok <==> exists a: seq<byte> :: |a| == 4 && src == Text4(a)
    ensures ok ==> src == Text4(dst[p..p + 4])
    ensures dst[..p] == old(dst[..p]) && dst[p + 4..] == old(dst[p + 4..])
    ensures !ok ==> dst[..] == old(dst[..])
    ensures Parse4(src) == if ok then Some(dst[p..p + 4]) else None
  {
    hide Text4, Scan4, Parse4;
    var tmp;
    ok, tmp := Octets(src);
    Verdict(src);
    if ok {
      dst[p], dst[p + 1], dst[p + 2], dst[p + 3] := tmp[0], tmp[1], tmp[2], tmp[3];
      assert dst[p..p + 4] == tmp[..];
    }
  }

  lemma ParseIs(s: string)
    ensures Parse4(s) == Scan4(s, [], false)
  {
  }

  lemma Verdict(s: string)
    ensures Parse4(s).Some? <==> exists a: seq<byte> :: |a| == 4 && s == Text4(a)
    ensures Parse4(s).Some? ==> |Parse4(s).value| == 4 && s == Text4(Parse4(s).value)
  {
    if Parse4(s).Some? {
      Inverse4(s, Parse4(s).value);
    }
    if a: seq<byte> :| |a| == 4 && s == Text4(a) {
      Inverse4(s, a);
    }
  }
}
