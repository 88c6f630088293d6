/**
 * The strings RFC 4291 section 2.2 allows for an IPv6 address, and that inet_pton6 of
 * libuv/src/inet.c accepts exactly these.
 */
module Inet6Grammar {
  import opened Bytes
  import opened Wrappers
  import opened Inet4
  import opened Inet6

  predicate HexDigits(g: string) {
    forall c | c in g :: HexValue(c).Some?
  }

  /** One to four hexadecimal digits, of either case. */
  predicate IsGroup(g: string) {
    1 <= |g| <= 4 && HexDigits(g)
  }

  /** The value of digits read after val. */
  function Value(val: nat, g: string): nat
    requires HexDigits(g)
    decreases |g|
  {
    if g == [] then val else Value(val * 16 + HexValue(g[0]).value, g[1..])
  }

  lemma {:induction false} ValueFits(val: nat, n: nat, g: string)
    requires HexDigits(g) && n + |g| <= 4 && val < Limit(n)
    ensures Value(val, g) < Limit(n + |g|)
    decreases |g|
  {
    if g != [] {
      Digits(g[0], val, n);
      ValueFits(val * 16 + HexValue(g[0]).value, n + 1, g[1..]);
    }
  }

  function WordOf(g: string): word
    requires IsGroup(g)
  {
    ValueFits(0, 0, g);
    Value(0, g)
  }

  predicate AllGroups(gs: seq<string>) {
    forall g | g in gs :: IsGroup(g)
  }

  function WordsOf(gs: seq<string>): (ws: seq<word>)
    requires AllGroups(gs)
    ensures |ws| == |gs|
  {
    seq(|gs|, i requires 0 <= i < |gs| => WordOf(gs[i]))
  }

  /** Groups with a colon behind each. */
  function Colons(gs: seq<string>): string {
    if gs == [] then [] else gs[0] + ([':'] + Colons(gs[1..]))
  }

  /** How a text ends: after "::", with a group, or with an IPv4 address. */
  datatype Last = Nothing | Group(g: string) | Quad(q: seq<byte>)

  /** Groups with colons, then possibly the second colon of "::" and more groups with colons, then the end. */
  datatype Text = Text(front: seq<string>, run: bool, back: seq<string>, last: Last)

  function LastText(last: Last): string {
    match last
    case Nothing => []
    case Group(g) => g
    case Quad(q) => Text4(q)
  }

  function LastSize(last: Last): nat {
    match last case Nothing => 0 case Group(_) => 2 case Quad(_) => 4
  }

  predicate LastOk(last: Last) {
    (last.Group? ==> IsGroup(last.g)) && (last.Quad? ==> |last.q| == 4)
  }

  function LastBytes(last: Last): (b: seq<byte>)
    requires LastOk(last)
    ensures |b| == LastSize(last)
  {
    match last
    case Nothing => []
    case Group(g) => Flat([WordOf(g)])
    case Quad(q) => q
  }

  function Run(run: bool, back: seq<string>): string {
    if run then [':'] + Colons(back) else []
  }

  /** The string; it begins with a colon more when "::" comes first. */
  function Show(t: Text): string {
    (if t.run && t.front == [] then [':'] else []) + (Colons(t.front) + (Run(t.run, t.back) + LastText(t.last)))
  }

  function Size(t: Text): nat {
    2 * (|t.front| + |t.back|) + LastSize(t.last)
  }

  /** Eight groups, the IPv4 address counting for two; fewer with "::", which stands for one or more. */
  predicate WellFormed(t: Text) {
    && AllGroups(t.front) && AllGroups(t.back) && (!t.run ==> t.back == [])
    && LastOk(t.last)
    && (t.last.Nothing? ==> t.run && t.back == [])
    && if t.run then Size(t) <= 14 else Size(t) == 16
  }

  function Behind(t: Text): seq<byte>
    requires WellFormed(t)
  {
    Flat(WordsOf(t.back)) + LastBytes(t.last)
  }

  /** The address: the bytes before "::", zeros, and the bytes behind. */
  function Meaning(t: Text): (a: seq<byte>)
    requires WellFormed(t)
    ensures |a| == 16
  {
    Flat(WordsOf(t.front)) + Zeros(16 - Size(t)) + Behind(t)
  }

  // ---------- Every such string is accepted ----------

  lemma {:induction false} ScanGroup(g: string, rest: string, cur: string, out: seq<byte>, colon: Option<nat>, val: nat, seen: nat)
    requires HexDigits(g) && seen + |g| <= 4 && val < Limit(seen) && (colon.Some? ==> colon.value <= |out|) && |out| <= 16
    ensures Value(val, g) < Limit(seen + |g|)
    ensures Scan6(g + rest, cur, out, colon, val, seen) == Scan6(rest, cur, out, colon, Value(val, g), seen + |g|)
    decreases |g|
  {
    hide Scan6, Limit, HexValue;
    ValueFits(val, seen, g);
    if g == [] {
      assert g + rest == rest;
    } else {
      Digits(g[0], val, seen);
      assert (g + rest)[0] == g[0] && (g + rest)[1..] == g[1..] + rest;
      ScanOne6(g + rest, cur, out, colon, val, seen);
      ScanGroup(g[1..], rest, cur, out, colon, val * 16 + HexValue(g[0]).value, seen + 1);
    }
  }

  lemma {:induction false} ScanColons(gs: seq<string>, rest: string, cur: string, out: seq<byte>, colon: Option<nat>)
    requires AllGroups(gs) && (colon.Some? ==> colon.value <= |out|) && |out| + 2 * |gs| <= 16 && rest != []
    ensures Scan6(Colons(gs) + rest, cur, out, colon, 0, 0)
            == Scan6(rest, if gs == [] then cur else rest, out + Flat(WordsOf(gs)), colon, 0, 0)
    decreases |gs|
  {
    hide Scan6, Limit;
    LimitOfNone();
    if gs == [] {
      assert Colons(gs) + rest == rest && out + Flat(WordsOf(gs)) == out;
    } else {
      assert IsGroup(gs[0]);
      var g, tail := gs[0], Colons(gs[1..]) + rest;
      assert Colons(gs) + rest == g + ([':'] + tail);
      ScanGroup(g, [':'] + tail, cur, out, colon, 0, 0);
      ScanColon(tail, cur, out, colon, WordOf(g), |g|);
      ScanColons(gs[1..], rest, tail, out + Flat([WordOf(g)]), colon);
      FlatCons(WordsOf(gs));
      assert WordsOf(gs)[1..] == WordsOf(gs[1..]);
      assert out + Flat([WordOf(g)]) + Flat(WordsOf(gs[1..])) == out + Flat(WordsOf(gs));
      assert gs[1..] == [] ==> tail == rest;
    }
  }

  /** The end of a text, read where the groups have been read. */
  lemma ScanLast(last: Last, cur: string, out: seq<byte>, colon: Option<nat>)
    requires LastOk(last) && (last.Quad? ==> cur == Text4(last.q))
    requires (colon.Some? ==> colon.value <= |out|) && |out| + |LastBytes(last)| <= 16
    ensures Scan6(LastText(last), cur, out, colon, 0, 0) == Close6(out + LastBytes(last), colon)
  {
    hide Text4, Parse4;
    match last
    case Nothing =>
      assert out + [] == out;
    case Group(g) =>
      assert g + [] == g;
      ScanGroup(g, [], cur, out, colon, 0, 0);
      ValueFits(0, 0, g);
      assert Flat([WordOf(g)]) == [WordOf(g) / 256, WordOf(g) % 256];
    case Quad(q) => ScanText4(q, out, colon);
  }

  /** Groups with colons, and the end. */
  lemma ScanTail(gs: seq<string>, last: Last, out: seq<byte>, colon: Option<nat>)
    requires AllGroups(gs) && LastOk(last) && (last.Nothing? ==> gs == [])
    requires (colon.Some? ==> colon.value <= |out|) && |out| + 2 * |gs| + |LastBytes(last)| <= 16
    ensures var s := Colons(gs) + LastText(last);
            Scan6(s, s, out, colon, 0, 0) == Close6(out + (Flat(WordsOf(gs)) + LastBytes(last)), colon)
  {
    hide *;
    if last.Nothing? {
      NoWords();
      QuadText(last);
      assert [] + LastText(last) == LastText(last);
      ScanLast(last, [], out, colon);
      assert out + ([] + LastBytes(last)) == out + LastBytes(last);
    } else {
      ScanText(gs, last, out, colon);
    }
  }

  lemma ScanText(gs: seq<string>, last: Last, out: seq<byte>, colon: Option<nat>)
    requires AllGroups(gs) && LastOk(last) && !last.Nothing?
    requires (colon.Some? ==> colon.value <= |out|) && |out| + 2 * |gs| + |LastBytes(last)| <= 16
    ensures var s := Colons(gs) + LastText(last);
            Scan6(s, s, out, colon, 0, 0) == Close6(out + (Flat(WordsOf(gs)) + LastBytes(last)), colon)
  {
    hide *;
    var t, f := LastText(last), Flat(WordsOf(gs));
    NoWords();
    LastIsText(last);
    assert gs == [] ==> Colons(gs) + t == t;
    ScanColons(gs, t, Colons(gs) + t, out, colon);
    QuadText(last);
    ScanLast(last, t, out + f, colon);
    Associative(out, f, LastBytes(last));
  }

  lemma Associative<T>(a: seq<T>, b: seq<T>, c: seq<T>)
    ensures a + b + c == a + (b + c)
  {
  }

  lemma QuadText(last: Last)
    ensures last.Quad? ==> LastText(last) == Text4(last.q)
    ensures last.Nothing? ==> LastText(last) == []
  {
  }

  lemma NoWords()
    ensures Flat(WordsOf([])) == [] && Colons([]) == []
  {
  }

  lemma LastIsText(last: Last)
    requires !last.Nothing? && LastOk(last)
    ensures LastText(last) != [] && LastText(last)[0] != ':'
  {
    if last.Quad? {
      TextSplit(last.q, 0);
      assert last.q[..0] == [] && Dotted([]) + Tail4(last.q, 0) == Tail4(last.q, 0);
      assert Tail4(last.q, 0)[0] == Dec(last.q[0])[0] && Dec(last.q[0])[0] in Dec(last.q[0]);
    } else {
      assert last.g[0] in last.g;
    }
  }

  lemma FrontStarts(gs: seq<string>, rest: string)
    requires AllGroups(gs) && gs != []
    ensures Colons(gs) + rest != [] && (Colons(gs) + rest)[0] != ':'
  {
    assert IsGroup(gs[0]) && gs[0][0] in gs[0];
  }

  /** inet_pton6 accepts every well-formed text, and gives its meaning. */
  lemma Accepted(t: Text)
    requires WellFormed(t)
    ensures Parse6(Show(t)) == Some(Meaning(t))
  {
    hide Scan6, Close6, Colons, WordsOf, LastBytes, LastText;
    var f, x := Flat(WordsOf(t.front)), Colons(t.back) + LastText(t.last);
    if t.run {
      var y := [':'] + x;
      assert Run(t.run, t.back) + LastText(t.last) == y;
      ScanDouble(x, if t.front == [] then y else y, f);
      ScanTail(t.back, t.last, f, Some(|f|));
      CloseAt(f, Behind(t));
      if t.front == [] {
        NoWords();
        assert Show(t) == [':'] + y by { assert [] + y == y; }
        assert ([':'] + y)[1..] == y && y[0] == ':';
      } else {
        assert Show(t) == Colons(t.front) + y by { assert [] + (Colons(t.front) + y) == Colons(t.front) + y; }
        FrontStarts(t.front, y);
        ScanColons(t.front, y, Show(t), [], None);
        assert [] + f == f;
      }
    } else {
      NoWords();
      var s := Colons(t.front) + LastText(t.last);
      assert Show(t) == s by { assert [] + LastText(t.last) == LastText(t.last); assert [] + s == s; }
      ScanTail(t.front, t.last, [], None);
      LastIsText(t.last);
      if t.front != [] {
        FrontStarts(t.front, LastText(t.last));
      } else {
        assert s == LastText(t.last);
      }
      AllOfIt(t);
    }
  }

  lemma CloseAt(f: seq<byte>, b: seq<byte>)
    requires |f| + |b| <= 14
    ensures Close6(f + b, Some(|f|)) == Some(f + Zeros(16 - |f| - |b|) + b)
  {
    assert (f + b)[..|f|] == f && (f + b)[|f|..] == b;
  }

  lemma AllOfIt(t: Text)
    requires WellFormed(t) && !t.run
    ensures Close6([] + (Flat(WordsOf(t.front)) + LastBytes(t.last)), None) == Some(Meaning(t))
  {
    NoWords();
    var f, l := Flat(WordsOf(t.front)), LastBytes(t.last);
    assert Meaning(t) == f + [] + ([] + l);
    assert [] + (f + l) == f + [] + ([] + l);
  }

  // ---------- Nothing else is accepted ----------

  /** What inet_pton6 has read: groups with colons, possibly the colon of "::" and more of them, and digits. */
  datatype Reading = Reading(front: seq<string>, run: bool, back: seq<string>, digits: string)

  function Shown(r: Reading): string {
    Colons(r.front) + (Run(r.run, r.back) + r.digits)
  }

  /** The state of the loop is that after this reading, with s still to come. */
  predicate Agrees(r: Reading, s: string, cur: string, out: seq<byte>, colon: Option<nat>, val: nat, seen: nat) {
    && AllGroups(r.front) && AllGroups(r.back) && (!r.run ==> r.back == [])
    && HexDigits(r.digits) && |r.digits| == seen <= 4 && val == Value(0, r.digits) && cur == r.digits + s
    && out == Flat(WordsOf(r.front)) + Flat(WordsOf(r.back)) && |out| <= 16
    && colon == (if r.run then Some(2 * |r.front|) else None)
    && (s == [] && r.digits == [] ==> r.back == [] && (r.run || r.front == []))
  }

  lemma {:induction false} ColonsSnoc(gs: seq<string>, g: string)
    ensures Colons(gs + [g]) == Colons(gs) + (g + [':'])
    decreases |gs|
  {
    if gs == [] {
      assert [g][1..] == [] && [g] == [] + [g];
      assert [':'] + Colons([]) == [':'] && [] + (g + [':']) == g + [':'];
    } else {
      ColonsSnoc(gs[1..], g);
      assert (gs + [g])[1..] == gs[1..] + [g];
      assert gs[0] + ([':'] + (Colons(gs[1..]) + (g + [':']))) == gs[0] + ([':'] + Colons(gs[1..])) + (g + [':']);
    }
  }

  lemma WordsSnoc(gs: seq<string>, g: string)
    requires AllGroups(gs) && IsGroup(g)
    ensures AllGroups(gs + [g]) && Flat(WordsOf(gs + [g])) == Flat(WordsOf(gs)) + [WordOf(g) / 256, WordOf(g) % 256]
  {
    hide WordOf;
    var ws := WordsOf(gs + [g]);
    assert ws[..|gs|] == WordsOf(gs);
    FlatSnoc(ws);
    assert Flat([WordOf(g)]) == [WordOf(g) / 256, WordOf(g) % 256];
  }

  /** One more digit. */
  lemma MoreDigits(r: Reading, c: char)
    requires HexDigits(r.digits) && HexValue(c).Some?
    ensures HexDigits(r.digits + [c]) && Value(0, r.digits + [c]) == Value(0, r.digits) * 16 + HexValue(c).value
  {
    ValueSnoc(0, r.digits, c);
  }

  lemma {:induction false} ValueSnoc(val: nat, g: string, c: char)
    requires HexDigits(g) && HexValue(c).Some?
    ensures HexDigits(g + [c]) && Value(val, g + [c]) == Value(val, g) * 16 + HexValue(c).value
    decreases |g|
  {
    hide HexValue;
    if g == [] {
      assert g + [c] == [c] && [c][1..] == [];
    } else {
      ValueSnoc(val * 16 + HexValue(g[0]).value, g[1..], c);
      assert (g + [c])[1..] == g[1..] + [c];
    }
  }

  /** The text that has been read, when nothing follows. */
  function Ended(r: Reading): Text {
    Text(r.front, r.run, r.back, if r.digits == [] then Nothing else Group(r.digits))
  }

  lemma NoZeros()
    ensures Zeros(0) == []
  {
  }

  lemma EndsWell(r: Reading, cur: string, out: seq<byte>, colon: Option<nat>, val: nat, seen: nat)
    requires Agrees(r, [], cur, out, colon, val, seen) && val < Limit(seen) && Finish6(out, colon, val, seen).Some?
    ensures var t := Ended(r);
            WellFormed(t) && Some(Meaning(t)) == Finish6(out, colon, val, seen)
            && Colons(t.front) + (Run(t.run, t.back) + LastText(t.last)) == Shown(r)
  {
    hide Limit, HexDigits, Colons, WordsOf, Value, Zeros;
    NoZeros();
    var t := Ended(r);
    var f, b, l := Flat(WordsOf(r.front)), Flat(WordsOf(r.back)), LastBytes(t.last);
    if seen > 0 {
      assert l == [val / 256, val % 256];
    } else {
      assert out + l == out;
    }
    Associative(f, b, l);
    if r.run {
      CloseAt(f, b + l);
    } else {
      NoWords();
      assert f + b + l == f + Zeros(0) + (b + l);
    }
  }

  lemma QuadWell(r: Reading, s: string, cur: string, out: seq<byte>, colon: Option<nat>, val: nat, seen: nat, q: seq<byte>)
    requires Agrees(r, s, cur, out, colon, val, seen) && |q| == 4 && cur == Text4(q) && |out| + 4 <= 16
    requires Close6(out + q, colon).Some?
    ensures var t := Text(r.front, r.run, r.back, Quad(q));
            WellFormed(t) && Some(Meaning(t)) == Close6(out + q, colon)
            && Colons(t.front) + (Run(t.run, t.back) + LastText(t.last)) == Shown(r) + s
  {
    hide Limit, HexDigits, Colons, Text4, Run;
    var f, b := Flat(WordsOf(r.front)), Flat(WordsOf(r.back));
    Associative(f, b, q);
    if r.run {
      CloseAt(f, b + q);
    } else {
      NoWords();
      assert f + b + q == f + Zeros(0) + (b + q);
    }
    assert Colons(r.front) + (Run(r.run, r.back) + (r.digits + s)) == Colons(r.front) + (Run(r.run, r.back) + r.digits) + s;
  }

  /** The colon behind a group. */
  function Closed(r: Reading): Reading {
    if r.run then r.(back := r.back + [r.digits], digits := []) else r.(front := r.front + [r.digits], digits := [])
  }

  lemma ClosedWell(r: Reading, s: string, cur: string, out: seq<byte>, colon: Option<nat>, val: nat, seen: nat)
    requires Agrees(r, [':'] + s, cur, out, colon, val, seen) && seen > 0 && s != [] && |out| + 2 <= 16 && val < Limit(seen)
    ensures val < 65536 && Agrees(Closed(r), s, s, out + [val / 256, val % 256], colon, 0, 0)
    ensures Shown(Closed(r)) == Shown(r) + [':']
  {
    hide Limit, Colons;
    Digits(' ', val, seen);
    assert IsGroup(r.digits) && WordOf(r.digits) == val;
    NoWords();
    assert [] + s == s;
    if r.run {
      WordsSnoc(r.back, r.digits);
      ColonsSnoc(r.back, r.digits);
      assert out + [val / 256, val % 256] == Flat(WordsOf(r.front)) + (Flat(WordsOf(r.back)) + [val / 256, val % 256]);
      assert Colons(r.front) + ([':'] + (Colons(r.back) + (r.digits + [':'])) + []) == Colons(r.front) + ([':'] + Colons(r.back) + r.digits) + [':'];
    } else {
      WordsSnoc(r.front, r.digits);
      ColonsSnoc(r.front, r.digits);
      assert out + [val / 256, val % 256] == Flat(WordsOf(r.front)) + [val / 256, val % 256] + [];
      assert Colons(r.front) + (r.digits + [':']) + ([] + []) == Colons(r.front) + ([] + r.digits) + [':'];
    }
  }

  lemma RunWell(r: Reading, s: string, cur: string, out: seq<byte>, val: nat)
    requires Agrees(r, [':'] + s, cur, out, None, val, 0)
    ensures Agrees(r.(run := true), s, s, out, Some(|out|), 0, 0) && Shown(r.(run := true)) == Shown(r) + [':']
  {
    hide Colons, Value;
    NoWords();
    assert out == Flat(WordsOf(r.front)) && [] + s == s;
    assert Colons(r.front) + ([':'] + [] + []) == Colons(r.front) + ([] + []) + [':'];
    ValueOfNone();
  }

  lemma ValueOfNone()
    ensures Value(0, []) == 0
  {
  }

  lemma DigitWell(r: Reading, c: char, s: string, cur: string, out: seq<byte>, colon: Option<nat>, val: nat, seen: nat)
    requires Agrees(r, [c] + s, cur, out, colon, val, seen) && HexValue(c).Some? && seen < 4
    ensures var r' := r.(digits := r.digits + [c]);
            Agrees(r', s, cur, out, colon, val * 16 + HexValue(c).value, seen + 1) && Shown(r') == Shown(r) + [c]
  {
    hide Colons, Run, HexDigits, Value;
    MoreDigits(r, c);
    assert r.digits + [c] + s == r.digits + ([c] + s);
    assert Colons(r.front) + (Run(r.run, r.back) + (r.digits + [c])) == Colons(r.front) + (Run(r.run, r.back) + r.digits) + [c];
  }

  lemma Next(a: string, c: char, s: string)
    ensures a + [c] + s == a + ([c] + s)
  {
  }

  /** Whatever the loop accepts from a state on is well formed, together with what it read before. */
  lemma {:induction false} Sound(r: Reading, s: string, cur: string, out: seq<byte>, colon: Option<nat>, val: nat, seen: nat) returns (t: Text)
    requires Agrees(r, s, cur, out, colon, val, seen) && val < Limit(seen) && (colon.Some? ==> colon.value <= |out|)
    requires Scan6(s, cur, out, colon, val, seen).Some?
    ensures WellFormed(t) && Some(Meaning(t)) == Scan6(s, cur, out, colon, val, seen)
    ensures Colons(t.front) + (Run(t.run, t.back) + LastText(t.last)) == Shown(r) + s
    decreases |s|
  {
    hide Scan6, Limit, HexValue, Agrees, Shown, Close6, Finish6, Meaning, WellFormed, Run, Colons, Parse4;
    AgreesSays(r, s, cur, out, colon, val, seen);
    if s == [] {
      ScanEnd6(s, cur, out, colon, val, seen);
      EndsWell(r, cur, out, colon, val, seen);
      t := Ended(r);
      assert Shown(r) + [] == Shown(r);
      return;
    }
    var c, rest := s[0], s[1..];
    assert s == [c] + rest;
    ScanOne6(s, cur, out, colon, val, seen);
    Next(Shown(r), c, rest);
    Digits(c, val, seen);
    LimitOfNone();
    if HexValue(c).Some? {
      DigitWell(r, c, rest, cur, out, colon, val, seen);
      t := Sound(r.(digits := r.digits + [c]), rest, cur, out, colon, val * 16 + HexValue(c).value, seen + 1);
    } else if c == ':' {
      if seen == 0 {
        RunWell(r, rest, cur, out, val);
        t := Sound(r.(run := true), rest, rest, out, Some(|out|), 0, 0);
      } else {
        ClosedWell(r, rest, cur, out, colon, val, seen);
        t := Sound(Closed(r), rest, rest, out + [val / 256, val % 256], colon, 0, 0);
      }
    } else {
      Verdict(cur);
      QuadWell(r, s, cur, out, colon, val, seen, Parse4(cur).value);
      t := Text(r.front, r.run, r.back, Quad(Parse4(cur).value));
    }
  }

  lemma AgreesSays(r: Reading, s: string, cur: string, out: seq<byte>, colon: Option<nat>, val: nat, seen: nat)
    requires Agrees(r, s, cur, out, colon, val, seen)
    ensures |out| <= 16 && seen == |r.digits| <= 4 && (r.run <==> colon.Some?)
  {
  }

  /** inet_pton6 accepts exactly the well-formed texts, each with its meaning. */
  lemma AcceptsExactly(s: string, a: seq<byte>)
    ensures Parse6(s) == Some(a) <==> exists t: Text :: WellFormed(t) && s == Show(t) && a == Meaning(t)
  {
    hide Parse6, WellFormed, Show, Meaning;
    forall t: Text | WellFormed(t) && s == Show(t) && a == Meaning(t) ensures Parse6(s) == Some(a) {
      Accepted(t);
    }
    if Parse6(s) == Some(a) {
      var t := Accepts(s);
    }
  }

  lemma Accepts(s: string) returns (t: Text)
    requires Parse6(s).Some?
    ensures WellFormed(t) && s == Show(t) && Parse6(s) == Some(Meaning(t))
  {
    hide Scan6, WellFormed, Meaning, HexValue, Run, LastText;
    var r := Reading([], false, [], []);
    NoWords();
    LimitOfNone();
    ValueOfNone();
    NothingShown(r);
    if s != [] && s[0] == ':' {
      var rest := s[1..];
      Started(r, rest);
      t := Sound(r, rest, rest, [], None, 0, 0);
      Leads(t);
      assert s == [':'] + rest;
    } else {
      Started(r, s);
      t := Sound(r, s, s, [], None, 0, 0);
      Leads(t);
      assert [] + s == s;
    }
  }

  /** Without the colon in front, a text begins with one just when "::" comes first. */
  lemma Leads(t: Text)
    requires WellFormed(t)
    ensures var b := Colons(t.front) + (Run(t.run, t.back) + LastText(t.last));
            b != [] && (b[0] == ':' <==> t.run && t.front == [])
  {
    hide Colons, Meaning, LastText;
    NoWords();
    if t.front != [] {
      FrontStarts(t.front, Run(t.run, t.back) + LastText(t.last));
    } else if !t.run {
      LastIsText(t.last);
    }
  }

  lemma NothingShown(r: Reading)
    requires r == Reading([], false, [], [])
    ensures forall s: string :: Shown(r) + s == s
  {
    NoWords();
    assert Shown(r) == [];
    forall s: string ensures [] + s == s {
    }
  }

  lemma Started(r: Reading, s: string)
    requires r == Reading([], false, [], [])
    ensures Agrees(r, s, s, [], None, 0, 0)
  {
    NoWords();
    assert [] + s == s;
  }

  /** "::" stands for one group at least; without it there must be eight, and a single colon does not begin a text. */
  lemma RunIsNotEmpty(all: seq<byte>, colon: Option<nat>)
    requires (colon.Some? ==> colon.value <= |all|) && |all| <= 16
    ensures Close6(all, colon).Some? <==> if colon.Some? then |all| < 16 else |all| == 16
    ensures forall s: string :: s != [] && s[0] == ':' && (|s| == 1 || s[1] != ':') ==> Parse6(s) == None
  {
  }
}
