/** PacketSync of uv/Packet.h on a little-endian machine: packets cut out of a stream of chunks. */
module Packet {
  import opened Bytes

  type u32 = n: int | 0 <= n < 0x1_0000_0000

  const INT_MAX := 0x7FFF_FFFF
  /** NET_PACKAGE_HEADLEN */
  const HEAD := 12
  /** PACK_BUFFER_SIZE */
  const BUFFER_SIZE := 4096

  // ---------- What OnRecvData does with a buffer ----------

  /** *(uint32_t*) p */
  function Load(b: seq<byte>, at: nat): u32
    requires at + 4 <= |b|
  {
    b[at] as int + 256 * b[at + 1] as int + 65536 * b[at + 2] as int + 16777216 * b[at + 3] as int
  }

  /** pack_size at line 106: a uint32_t, so the sum wraps. */
  function PackSize(buf: seq<byte>): u32
    requires |buf| > HEAD
  {
    (Load(buf, 8) + HEAD) % 0x1_0000_0000
  }

  /** The packets called back, the bytes kept, whether bytes were thrown away, whether the loop never ends. */
  datatype Drained = Drained(packets: seq<seq<byte>>, rest: seq<byte>, dropped: bool, endless: bool)

  function Prepend(packets: seq<seq<byte>>, d: Drained): Drained {
    d.(packets := packets + d.packets)
  }

  /** The loop of lines 100-124. */
  function Drain(head: u32, buf: seq<byte>): Drained
    decreases |buf|
  {
    if |buf| <= HEAD then Drained([], buf, false, false)
    else if Load(buf, 0) != head then Drained([], [], true, false)
    else
      var size := PackSize(buf);
      if size == 0 then Drained([], buf, false, true)
      else if size > |buf| then Drained([], buf, false, false)
      else Prepend([buf[..size]], Drain(head, buf[size..]))
  }

  /** One turn of the loop. */
  lemma DrainStep(head: u32, buf: seq<byte>)
    ensures |buf| <= HEAD ==> Drain(head, buf) == Drained([], buf, false, false)
    ensures |buf| > HEAD && Load(buf, 0) != head ==> Drain(head, buf) == Drained([], [], true, false)
    ensures |buf| > HEAD && Load(buf, 0) == head && PackSize(buf) > |buf| ==> Drain(head, buf) == Drained([], buf, false, false)
    ensures |buf| > HEAD && Load(buf, 0) == head && PackSize(buf) == 0 ==> Drain(head, buf).endless
    ensures |buf| > HEAD && Load(buf, 0) == head && 0 < PackSize(buf) <= |buf| ==>
              Drain(head, buf) == Prepend([buf[..PackSize(buf)]], Drain(head, buf[PackSize(buf)..]))
  {
    hide Load;
  }

  // ---------- When the loop never ends ----------

  /** A header stands at n, with the right flag, and the loop looks at it. */
  predicate HeaderAt(head: u32, buf: seq<byte>, n: nat) {
    n + HEAD < |buf| && Load(buf, n) == head
  }

  /** The size of the packet at n in the 32 bits of pack_size. */
  function SizeAt(buf: seq<byte>, n: nat): u32
    requires n + HEAD < |buf|
  {
    (Load(buf, n + 8) + HEAD) % 0x1_0000_0000
  }

  /** The size fields of k packets from n on lead to a header whose size field is 2^32 - 12. */
  predicate LeadsToZero(head: u32, buf: seq<byte>, n: nat, k: nat)
    decreases k
  {
    && HeaderAt(head, buf, n)
    && if k == 0 then Load(buf, n + 8) == 0x1_0000_0000 - HEAD
       else 0 < SizeAt(buf, n) <= |buf| - n && LeadsToZero(head, buf, n + SizeAt(buf, n), k - 1)
  }

  ghost predicate Hangs(head: u32, buf: seq<byte>) {
    exists k :: LeadsToZero(head, buf, 0, k)
  }

  /** The loop calls back packets of no bytes for ever just when the size field is 2^32 - 12. */
  lemma PackSizeIsZero(buf: seq<byte>)
    requires |buf| > HEAD
    ensures PackSize(buf) == 0 <==> Load(buf, 8) == 0x1_0000_0000 - HEAD
  {
  }

  /** One turn of the loop at n. */
  lemma DrainAt(head: u32, buf: seq<byte>, n: nat)
    requires n <= |buf|
    ensures Drain(head, buf[n..]).endless <==> && HeaderAt(head, buf, n) && SizeAt(buf, n) <= |buf| - n
                                               && (SizeAt(buf, n) == 0 || Drain(head, buf[n + SizeAt(buf, n)..]).endless)
  {
    hide Drain;
    DrainStep(head, buf[n..]);
    if n + HEAD < |buf| && SizeAt(buf, n) <= |buf| - n {
      assert buf[n..][SizeAt(buf, n)..] == buf[n + SizeAt(buf, n)..];
    }
  }

  lemma {:induction false} LeadsThere(head: u32, buf: seq<byte>, n: nat, k: nat)
    requires LeadsToZero(head, buf, n, k)
    ensures n <= |buf| && Drain(head, buf[n..]).endless
    decreases k
  {
    hide Drain, Load;
    DrainAt(head, buf, n);
    if k > 0 {
      LeadsThere(head, buf, n + SizeAt(buf, n), k - 1);
    }
  }

  lemma {:induction false} IsLedThere(head: u32, buf: seq<byte>, n: nat) returns (k: nat)
    requires n <= |buf| && Drain(head, buf[n..]).endless
    ensures LeadsToZero(head, buf, n, k)
    decreases |buf| - n
  {
    hide Drain, Load;
    DrainAt(head, buf, n);
    if SizeAt(buf, n) == 0 {
      k := 0;
    } else {
      var k' := IsLedThere(head, buf, n + SizeAt(buf, n));
      k := k' + 1;
    }
  }

  /** The loop never ends if and only if the size fields lead to a header whose size field is 2^32 - 12. */
  lemma EndlessExactly(head: u32, buf: seq<byte>)
    ensures Drain(head, buf).endless <==> Hangs(head, buf)
  {
    hide Drain, LeadsToZero;
    assert buf[0..] == buf;
    if Drain(head, buf).endless {
      var k := IsLedThere(head, buf, 0);
    }
    if Hangs(head, buf) {
      var k: nat :| LeadsToZero(head, buf, 0, k);
      LeadsThere(head, buf, 0, k);
    }
  }

  /** Thirteen bytes on which it does not end. */
  lemma HangsOnThis(head: u32, kind: u32, more: byte)
    ensures Hangs(head, Store(head) + Store(kind) + Store(0x1_0000_0000 - HEAD) + [more])
  {
    hide Load, Store;
    var s0, s1, s2 := Store(head), Store(kind), Store(0x1_0000_0000 - HEAD);
    var buf := s0 + s1 + s2 + [more];
    LoadStore(head, [], s1 + s2 + [more]);
    LoadStore(0x1_0000_0000 - HEAD, s0 + s1, [more]);
    assert buf == [] + s0 + (s1 + s2 + [more]);
    assert LeadsToZero(head, buf, 0, 0);
  }

  // ---------- The loop, turn by turn ----------

  /** The variables of lines 100-124, with the packets called back. */
  datatype Turning = Turning(packets: seq<seq<byte>>, buf: seq<byte>, hasPack: bool)

  /** Line 100 */
  predicate Running(t: Turning) {
    t.hasPack && |t.buf| > HEAD
  }

  /** Lines 102-123 */
  function Turn(head: u32, t: Turning): Turning
    requires Running(t)
  {
    if Load(t.buf, 0) == head then
      var size := PackSize(t.buf);
      if size <= |t.buf| then Turning(t.packets + [t.buf[..size]], t.buf[size..], true) else t.(hasPack := false)
    else t.(buf := [])
  }

  /** After so many turns, or fewer if the loop ends before. */
  function After(head: u32, t: Turning, turns: nat): Turning
    decreases turns
  {
    if turns == 0 || !Running(t) then t else After(head, Turn(head, t), turns - 1)
  }

  lemma {:induction false} KeepsRunning(head: u32, t: Turning, turns: nat)
    requires t.hasPack && Drain(head, t.buf).endless
    ensures Running(After(head, t, turns))
    decreases turns
  {
    hide Drain, Load, PackSize;
    DrainStep(head, t.buf);
    if turns > 0 {
      if PackSize(t.buf) == 0 {
        assert t.buf[0..] == t.buf;
      }
      KeepsRunning(head, Turn(head, t), turns - 1);
    }
  }

  lemma {:induction false} Stops(head: u32, t: Turning) returns (turns: nat)
    requires t.hasPack && !Drain(head, t.buf).endless
    ensures var end, d := After(head, t, turns), Drain(head, t.buf);
            !Running(end) && end.packets == t.packets + d.packets && end.buf == d.rest
    decreases |t.buf|
  {
    hide Drain, Load, PackSize;
    DrainStep(head, t.buf);
    assert t.packets + [] == t.packets;
    if !Running(t) {
      turns := 0;
    } else {
      var next := Turn(head, t);
      if next.hasPack && next.buf != [] {
        var more := Stops(head, next);
        turns := more + 1;
        var size := PackSize(t.buf);
        assert t.packets + [t.buf[..size]] + Drain(head, next.buf).packets == t.packets + ([t.buf[..size]] + Drain(head, next.buf).packets);
      } else {
        turns := 1;
        assert After(head, next, 0) == next;
        DrainStep(head, []);
      }
    }
  }

  /**
   * After any number of turns the loop is still running if and only if the size fields lead to one of
   * 2^32 - 12; otherwise it ends, with the packets and the rest of Drain.
   */
  lemma RunsForEver(head: u32, buf: seq<byte>)
    ensures (forall turns :: Running(After(head, Turning([], buf, true), turns))) <==> Hangs(head, buf)
    ensures !Hangs(head, buf) ==>
              exists turns :: var end := After(head, Turning([], buf, true), turns);
                !Running(end) && end.packets == Drain(head, buf).packets && end.buf == Drain(head, buf).rest
  {
    hide Drain, Hangs, Running, After;
    EndlessExactly(head, buf);
    var t := Turning([], buf, true);
    if Hangs(head, buf) {
      forall turns: nat ensures Running(After(head, t, turns)) {
        KeepsRunning(head, t, turns);
      }
    } else {
      var turns := Stops(head, t);
      assert [] + Drain(head, buf).packets == Drain(head, buf).packets;
      assert !Running(After(head, t, turns));
    }
  }

  /** What is left of d after the packets were called back. */
  predicate Left(d: Drained, packets: seq<seq<byte>>, left: Drained) {
    d.packets == packets + left.packets && d.rest == left.rest && d.endless == left.endless
  }

  lemma LeftAtStart(d: Drained)
    ensures Left(d, [], d)
  {
    assert [] + d.packets == d.packets;
  }

  lemma LeftEnds(d: Drained, packets: seq<seq<byte>>, left: Drained)
    requires Left(d, packets, left)
    ensures left.endless == d.endless
  {
  }

  lemma Delivered(d: Drained, packets: seq<seq<byte>>, first: seq<byte>, left: Drained)
    requires Left(d, packets, Prepend([first], left))
    ensures Left(d, packets + [first], left)
  {
    assert packets + ([first] + left.packets) == packets + [first] + left.packets;
  }

  lemma DroppedAll(d: Drained, packets: seq<seq<byte>>)
    requires Left(d, packets, Drained([], [], true, false))
    ensures Left(d, packets, Drained([], [], false, false))
  {
  }

  lemma AllLeft(d: Drained, packets: seq<seq<byte>>, rest: seq<byte>)
    requires Left(d, packets, Drained([], rest, false, false))
    ensures d.packets == packets && d.rest == rest
  {
  }

  class PacketSync {
    /** read_data.base, of read_data.len bytes */
    var base: array<byte>
    var realPacketLen: nat
    var head: u32

    ghost predicate Valid()
      reads this, base
    {
      realPacketLen <= base.Length && realPacketLen <= INT_MAX
    }

    function Contents(): seq<byte>
      reads this, base
      requires realPacketLen <= base.Length
    {
      base[..realPacketLen]
    }

    constructor (packhead: u32)
      ensures Valid() && fresh(base) && head == packhead && Contents() == []
    {
      base, realPacketLen, head := new byte[BUFFER_SIZE], 0, packhead;
    }

    /** Lines 92-98: the data is appended, in a larger block if need be. */
    method Append(data: seq<byte>)
      requires Valid() && realPacketLen + |data| <= INT_MAX
      modifies this, base
      ensures Valid() && head == old(head) && Contents() == old(Contents()) + data && (base == old(base) || fresh(base))
    {
      if realPacketLen + |data| > base.Length {
        var larger := new byte[realPacketLen + |data|];
        forall k | 0 <= k < realPacketLen {
          larger[k] := base[k];
        }
        base := larger;
      }
      forall k | 0 <= k < |data| {
        base[realPacketLen + k] := data[k];
      }
      realPacketLen := realPacketLen + |data|;
    }

    /**
     * The packets are those called back, in order. The call is allowed when the lengths stay in the
     * range of int, and when the loop ends: see EndlessExactly.
     */
    method OnRecvData(data: seq<byte>) returns (packets: seq<seq<byte>>)
      requires Valid() && realPacketLen + |data| <= INT_MAX
      requires !Hangs(head, Contents() + data)
      modifies this, base
      ensures Valid() && head == old(head) && (base == old(base) || fresh(base))
      ensures var d := Drain(head, old(Contents()) + data); packets == d.packets && Contents() == d.rest
    {
      hide Drain, Load, PackSize, Left, Prepend, Hangs;
      EndlessExactly(head, Contents() + data);
      ghost var d := Drain(head, Contents() + data);
      Append(data);
      packets := [];
      LeftAtStart(d);
      var hasPack := true;
      while hasPack && realPacketLen > HEAD
        invariant Valid() && head == old(head) && (base == old(base) || fresh(base)) && !d.endless
        invariant Left(d, packets, if hasPack then Drain(head, Contents()) else Drained([], Contents(), false, false))
        decreases hasPack, realPacketLen
      {
        var buf := Contents();
        DrainStep(head, buf);
        var size := PackSize(buf);
        if Load(buf, 0) == head {
          LeftEnds(d, packets, Drain(head, buf));
          if size <= realPacketLen {
            Delivered(d, packets, buf[..size], Drain(head, buf[size..]));
            packets := packets + [buf[..size]];
            Remove(size);
          } else {
            hasPack := false;
          }
        } else {
          DroppedAll(d, packets);
          realPacketLen := 0;
          DrainStep(head, []);
          assert Contents() == [];
        }
      }
      DrainStep(head, Contents());
      AllLeft(d, packets, Contents());
    }

    /** One call for each chunk. */
    method Receive(chunks: seq<seq<byte>>) returns (packets: seq<seq<byte>>)
      requires Valid() && Contents() == [] && |Concat(chunks)| <= INT_MAX
      requires forall i :: 0 <= i < |chunks| ==> !Hangs(head, Feed(head, chunks[..i]).rest + chunks[i])
      modifies this, base
      ensures Valid() && head == old(head)
      ensures packets == Feed(head, chunks).packets && Contents() == Feed(head, chunks).rest
    {
      hide Drain, Hangs, Concat;
      packets := [];
      for i := 0 to |chunks|
        invariant Valid() && head == old(head) && (base == old(base) || fresh(base))
        invariant packets == Feed(head, chunks[..i]).packets && Contents() == Feed(head, chunks[..i]).rest
      {
        FeedMore(head, chunks, i);
        var more := OnRecvData(chunks[i]);
        packets := packets + more;
      }
      assert chunks[..|chunks|] == chunks;
    }

    /** A stream of packets, in whatever chunks it comes. */
    method ReceiveStream(chunks: seq<seq<byte>>, ghost all: seq<Packet>, ghost k: nat, ghost tail: seq<byte>) returns (packets: seq<seq<byte>>)
      requires Valid() && Contents() == [] && |Concat(chunks)| <= INT_MAX
      requires (forall p :: p in all ==> Fits(p)) && k <= |all| && Begun(head, tail)
      requires Concat(chunks) == EncodeAll(head, all[..k]) + tail && Concat(chunks) <= EncodeAll(head, all)
      modifies this, base
      ensures Valid() && head == old(head)
      ensures var d := Expected(head, all[..k], tail); packets == d.packets && Contents() == d.rest
    {
      hide Drain, Hangs, Concat, Feed, Expected, EncodeAll, Begun;
      StreamEnds(head, all, chunks);
      ChunksDoNotMatter(head, all, chunks, k, tail);
      packets := Receive(chunks);
    }

    /** Lines 114-115: memmove of what is behind the first packet to the front. */
    method Remove(size: nat)
      requires Valid() && size <= realPacketLen
      modifies this`realPacketLen, base
      ensures Valid() && Contents() == old(Contents())[size..]
    {
      forall k | 0 <= k < realPacketLen - size {
        base[k] := base[size + k];
      }
      realPacketLen := realPacketLen - size;
    }
  }

  // ---------- Cutting the stream anywhere makes no difference ----------

  /** Fed the rest of a call and more bytes, the parser goes on as if they had come together. */
  lemma {:induction false} DrainOfMore(head: u32, a: seq<byte>, b: seq<byte>)
    requires !Drain(head, a).dropped && !Drain(head, a).endless
    ensures Drain(head, a + b) == Prepend(Drain(head, a).packets, Drain(head, Drain(head, a).rest + b))
    decreases |a|
  {
    hide Drain, Load, PackSize;
    DrainStep(head, a);
    if |a| > HEAD && Load(a, 0) == head && PackSize(a) <= |a| {
      var size := PackSize(a);
      SameHeader(a, b);
      DrainOfMore(head, a[size..], b);
      DrainStep(head, a + b);
      assert (a + b)[..size] == a[..size] && (a + b)[size..] == a[size..] + b;
      PrependTwice([a[..size]], Drain(head, a[size..]).packets, Drain(head, Drain(head, a[size..]).rest + b));
    } else {
      assert [] + Drain(head, a + b).packets == Drain(head, a + b).packets;
    }
  }

  lemma PrependTwice(p: seq<seq<byte>>, q: seq<seq<byte>>, d: Drained)
    ensures Prepend(p, Prepend(q, d)) == Prepend(p + q, d)
  {
    assert p + (q + d.packets) == p + q + d.packets;
  }

  lemma SameHeader(a: seq<byte>, b: seq<byte>)
    requires |a| > HEAD
    ensures Load(a + b, 0) == Load(a, 0) && PackSize(a + b) == PackSize(a)
  {
  }

  function Concat(chunks: seq<seq<byte>>): seq<byte> {
    if chunks == [] then [] else Concat(chunks[..|chunks| - 1]) + chunks[|chunks| - 1]
  }

  /** The calls of OnRecvData for the chunks, one after the other. */
  function Feed(head: u32, chunks: seq<seq<byte>>): Drained {
    if chunks == [] then Drained([], [], false, false)
    else
      var d := Feed(head, chunks[..|chunks| - 1]);
      Prepend(d.packets, Drain(head, d.rest + chunks[|chunks| - 1]))
  }

  /** A stream none of whose prefixes makes the parser drop bytes or hang. */
  ghost predicate Clean(head: u32, stream: seq<byte>) {
    forall n :: 0 <= n <= |stream| ==> !Drain(head, stream[..n]).dropped && !Drain(head, stream[..n]).endless
  }

  lemma {:induction false} FeedIsDrain(head: u32, chunks: seq<seq<byte>>, stream: seq<byte>)
    requires Clean(head, stream) && Concat(chunks) <= stream
    ensures Feed(head, chunks) == Drain(head, Concat(chunks))
    decreases |chunks|
  {
    hide Drain;
    if chunks == [] {
      DrainStep(head, []);
    } else {
      var front, last := chunks[..|chunks| - 1], chunks[|chunks| - 1];
      assert stream[..|Concat(front)|] == Concat(front);
      FeedIsDrain(head, front, stream);
      DrainOfMore(head, Concat(front), last);
    }
  }

  /** Another chunk; what is kept is never more than what came. */
  lemma {:induction false} FeedMore(head: u32, chunks: seq<seq<byte>>, i: nat)
    requires i < |chunks|
    ensures Feed(head, chunks[..i + 1])
         == Prepend(Feed(head, chunks[..i]).packets, Drain(head, Feed(head, chunks[..i]).rest + chunks[i]))
    ensures |Feed(head, chunks[..i]).rest| + |chunks[i]| <= |Concat(chunks)|
  {
    hide Drain, Concat;
    assert chunks[..i + 1][..i] == chunks[..i];
    KeptIsLess(head, chunks[..i]);
    assert chunks[..i + 1][..i] == chunks[..i] && chunks[..i + 1][i] == chunks[i];
    ConcatLast(chunks[..i + 1]);
    ConcatPrefix(chunks, i + 1);
  }

  lemma ConcatLast(chunks: seq<seq<byte>>)
    requires chunks != []
    ensures Concat(chunks) == Concat(chunks[..|chunks| - 1]) + chunks[|chunks| - 1]
  {
  }

  lemma {:induction false} ConcatPrefix(chunks: seq<seq<byte>>, i: nat)
    requires i <= |chunks|
    ensures Concat(chunks[..i]) <= Concat(chunks)
    decreases |chunks|
  {
    hide Concat;
    if i < |chunks| {
      ConcatLast(chunks);
      assert chunks[..|chunks| - 1][..i] == chunks[..i];
      ConcatPrefix(chunks[..|chunks| - 1], i);
    } else {
      assert chunks[..i] == chunks;
    }
  }

  lemma {:induction false} DrainKeepsLess(head: u32, buf: seq<byte>)
    ensures |Drain(head, buf).rest| <= |buf|
    decreases |buf|
  {
    hide Drain, Load, PackSize;
    DrainStep(head, buf);
    if |buf| > HEAD && Load(buf, 0) == head && 0 < PackSize(buf) <= |buf| {
      DrainKeepsLess(head, buf[PackSize(buf)..]);
    } else if |buf| > HEAD && Load(buf, 0) == head && PackSize(buf) == 0 {
      DrainOfZero(head, buf);
    }
  }

  lemma DrainOfZero(head: u32, buf: seq<byte>)
    requires |buf| > HEAD && Load(buf, 0) == head && PackSize(buf) == 0
    ensures Drain(head, buf).rest == buf
  {
    hide Load;
  }

  lemma {:induction false} KeptIsLess(head: u32, chunks: seq<seq<byte>>)
    ensures |Feed(head, chunks).rest| <= |Concat(chunks)|
    decreases |chunks|
  {
    hide Drain, Concat;
    if chunks != [] {
      var front, last := chunks[..|chunks| - 1], chunks[|chunks| - 1];
      KeptIsLess(head, front);
      DrainKeepsLess(head, Feed(head, front).rest + last);
      ConcatLast(chunks);
    }
  }

  // ---------- Streams of packets ----------

  /** The bytes of a uint32_t. */
  function Store(n: u32): (b: seq<byte>)
    ensures |b| == 4
  {
    [n % 256, n / 256 % 256, n / 65536 % 256, n / 16777216]
  }

  /** A packet whose size field does not wrap. */
  datatype Packet = Packet(kind: u32, payload: seq<byte>)

  predicate Fits(p: Packet) {
    |p.payload| + HEAD < 0x1_0000_0000
  }

  function Encode(head: u32, p: Packet): (b: seq<byte>)
    requires Fits(p)
    ensures |b| == HEAD + |p.payload|
  {
    Store(head) + Store(p.kind) + Store(|p.payload|) + p.payload
  }

  function EncodeAll(head: u32, ps: seq<Packet>): seq<byte>
    requires forall p :: p in ps ==> Fits(p)
  {
    if ps == [] then [] else Encode(head, ps[0]) + EncodeAll(head, ps[1..])
  }

  function Images(head: u32, ps: seq<Packet>): seq<seq<byte>>
    requires forall p :: p in ps ==> Fits(p)
  {
    seq(|ps|, i requires 0 <= i < |ps| => Encode(head, ps[i]))
  }

  lemma LoadStore(n: u32, before: seq<byte>, after: seq<byte>)
    ensures Load(before + Store(n) + after, |before|) == n
  {
    var b := before + Store(n) + after;
    var k := |before|;
    assert b[k] == n % 256 && b[k + 1] == n / 256 % 256 && b[k + 2] == n / 65536 % 256 && b[k + 3] == n / 16777216;
    Digits(n);
  }

  lemma Digits(n: nat)
    ensures n == n % 256 + 256 * (n / 256 % 256) + 65536 * (n / 65536 % 256) + 16777216 * (n / 16777216)
  {
    assert n / 256 / 256 == n / 65536 && n / 65536 / 256 == n / 16777216;
  }

  /** A buffer that starts with a whole header is cut by it. */
  lemma Header(head: u32, p: Packet, n: nat, more: seq<byte>)
    requires Fits(p) && HEAD <= n <= |Encode(head, p)|
    ensures var buf := Encode(head, p)[..n] + more;
            |buf| > HEAD ==> Load(buf, 0) == head && PackSize(buf) == |Encode(head, p)|
  {
    var all := Encode(head, p);
    var buf := all[..n] + more;
    var s0, s1, s2 := Store(head), Store(p.kind), Store(|p.payload|);
    if |buf| > HEAD {
      LoadStore(head, [], s1 + s2 + buf[HEAD..]);
      LoadStore(|p.payload|, s0 + s1, buf[HEAD..]);
      assert buf == [] + s0 + (s1 + s2 + buf[HEAD..]);
      assert buf == s0 + s1 + s2 + buf[HEAD..];
    }
  }

  /** Bytes that begin a packet and do not complete one. */
  ghost predicate Begun(head: u32, tail: seq<byte>) {
    exists p: Packet, n: nat :: Fits(p) && n < |Encode(head, p)| && tail == Encode(head, p)[..n]
  }

  /** A last packet without payload is only called back when another byte has come, line 100. */
  predicate Withheld(ps: seq<Packet>, tail: seq<byte>) {
    ps != [] && tail == [] && ps[|ps| - 1].payload == []
  }

  /** What the parser makes of whole packets and the beginning of another. */
  function Expected(head: u32, ps: seq<Packet>, tail: seq<byte>): Drained
    requires forall p :: p in ps ==> Fits(p)
  {
    if Withheld(ps, tail) then Drained(Images(head, ps[..|ps| - 1]), Encode(head, ps[|ps| - 1]), false, false)
    else Drained(Images(head, ps), tail, false, false)
  }

  lemma DrainOfTail(head: u32, tail: seq<byte>)
    requires Begun(head, tail)
    ensures Drain(head, tail) == Drained([], tail, false, false)
  {
    hide Drain, Encode, Load, PackSize;
    var p: Packet, n: nat :| Fits(p) && n < |Encode(head, p)| && tail == Encode(head, p)[..n];
    DrainStep(head, tail);
    if n > HEAD {
      Header(head, p, n, []);
      assert Encode(head, p)[..n] + [] == tail;
    }
  }

  lemma {:induction false} DrainOfStream(head: u32, ps: seq<Packet>, tail: seq<byte>)
    requires (forall p :: p in ps ==> Fits(p)) && Begun(head, tail)
    ensures Drain(head, EncodeAll(head, ps) + tail) == Expected(head, ps, tail)
    decreases |ps|
  {
    hide Drain, Encode, Load, PackSize, Begun, Images;
    if ps == [] {
      DrainOfTail(head, tail);
      assert EncodeAll(head, ps) + tail == tail;
      NoImages(head);
    } else {
      var first, rest, more := Encode(head, ps[0]), ps[1..], EncodeAll(head, ps[1..]) + tail;
      var buf := EncodeAll(head, ps) + tail;
      assert buf == first + more;
      DrainStep(head, buf);
      if |buf| == HEAD {
        assert rest == [] by { NoBytes(head, rest); }
        assert ps == [ps[0]] && buf == first && ps[..0] == [];
        NoImages(head);
      } else {
        DrainFirst(head, ps[0], more);
        DrainOfStream(head, rest, tail);
        LastOfOne(head, ps, tail);
        ExpectedCons(head, ps, tail);
      }
    }
  }

  lemma NoImages(head: u32)
    ensures Images(head, []) == []
  {
  }

  /** The first packet is cut off when anything follows it, or it has a payload. */
  lemma DrainFirst(head: u32, p: Packet, more: seq<byte>)
    requires Fits(p) && |Encode(head, p) + more| > HEAD
    ensures Drain(head, Encode(head, p) + more) == Prepend([Encode(head, p)], Drain(head, more))
  {
    hide Drain, Encode, Load, PackSize;
    var first := Encode(head, p);
    var buf := first + more;
    assert first[..|first|] == first && buf[..|first|] == first && buf[|first|..] == more;
    Header(head, p, |first|, more);
    DrainStep(head, buf);
  }

  lemma ExpectedCons(head: u32, ps: seq<Packet>, tail: seq<byte>)
    requires ps != [] && (forall p :: p in ps ==> Fits(p)) && (Withheld(ps, tail) ==> |ps| > 1)
    ensures Expected(head, ps, tail) == Prepend([Encode(head, ps[0])], Expected(head, ps[1..], tail))
  {
    hide Encode, Images;
    ImagesCons(head, ps);
    if Withheld(ps, tail) {
      var front := ps[..|ps| - 1];
      assert front[1..] == ps[1..][..|ps| - 2];
      ImagesCons(head, front);
    }
  }

  lemma NoBytes(head: u32, ps: seq<Packet>)
    requires (forall p :: p in ps ==> Fits(p)) && EncodeAll(head, ps) == []
    ensures ps == []
  {
  }

  /** Only a withheld packet alone in the buffer makes it as short as a header. */
  lemma LastOfOne(head: u32, ps: seq<Packet>, tail: seq<byte>)
    requires forall p :: p in ps ==> Fits(p)
    ensures Withheld(ps, tail) && |EncodeAll(head, ps) + tail| != HEAD ==> |ps| > 1
  {
    if |ps| == 1 {
      assert EncodeAll(head, ps[1..]) == [];
    }
  }

  lemma ImagesCons(head: u32, ps: seq<Packet>)
    requires ps != [] && forall p :: p in ps ==> Fits(p)
    ensures Images(head, ps) == [Encode(head, ps[0])] + Images(head, ps[1..])
  {
  }

  /** Every beginning of a stream is some whole packets and the beginning of the next. */
  lemma {:induction false} Cut(head: u32, all: seq<Packet>, n: nat) returns (k: nat, tail: seq<byte>)
    requires (forall p :: p in all ==> Fits(p)) && n <= |EncodeAll(head, all)|
    ensures k <= |all| && Begun(head, tail) && EncodeAll(head, all)[..n] == EncodeAll(head, all[..k]) + tail
    decreases |all|
  {
    hide Encode;
    if all == [] {
      k, tail := 0, [];
      assert Encode(head, Packet(0, []))[..0] == tail && Fits(Packet(0, []));
    } else {
      var first := Encode(head, all[0]);
      if n < |first| {
        k, tail := 0, first[..n];
        assert EncodeAll(head, all)[..n] == [] + tail;
      } else {
        var k';
        k', tail := Cut(head, all[1..], n - |first|);
        k := k' + 1;
        assert all[..k][1..] == all[1..][..k'];
        assert EncodeAll(head, all)[..n] == first + EncodeAll(head, all[1..])[..n - |first|];
        assert first + (EncodeAll(head, all[1..][..k']) + tail) == first + EncodeAll(head, all[1..][..k']) + tail;
      }
    }
  }

  lemma StreamIsClean(head: u32, all: seq<Packet>)
    requires forall p :: p in all ==> Fits(p)
    ensures Clean(head, EncodeAll(head, all))
  {
    hide Drain, Expected, EncodeAll, Begun;
    forall n | 0 <= n <= |EncodeAll(head, all)|
      ensures !Drain(head, EncodeAll(head, all)[..n]).dropped && !Drain(head, EncodeAll(head, all)[..n]).endless {
      var k, tail := Cut(head, all, n);
      DrainOfStream(head, all[..k], tail);
      ExpectedIsClean(head, all[..k], tail);
    }
  }

  /** On no beginning of a stream of packets, however it was cut, does the loop go on for ever. */
  lemma StreamEnds(head: u32, all: seq<Packet>, chunks: seq<seq<byte>>)
    requires (forall p :: p in all ==> Fits(p)) && Concat(chunks) <= EncodeAll(head, all)
    ensures forall i :: 0 <= i < |chunks| ==> !Hangs(head, Feed(head, chunks[..i]).rest + chunks[i])
  {
    hide Drain, EncodeAll, Feed, Hangs, Concat;
    var stream := EncodeAll(head, all);
    StreamIsClean(head, all);
    forall i | 0 <= i < |chunks| ensures !Hangs(head, Feed(head, chunks[..i]).rest + chunks[i]) {
      ConcatPrefix(chunks, i + 1);
      FeedIsDrain(head, chunks[..i + 1], stream);
      FeedMore(head, chunks, i);
      assert stream[..|Concat(chunks[..i + 1])|] == Concat(chunks[..i + 1]);
      EndlessExactly(head, Feed(head, chunks[..i]).rest + chunks[i]);
    }
  }

  lemma ExpectedIsClean(head: u32, ps: seq<Packet>, tail: seq<byte>)
    requires forall p :: p in ps ==> Fits(p)
    ensures !Expected(head, ps, tail).dropped && !Expected(head, ps, tail).endless
  {
  }

  /**
   * However a stream of packets is cut into chunks: once the chunks make up k packets and the
   * beginning of another, exactly those packets were called back, in order, and the buffer holds
   * exactly the beginning; only a last packet without payload is still held back.
   */
  lemma ChunksDoNotMatter(head: u32, all: seq<Packet>, chunks: seq<seq<byte>>, k: nat, tail: seq<byte>)
    requires (forall p :: p in all ==> Fits(p)) && k <= |all| && Begun(head, tail)
    requires Concat(chunks) == EncodeAll(head, all[..k]) + tail && Concat(chunks) <= EncodeAll(head, all)
    ensures Feed(head, chunks) == Expected(head, all[..k], tail)
  {
    hide Drain, Expected, EncodeAll, Begun, Feed, Clean;
    StreamIsClean(head, all);
    FeedIsDrain(head, chunks, EncodeAll(head, all));
    DrainOfStream(head, all[..k], tail);
  }

  /** A packet without payload waits for one more byte. */
  lemma EmptyPacketWaits(head: u32, kind: u32, more: byte)
    ensures var packet := Store(head) + Store(kind) + Store(0);
            Drain(head, packet) == Drained([], packet, false, false) && Drain(head, packet + [more]) == Drained([packet], [more], false, false)
  {
    hide Load, Store;
    var packet := Store(head) + Store(kind) + Store(0);
    LoadStore(head, [], Store(kind) + Store(0) + [more]);
    LoadStore(0, Store(head) + Store(kind), [more]);
    assert packet + [more] == [] + Store(head) + (Store(kind) + Store(0) + [more]);
    assert packet + [more] == Store(head) + Store(kind) + Store(0) + [more];
    DrainStep(head, packet);
    DrainStep(head, packet + [more]);
    assert (packet + [more])[..12] == packet && (packet + [more])[12..] == [more];
    DrainStep(head, [more]);
    assert [packet] + [] == [packet];
  }

  /** With a wrong flag everything is thrown away. */
  lemma WrongFlagDrops(head: u32, buf: seq<byte>)
    requires |buf| > 12 && Load(buf, 0) != head
    ensures Drain(head, buf).packets == [] && Drain(head, buf).rest == []
  {
    hide Load;
  }
}
