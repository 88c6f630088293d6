/**
 * What becomes of the buffers of one request in uv__write of libuv/src/unix/stream.c: one write(2)
 * or writev(2), and the repetition of it on a blocking stream, on values. The kernel is a list of
 * the outcomes it has in store; past its end every write is complete.
 */
module Writes {
  import opened Bytes

  const UV_EAGAIN := -11

  /** An error of write(2); those that WRITE_RETRY_ON_ERROR names are the outcome Retry. */
  type Error = e: int | e < 0 && e != UV_EAGAIN witness -1

  /** What write(2) or writev(2) says, once it does not say EINTR. */
  datatype Outcome = Wrote(n: nat) | Retry | Fail(error: Error)

  /** Bytes taken so far, the error if there was one, the buffers left, and what the kernel has left in store. */
  datatype Sending = Sending(taken: nat, error: int, left: seq<seq<byte>>, kernel: seq<Outcome>)

  function Concat(bufs: seq<seq<byte>>): seq<byte> {
    if bufs == [] then [] else bufs[0] + Concat(bufs[1..])
  }

  /** uv__count_bufs */
  function CountBufs(bufs: seq<seq<byte>>): (n: nat)
    ensures n == |Concat(bufs)|
  {
    if bufs == [] then 0 else |bufs[0]| + CountBufs(bufs[1..])
  }

  /** The buffers after their first n bytes, without the buffers that end there. */
  function Skip(bufs: seq<seq<byte>>, n: nat): (r: seq<seq<byte>>)
    ensures |r| <= |bufs| && (bufs != [] && n >= |bufs[0]| ==> |r| < |bufs|)
  {
    if bufs == [] then []
    else if n < |bufs[0]| then [bufs[0][n..]] + bufs[1..]
    else Skip(bufs[1..], n - |bufs[0]|)
  }

  /** At most iovMax buffers go into one write. */
  function Clip(bufs: seq<seq<byte>>, iovMax: nat): seq<seq<byte>> {
    if |bufs| > iovMax then bufs[..iovMax] else bufs
  }

  /** What the kernel makes of the next `total` bytes. */
  function Answer(kernel: seq<Outcome>, total: nat): (o: Outcome)
    ensures o.Wrote? ==> o.n <= total
  {
    if kernel == [] || (kernel[0].Wrote? && kernel[0].n > total) then Wrote(total) else kernel[0]
  }

  function Later(kernel: seq<Outcome>): seq<Outcome> {
    if kernel == [] then [] else kernel[1..]
  }

  /** One write. */
  function Step(left: seq<seq<byte>>, kernel: seq<Outcome>, iovMax: nat): Sending {
    match Answer(kernel, CountBufs(Clip(left, iovMax)))
    case Wrote(n) => Sending(n, 0, Skip(left, n), Later(kernel))
    case Retry => Sending(0, 0, left, Later(kernel))
    case Fail(error) => Sending(0, error, left, Later(kernel))
  }

  /** The request is completed or has failed. */
  predicate Over(s: Sending) {
    s.error != 0 || s.left == []
  }

  /** uv__write for the head request: one write, or on a blocking stream as many as it takes. */
  function Send(left: seq<seq<byte>>, kernel: seq<Outcome>, iovMax: nat, blocking: bool): Sending
    decreases |kernel|, |left|
  {
    var s := Step(left, kernel, iovMax);
    if left == [] || iovMax == 0 || Over(s) || !blocking then s
    else
      StepShrinks(left, kernel, iovMax);
      Sooner(s.taken, Send(s.left, s.kernel, iovMax, blocking))
  }

  /** t, after so many bytes were taken before. */
  function Sooner(taken: nat, t: Sending): Sending {
    t.(taken := taken + t.taken)
  }

  lemma SendStep(left: seq<seq<byte>>, kernel: seq<Outcome>, iovMax: nat, blocking: bool, gone: nat)
    requires left != [] && iovMax > 0
    ensures var s, all := Step(left, kernel, iovMax), Sooner(gone, Send(left, kernel, iovMax, blocking));
            if Over(s) || !blocking then all == Sooner(gone, s)
            else all == Sooner(gone + s.taken, Send(s.left, s.kernel, iovMax, blocking))
  {
    hide Step;
  }

  lemma StepShrinks(left: seq<seq<byte>>, kernel: seq<Outcome>, iovMax: nat)
    requires left != [] && iovMax > 0
    ensures var s := Step(left, kernel, iovMax);
            |s.kernel| < |kernel| || (s.kernel == kernel == [] && |s.left| < |left|)
  {
    assert Clip(left, iovMax)[0] == left[0];
  }

  // ---------- Bytes and buffers ----------

  lemma Grouped<T>(a: seq<T>, b: seq<T>, c: seq<T>)
    ensures a + (b + c) == a + b + c
  {
  }

  lemma {:induction false} ConcatSplit(a: seq<seq<byte>>, b: seq<seq<byte>>)
    ensures Concat(a + b) == Concat(a) + Concat(b)
  {
    if a == [] {
      assert a + b == b;
    } else {
      ConcatSplit(a[1..], b);
      assert (a + b)[1..] == a[1..] + b;
      Grouped(a[0], Concat(a[1..]), Concat(b));
    }
  }

  lemma OneBuf(b: seq<byte>)
    ensures Concat([b]) == b && CountBufs([b]) == |b|
  {
    assert [b][1..] == [] && b + [] == b;
  }

  lemma Drop2<T>(a: seq<T>, b: seq<T>, n: nat)
    requires n <= |a + b|
    ensures (a + b)[n..] == if n < |a| then a[n..] + b else b[n - |a|..]
  {
  }

  /** Skipping n bytes leaves all others, and no buffer just when nothing is left. */
  lemma {:induction false} SkipConcat(bufs: seq<seq<byte>>, n: nat)
    requires n <= |Concat(bufs)|
    ensures Concat(Skip(bufs, n)) == Concat(bufs)[n..]
    ensures Skip(bufs, n) == [] <==> n == |Concat(bufs)|
  {
    if bufs != [] {
      Drop2(bufs[0], Concat(bufs[1..]), n);
      if n < |bufs[0]| {
        assert Skip(bufs, n)[1..] == bufs[1..];
      } else {
        SkipConcat(bufs[1..], n - |bufs[0]|);
      }
    }
  }

  lemma ClipFits(bufs: seq<seq<byte>>, iovMax: nat)
    ensures CountBufs(Clip(bufs, iovMax)) <= |Concat(bufs)|
  {
    if |bufs| > iovMax {
      assert bufs == bufs[..iovMax] + bufs[iovMax..];
      ConcatSplit(bufs[..iovMax], bufs[iovMax..]);
    }
  }

  /** A write takes no more than there is; what it leaves is the rest of the bytes. */
  lemma StepTakes(left: seq<seq<byte>>, kernel: seq<Outcome>, iovMax: nat)
    ensures var s := Step(left, kernel, iovMax);
            s.taken <= |Concat(left)| && Concat(s.left) == Concat(left)[s.taken..]
            && (left != [] && s.left == [] ==> s.taken == |Concat(left)|)
  {
    hide Concat, Skip;
    ClipFits(left, iovMax);
    var s := Step(left, kernel, iovMax);
    SkipConcat(left, s.taken);
  }

  // ---------- What becomes of each answer ----------

  /** How many bytes the kernel takes if it takes some: it is offered at most iovMax buffers. */
  function Takes(left: seq<seq<byte>>, kernel: seq<Outcome>, iovMax: nat): nat
    requires kernel == [] || kernel[0].Wrote?
  {
    var offered := |Concat(if |left| > iovMax then left[..iovMax] else left)|;
    if kernel == [] || kernel[0].n > offered then offered else kernel[0].n
  }

  /** An answer to try again changes nothing: a stream that does not block waits, a blocking one goes on with the next. */
  lemma RetryIsNothing(left: seq<seq<byte>>, kernel: seq<Outcome>, iovMax: nat, blocking: bool)
    requires left != [] && iovMax > 0 && kernel != [] && kernel[0].Retry?
    ensures Send(left, kernel, iovMax, blocking) == if blocking then Send(left, kernel[1..], iovMax, blocking) else Sending(0, 0, left, kernel[1..])
  {
  }

  lemma FailureIsFinal(left: seq<seq<byte>>, kernel: seq<Outcome>, iovMax: nat, blocking: bool)
    requires left != [] && iovMax > 0 && kernel != [] && kernel[0].Fail?
    ensures Send(left, kernel, iovMax, blocking) == Sending(0, kernel[0].error, left, kernel[1..])
  {
  }

  /** Bytes that are taken are gone from the front; a blocking stream goes on if there are more. */
  lemma WroteGoesOn(left: seq<seq<byte>>, kernel: seq<Outcome>, iovMax: nat, blocking: bool)
    requires left != [] && iovMax > 0 && (kernel == [] || kernel[0].Wrote?)
    ensures var n, rest, s := Takes(left, kernel, iovMax), if kernel == [] then [] else kernel[1..], Send(left, kernel, iovMax, blocking);
            && n <= |Concat(left)|
            && (n == |Concat(left)| ==> s == Sending(n, 0, [], rest))
            && (n < |Concat(left)| && !blocking ==> s.taken == n && s.error == 0 && s.left != [] && s.kernel == rest && Concat(s.left) == Concat(left)[n..])
            && (n < |Concat(left)| && blocking ==> exists more ::
                  more != [] && Concat(more) == Concat(left)[n..] && s == Sooner(n, Send(more, rest, iovMax, blocking)))
  {
    hide Concat, Skip;
    ClipFits(left, iovMax);
    var n := Takes(left, kernel, iovMax);
    SkipConcat(left, n);
    var s := Step(left, kernel, iovMax);
    assert s == Sending(n, 0, Skip(left, n), Later(kernel));
    SendStep(left, kernel, iovMax, blocking, 0);
    if n < |Concat(left)| && blocking {
      var more := Skip(left, n);
      assert Send(left, kernel, iovMax, blocking) == Sooner(n, Send(more, Later(kernel), iovMax, blocking));
    }
  }

  /** What one answer makes of a stream that does not block, and an error of any. */
  lemma OneWriteIs(left: seq<seq<byte>>, kernel: seq<Outcome>, iovMax: nat)
    requires left != [] && iovMax > 0
    ensures kernel != [] && kernel[0].Retry? ==> Send(left, kernel, iovMax, false) == Sending(0, 0, left, kernel[1..])
    ensures kernel != [] && kernel[0].Fail? ==>
              forall blocking :: Send(left, kernel, iovMax, blocking) == Sending(0, kernel[0].error, left, kernel[1..])
    ensures kernel == [] || kernel[0].Wrote? ==>
              var offered := |Concat(if |left| > iovMax then left[..iovMax] else left)|;
              var n := if kernel == [] || kernel[0].n > offered then offered else kernel[0].n;
              var s := Send(left, kernel, iovMax, false);
              s.taken == n && s.error == 0 && (s.left == [] <==> n == |Concat(left)|)
  {
    hide Send, Concat;
    if kernel != [] && kernel[0].Retry? {
      RetryIsNothing(left, kernel, iovMax, false);
    } else if kernel != [] && kernel[0].Fail? {
      forall blocking ensures Send(left, kernel, iovMax, blocking) == Sending(0, kernel[0].error, left, kernel[1..]) {
        FailureIsFinal(left, kernel, iovMax, blocking);
      }
    } else {
      WroteGoesOn(left, kernel, iovMax, false);
    }
  }

  /** The error of a request is that of the last answer used, and no other answer used was an error. */
  lemma {:induction false} ErrorsAreAnswers(left: seq<seq<byte>>, kernel: seq<Outcome>, iovMax: nat, blocking: bool)
    requires left != [] && iovMax > 0
    ensures var s := Send(left, kernel, iovMax, blocking);
            var used := |kernel| - |s.kernel|;
            && used >= 0 && s.kernel == kernel[used..]
            && (s.error != 0 ==> used > 0 && kernel[used - 1].Fail? && kernel[used - 1].error == s.error)
            && (forall i :: 0 <= i < used && (s.error == 0 || i < used - 1) ==> !kernel[i].Fail?)
    decreases |kernel|, |left|
  {
    hide Send, Step, Clip, Skip, CountBufs;
    var s := Step(left, kernel, iovMax);
    StepUses(left, kernel, iovMax);
    SendStep(left, kernel, iovMax, blocking, 0);
    if !Over(s) && blocking {
      StepShrinks(left, kernel, iovMax);
      ErrorsAreAnswers(s.left, s.kernel, iovMax, blocking);
      UsedOneMore(kernel, Send(s.left, s.kernel, iovMax, blocking).kernel, Send(s.left, s.kernel, iovMax, blocking).error);
    }
  }

  lemma StepUses(left: seq<seq<byte>>, kernel: seq<Outcome>, iovMax: nat)
    ensures var s := Step(left, kernel, iovMax);
            && s.kernel == (if kernel == [] then [] else kernel[1..])
            && (if kernel != [] && kernel[0].Fail? then s.error == kernel[0].error else s.error == 0)
  {
    hide CountBufs, Skip, Clip;
  }

  lemma UsedOneMore(kernel: seq<Outcome>, rest: seq<Outcome>, error: int)
    requires kernel != [] ==> !kernel[0].Fail?
    requires var k := if kernel == [] then [] else kernel[1..];
             var used := |k| - |rest|;
             && used >= 0 && rest == k[used..]
             && (error != 0 ==> used > 0 && k[used - 1].Fail? && k[used - 1].error == error)
             && (forall i :: 0 <= i < used && (error == 0 || i < used - 1) ==> !k[i].Fail?)
    ensures var used := |kernel| - |rest|;
            && used >= 0 && rest == kernel[used..]
            && (error != 0 ==> used > 0 && kernel[used - 1].Fail? && kernel[used - 1].error == error)
            && (forall i :: 0 <= i < used && (error == 0 || i < used - 1) ==> !kernel[i].Fail?)
  {
    if kernel != [] {
      assert kernel == [kernel[0]] + kernel[1..];
    }
  }

  // ---------- uv_try_write ----------

  /** What uv_try_write returns when `taken` of `total` bytes went out: the bytes, or UV_EAGAIN for none of some. */
  function TryResult(total: nat, taken: nat): int {
    if taken == 0 && total != 0 then UV_EAGAIN else taken
  }

  /** The error of a write is never what uv_try_write returns. */
  lemma {:induction false} ErrorIsHidden(left: seq<seq<byte>>, kernel: seq<Outcome>, iovMax: nat, blocking: bool, total: nat)
    requires left != [] && iovMax > 0
    ensures var s := Send(left, kernel, iovMax, blocking);
            s.error != 0 ==> s.error < 0 && TryResult(total, s.taken) != s.error
    decreases |kernel|, |left|
  {
    hide Clip, Skip, CountBufs;
    var s := Step(left, kernel, iovMax);
    if !Over(s) && blocking {
      StepShrinks(left, kernel, iovMax);
      ErrorIsHidden(s.left, s.kernel, iovMax, blocking, total);
    }
  }

  /** A first write that fails: UV_EAGAIN, but 0 when there was nothing to write. */
  lemma FirstFails(bufs: seq<seq<byte>>, error: Error, iovMax: nat)
    requires bufs != []
    ensures forall blocking :: Send(bufs, [Fail(error)], iovMax, blocking) == Sending(0, error, bufs, [])
    ensures TryResult(CountBufs(bufs), 0) == if CountBufs(bufs) == 0 then 0 else UV_EAGAIN
  {
  }

  /** On a blocking stream a failure after a short write: the bytes of the short write, as if nothing had failed. */
  lemma FailedLater(bufs: seq<seq<byte>>, n: nat, error: Error, iovMax: nat)
    requires bufs != [] && iovMax > 0 && 0 < n <= CountBufs(Clip(bufs, iovMax)) && n < CountBufs(bufs)
    ensures var s := Send(bufs, [Wrote(n), Fail(error)], iovMax, true);
            s.error == error && TryResult(CountBufs(bufs), s.taken) == n
  {
    var kernel := [Wrote(n), Fail(error)];
    SkipConcat(bufs, n);
    var s := Step(bufs, kernel, iovMax);
    assert s == Sending(n, 0, Skip(bufs, n), [Fail(error)]);
    assert Step(s.left, s.kernel, iovMax) == Sending(0, error, s.left, []);
  }
}
