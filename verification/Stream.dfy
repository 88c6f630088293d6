/** The write side of libuv/src/unix/stream.c. A callback is a list of the calls it makes. */
module Stream {
  import opened Wrappers
  import opened Bytes
  import opened Sequences
  import opened Writes

  const UV_EBADF := -9
  const UV_EPIPE := -32
  const UV_ECANCELED := -125

  /** A call a callback makes on the stream. */
  datatype Call = Write(bufs: seq<seq<byte>>) | TryWrite(bufs: seq<seq<byte>>) | Close

  /** uv_write_t. Each buffer is the bytes from `base` on; `bufs` is None for NULL. */
  class Request {
    var bufs: Option<seq<seq<byte>>>
    var writeIndex: nat
    var error: int
    /** What was submitted, and how much of it the descriptor has taken. */
    ghost const data: seq<byte>
    ghost var taken: seq<byte>

    constructor (bufs: seq<seq<byte>>)
      ensures this.bufs == Some(bufs) && writeIndex == 0 && error == 0 && data == Concat(bufs) && taken == []
    {
      this.bufs, writeIndex, error, data, taken := Some(bufs), 0, 0, Concat(bufs), [];
    }
  }

  /** The buffers of a request from write_index on. */
  function Left(r: Request): seq<seq<byte>>
    reads r`bufs, r`writeIndex
  {
    if r.bufs.Some? && r.writeIndex <= |r.bufs.value| then r.bufs.value[r.writeIndex..] else []
  }

  /** The bytes of a request the descriptor has not taken. */
  ghost function Rest(r: Request): seq<byte>
    reads r`bufs, r`writeIndex
  {
    Concat(Left(r))
  }

  ghost function Pending(q: seq<Request>): seq<byte>
    reads q`bufs, q`writeIndex
  {
    if q == [] then [] else Rest(q[0]) + Pending(q[1..])
  }

  lemma PendingMoved(a: seq<Request>, q: seq<Request>)
    requires q != []
    ensures Pending(a + [q[0]]) == Pending(a) + Rest(q[0]) && Pending(q) == Rest(q[0]) + Pending(q[1..])
  {
    hide Rest;
    PendingSplit(a, [q[0]]);
    assert Pending([q[0]]) == Rest(q[0]) + Pending([]);
  }

  lemma {:induction false} PendingSplit(a: seq<Request>, b: seq<Request>)
    ensures Pending(a + b) == Pending(a) + Pending(b)
  {
    hide Rest;
    if a == [] {
      assert a + b == b;
    } else {
      PendingSplit(a[1..], b);
      assert (a + b)[1..] == a[1..] + b;
      Grouped(Rest(a[0]), Pending(a[1..]), Pending(b));
    }
  }

  /** What the descriptor has taken of the requests, one after the other. */
  ghost function Taken(q: seq<Request>): seq<byte>
    reads q`taken
  {
    if q == [] then [] else Taken(q[..|q| - 1]) + q[|q| - 1].taken
  }

  lemma {:induction false} TakenSplit(a: seq<Request>, b: seq<Request>)
    ensures Taken(a + b) == Taken(a) + Taken(b)
  {
    if b == [] {
      assert a + b == a;
    } else {
      var front, last := b[..|b| - 1], b[|b| - 1];
      assert (a + b)[..|a + b| - 1] == a + front && (a + b)[|a + b| - 1] == last;
      TakenSplit(a, front);
      Grouped(Taken(a), Taken(front), last.taken);
    }
  }

  lemma {:induction false} NothingTaken(q: seq<Request>)
    requires forall r | r in q :: r.taken == []
    ensures Taken(q) == []
  {
    if q != [] {
      NothingTaken(q[..|q| - 1]);
    }
  }

  /** The requests that have not been taken back. */
  ghost function Kept(q: seq<Request>, gone: set<Request>): seq<Request> {
    if q == [] then [] else Kept(q[..|q| - 1], gone) + if q[|q| - 1] in gone then [] else [q[|q| - 1]]
  }

  lemma {:induction false} KeptMembers(q: seq<Request>, gone: set<Request>, r: Request)
    ensures r in Kept(q, gone) <==> r in q && r !in gone
  {
    if q != [] {
      assert q == q[..|q| - 1] + [q[|q| - 1]];
      KeptMembers(q[..|q| - 1], gone, r);
    }
  }

  /** Where in q the first request of the kept ones behind `done` stands. */
  lemma {:induction false} KeptAt(q: seq<Request>, gone: set<Request>, done: seq<Request>, rest: seq<Request>) returns (k: nat)
    requires Kept(q, gone) == done + rest && rest != []
    ensures k < |q| && q[k] == rest[0] && Kept(q[..k], gone) == done
  {
    var front, last := q[..|q| - 1], q[|q| - 1];
    if last in gone {
      k := KeptAt(front, gone, done, rest);
      assert front[..k] == q[..k];
    } else {
      var shorter := rest[..|rest| - 1];
      assert Kept(front, gone) == (done + rest)[..|done + rest| - 1] == done + shorter;
      assert last == (done + rest)[|done + rest| - 1] == rest[|rest| - 1];
      if shorter == [] {
        k := |front|;
        assert done + shorter == done;
      } else {
        k := KeptAt(front, gone, done, shorter);
        assert front[..k] == q[..k];
      }
    }
  }

  lemma {:induction false} KeptWithout(q: seq<Request>, gone: set<Request>, done: seq<Request>, r: Request)
    requires Kept(q, gone) == done + [r] && NoDuplicates(q)
    ensures Kept(q, gone + {r}) == done
  {
    var front, last := q[..|q| - 1], q[|q| - 1];
    assert q == front + [last];
    Parts(front, [last]);
    if last in gone {
      KeptWithout(front, gone, done, r);
    } else {
      assert last == (done + [r])[|done|] == r && Kept(front, gone) == (done + [r])[..|done|] == done;
      assert last in [last];
      KeptSame(front, gone, r);
    }
  }

  lemma {:induction false} KeptSame(q: seq<Request>, gone: set<Request>, r: Request)
    requires r !in q
    ensures Kept(q, gone + {r}) == Kept(q, gone)
  {
    if q != [] {
      KeptSame(q[..|q| - 1], gone, r);
    }
  }

  predicate BacklogOk(blocking: bool, connecting: bool, begun: nat, made: nat, submitted: nat, queued: nat) {
    queued <= submitted - begun && (!connecting ==> begun <= made <= submitted && (blocking ==> queued <= made - begun))
  }

  lemma OneQueued(blocking: bool, connecting: bool, begun: nat, made: nat, submitted: nat, queued: nat, queued': nat)
    requires BacklogOk(blocking, connecting, begun, made, submitted, queued) && queued' <= queued + 1
    requires blocking && !connecting ==> queued' <= queued
    ensures BacklogOk(blocking, connecting, begun, made, submitted + 1, queued')
  {
  }

  lemma FewerInBacklog(blocking: bool, connecting: bool, begun: nat, made: nat, submitted: nat, queued: nat, queued': nat)
    requires BacklogOk(blocking, connecting, begun, made, submitted, queued) && queued' <= queued
    ensures BacklogOk(blocking, connecting, begun, made, submitted, queued')
  {
  }

  /**
   * What the descriptor got is what it took of each request and of each uv_try_write, in the order
   * of the calls; a request whose callback saw no error is there with all its bytes.
   */
  ghost predicate OrderOk(order: seq<Request>, gone: set<Request>, submitted: seq<Request>, queue: seq<Request>, called: seq<Request>, sent: seq<byte>)
    reads order`taken, called`taken, called`error
  {
    && NoDuplicates(order) && Kept(order, gone) == submitted && sent == Taken(order)
    && (forall i, j :: 0 <= i < j < |order| && order[i] in queue ==> order[j].taken == [])
    && (forall r | r in called && r.error == 0 :: r.taken == r.data)
  }

  /** The order goes on with a new request. */
  lemma Entered(order: seq<Request>, gone: set<Request>, submitted: seq<Request>, queue: seq<Request>, called: seq<Request>, sent: seq<byte>,
                req: Request)
    requires OrderOk(order, gone, submitted, queue, called, sent) && req.taken == []
    requires req !in order && req !in gone && forall r | r in queue :: r in submitted
    ensures OrderOk(order + [req], gone, submitted + [req], queue + [req], called, sent)
  {
    hide NoDuplicates;
    var next := order + [req];
    Appended(order, req);
    assert next[..|order|] == order;
    assert sent + [] == sent;
  }

  /** The queue may lose requests, and others be called that had all their bytes taken. */
  lemma OrderStays(order: seq<Request>, gone: set<Request>, submitted: seq<Request>, queue: seq<Request>, called: seq<Request>, sent: seq<byte>,
                   queue': seq<Request>, called': seq<Request>)
    requires OrderOk(order, gone, submitted, queue, called, sent) && forall r | r in queue' :: r in queue
    requires forall r | r in called' :: r in called || r.error != 0 || r.taken == r.data
    ensures OrderOk(order, gone, submitted, queue', called', sent)
  {
    hide NoDuplicates, Kept, Taken;
  }

  /** The last request is taken back. */
  lemma TakenBack(order: seq<Request>, gone: set<Request>, submitted: seq<Request>, queue: seq<Request>, called: seq<Request>, sent: seq<byte>,
                  req: Request)
    requires OrderOk(order, gone, submitted + [req], queue, called, sent)
    ensures OrderOk(order, gone + {req}, submitted, queue, called, sent)
  {
    hide NoDuplicates, Taken;
    KeptWithout(order, gone, submitted, req);
  }

  lemma TakenOf(a: seq<Request>, r: Request, b: seq<Request>)
    requires Taken(b) == []
    ensures Taken(a + ([r] + b)) == Taken(a) + r.taken
  {
    TakenSplit([r], b);
    TakenSplit(a, [r] + b);
    assert Taken([]) + r.taken == r.taken && [r][..0] == [];
    assert Taken([r]) == r.taken && r.taken + [] == r.taken;
  }

  /** The queues q and c after at most one request left q for c. */
  predicate Passed(q: seq<Request>, c: seq<Request>, q': seq<Request>, c': seq<Request>): (p: bool)
    ensures q == q' && c == c' ==> p
  {
    (q' == q && c' == c) || (q != [] && q' == q[1..] && c' == c + [q[0]])
  }

  /** The queues after their last request was taken out. */
  predicate LastGone(q: seq<Request>, c: seq<Request>, q': seq<Request>, c': seq<Request>) {
    if q != [] then q' == q[..|q| - 1] && c' == c else c != [] && c' == c[..|c| - 1] && q' == []
  }

  lemma PassedThenGone(q: seq<Request>, c: seq<Request>, x: Request, q1: seq<Request>, c1: seq<Request>, q2: seq<Request>, c2: seq<Request>)
    requires Passed(q + [x], c, q1, c1) && LastGone(q1, c1, q2, c2)
    ensures Passed(q, c, q2, c2)
    ensures (q2 != [] ==> q != [] && q1 != []) && (c2 != [] ==> c1 != [])
  {
    assert (q + [x])[|q|] == x;
    if q1 != [] && q1 != q + [x] {
      assert (q + [x])[1..] == q[1..] + [x];
      assert q1[..|q1| - 1] == q[1..];
    }
  }

  lemma PassedLast(q: seq<Request>, c: seq<Request>, x: Request, q1: seq<Request>, c1: seq<Request>)
    requires Passed(q + [x], c, q1, c1)
    ensures x in q1 || x in c1
    ensures q1 == [] ==> c1 != []
  {
    assert (q + [x])[|q|] == x;
    if q1 != [] && q1 != q + [x] {
      assert q1[|q1| - 1] == x;
    } else if q1 == [] {
      assert c1[|c1| - 1] == x;
    }
  }

  function Elems(q: seq<Request>): set<Request> {
    set r | r in q
  }

  lemma {:induction false} PendingSome(q: seq<Request>)
    ensures Pending(q) != [] <==> exists r :: r in q && Rest(r) != []
  {
    hide Rest;
    if q != [] {
      PendingSome(q[1..]);
      assert q == [q[0]] + q[1..];
    }
  }

  lemma PendingFirst(q: seq<Request>)
    requires q != []
    ensures Pending(q) == Rest(q[0]) + Pending(q[1..])
  {
  }

  lemma PendingLast(q: seq<Request>)
    requires q != []
    ensures Pending(q) == Pending(q[..|q| - 1]) + Rest(q[|q| - 1])
  {
    hide Rest, Pending;
    var front, last := q[..|q| - 1], q[|q| - 1];
    assert q == front + [last];
    PendingSplit(front, [last]);
    PendingOne(last);
  }

  lemma PendingOne(r: Request)
    ensures Pending([r]) == Rest(r)
  {
    hide Rest;
    assert [r][1..] == [] && Rest(r) + [] == Rest(r);
  }

  class Stream {
    const iovMax: nat
    /** UV_HANDLE_BLOCKING_WRITES */
    const blocking: bool
    var kernel: seq<Outcome>
    /** fd >= 0 */
    var open: bool
    var writable: bool
    /** connect_req != NULL */
    var connecting: bool
    var writeQueueSize: int
    var writeQueue: seq<Request>
    var completed: seq<Request>
    /** The local queue pq of uv__write_callbacks. */
    var draining: seq<Request>
    /** POLLOUT is asked for; the watcher is in the loop's pending queue. */
    var pollOut: bool
    var fed: bool
    ghost var submitted: seq<Request>
    ghost var called: seq<Request>
    /** The bytes written to the descriptor, those submitted, and whether a request ever failed. */
    ghost var sent: seq<byte>
    ghost var accepted: seq<byte>
    ghost var failed: bool
    /** submitted[begun..made] were submitted while the last connection was being made. */
    ghost var begun: nat
    ghost var made: nat
    /** Every request there ever was, also those uv_try_write has taken back, which are `gone`. */
    ghost var order: seq<Request>
    ghost var gone: set<Request>

    constructor (iovMax: nat, blocking: bool, kernel: seq<Outcome>)
      requires iovMax > 0
      ensures Inv() && Prompt() && Record() && submitted == [] && this.blocking == blocking && this.iovMax == iovMax && this.kernel == kernel
      ensures open && writable && !connecting && writeQueueSize == 0 && writeQueue == completed == draining == [] && sent == []
    {
      this.iovMax, this.blocking, this.kernel := iovMax, blocking, kernel;
      open, writable, connecting, pollOut, fed := true, true, false, false, false;
      writeQueueSize, writeQueue, completed, draining := 0, [], [], [];
      submitted, called, sent, accepted, failed := [], [], [], [], false;
      begun, made, order, gone := 0, 0, [], {};
    }

    ghost predicate Queued(r: Request)
      reads r
    {
      r.error == 0 && r.bufs.Some? && r.writeIndex < |r.bufs.value| && r.taken + Rest(r) == r.data
    }

    /** A request that waits for its callback: without an error all its bytes were taken. */
    ghost predicate Ended(r: Request)
      reads r
    {
      if r.error == 0 then r.bufs == None && r.taken == r.data
      else r.bufs.Some? && r.writeIndex < |r.bufs.value| && r.taken + Rest(r) == r.data
    }

    /** Requests move from queue to queue in the order of submission, and each is in one place. */
    ghost predicate RequestsOk()
      reads `submitted, `called, `draining, `completed, `writeQueue, draining, completed, writeQueue
    {
      && iovMax > 0
      && submitted == called + draining + completed + writeQueue && NoDuplicates(submitted)
      && (forall r | r in writeQueue :: Queued(r))
      && (forall r | r in draining :: Ended(r))
      && (forall r | r in completed :: Ended(r))
    }

    ghost predicate SizeOk()
      reads `writeQueueSize, `writeQueue, `completed, `draining
      reads writeQueue`bufs, writeQueue`writeIndex, completed`bufs, completed`writeIndex, draining`bufs, draining`writeIndex
    {
      writeQueueSize == |Pending(draining)| + |Pending(completed)| + |Pending(writeQueue)|
    }

    ghost predicate BytesOk()
      reads `failed, `sent, `accepted, `writeQueue, writeQueue`bufs, writeQueue`writeIndex
    {
      !failed ==> sent + Pending(writeQueue) == accepted
    }

    ghost predicate Inv()
      reads this, submitted, writeQueue, completed, draining
    {
      RequestsOk() && SizeOk() && BytesOk()
    }

    /** While the stream is open, what waits to be written will be come back to. */
    ghost predicate Watched()
      reads `open, `connecting, `writeQueue, `pollOut, `fed
    {
      open && (connecting || writeQueue != []) ==> pollOut || fed
    }

    /** And so will the requests that wait for their callbacks. */
    ghost predicate Prompt()
      reads `open, `connecting, `writeQueue, `completed, `pollOut, `fed
    {
      Watched() && (open && completed != [] ==> fed)
    }

    /**
     * Where queued requests come from: none is older than the last connect, and on a blocking stream
     * there are no more of them than were submitted while the connection was being made.
     */
    ghost predicate Backlog()
      reads `connecting, `begun, `made, `submitted, `writeQueue
    {
      BacklogOk(blocking, connecting, begun, made, |submitted|, |writeQueue|)
    }

    ghost predicate InOrder()
      reads `order, `gone, `submitted, `writeQueue, `called, `sent, order`taken, called`taken, called`error
    {
      OrderOk(order, gone, submitted, writeQueue, called, sent)
    }

    /** What a request whose callback saw no error has contributed, and where. */
    lemma Contributes(r: Request) returns (k: nat)
      requires RequestsOk() && InOrder() && r in called && r.error == 0
      ensures k < |order| && order[k] == r && r !in gone
      ensures sent == Taken(order[..k]) + r.data + Taken(order[k + 1..])
    {
      hide NoDuplicates, Taken, Kept, Queued, Ended;
      assert r in submitted;
      KeptMembers(order, gone, r);
      k :| 0 <= k < |order| && order[k] == r;
      var a, b := order[..k], order[k + 1..];
      assert order == a + [r] + b;
      TakenSplit(a + [r], b);
      NothingTaken([]);
      TakenOf(a, r, []);
      assert [r] + [] == [r];
    }

    ghost predicate Record()
      reads `connecting, `begun, `made, `order, `gone, `submitted, `writeQueue, `called, `sent, order`taken, called`taken, called`error
    {
      Backlog() && InOrder()
    }

    /** Lines 850-868: what the kernel takes of `total` bytes. */
    method Kernel(total: nat) returns (o: Outcome)
      modifies `kernel
      ensures o == Answer(old(kernel), total) && kernel == Later(old(kernel))
    {
      o := Answer(kernel, total);
      if kernel != [] {
        kernel := kernel[1..];
      }
    }

    /** Lines 881-923: n bytes of the head request were taken. */
    method Advance(req: Request, n: nat) returns (done: bool)
      requires Left(req) != [] && n <= |Rest(req)| && n <= writeQueueSize
      modifies `writeQueueSize, req`bufs, req`writeIndex
      ensures Left(req) == Skip(old(Left(req)), n) && writeQueueSize == old(writeQueueSize) - n
      ensures req.bufs.Some? && req.writeIndex <= |req.bufs.value| && (done <==> Left(req) == [])
    {
      hide Concat, Skip;
      var bufs := req.bufs.value;
      ghost var left := Left(req);
      var nbufs := |bufs|;
      var m: nat := n;
      while true
        invariant req.bufs == Some(bufs) && req.writeIndex < nbufs
        invariant Skip(left, n) == Skip(bufs[req.writeIndex..], m) && m <= CountBufs(bufs[req.writeIndex..])
        invariant writeQueueSize == old(writeQueueSize) - n + m
        decreases nbufs - req.writeIndex
      {
        var i := req.writeIndex;
        var buf := bufs[i];
        SkipBuf(bufs, i, m);
        if m < |buf| {
          req.bufs := Some(bufs[i := buf[m..]]);
          writeQueueSize := writeQueueSize - m;
          return false;
        }
        req.writeIndex := i + 1;
        m := m - |buf|;
        assert writeQueueSize >= |buf|;
        writeQueueSize := writeQueueSize - |buf|;
        if req.writeIndex == nbufs {
          assert m == 0;
          return true;
        }
      }
    }

    /** All of RequestsOk but what it says of the head of the write queue. */
    ghost predicate OthersOk(head: Request)
      reads `submitted, `called, `draining, `completed, `writeQueue, draining, completed, writeQueue
    {
      && iovMax > 0
      && submitted == called + draining + completed + writeQueue && NoDuplicates(submitted)
      && writeQueue != [] && head == writeQueue[0]
      && (forall r | r in writeQueue && r != head :: Queued(r))
      && (forall r | r in draining :: Ended(r))
      && (forall r | r in completed :: Ended(r))
    }

    /** A request all of whose bytes were taken, still with its buffers. */
    ghost predicate Written(r: Request)
      reads r
    {
      r.error == 0 && r.bufs.Some? && r.writeIndex == |r.bufs.value| && r.taken == r.data && Rest(r) == []
    }

    /** The descriptor took n bytes of the request. */
    method Take(req: Request, n: nat) returns (done: bool)
      requires Queued(req) && n <= |Rest(req)| <= writeQueueSize
      modifies `writeQueueSize, `sent, req`bufs, req`writeIndex, req`taken
      ensures Rest(req) == old(Rest(req))[n..] && writeQueueSize == old(writeQueueSize) - n
      ensures sent == old(sent) + old(Rest(req))[..n] && req.taken == old(req.taken) + old(Rest(req))[..n]
      ensures if done then Written(req) else Queued(req)
      ensures Left(req) == Skip(old(Left(req)), n) && (done <==> Left(req) == [])
    {
      hide Concat, CountBufs, Skip;
      ghost var rest := Rest(req);
      SkipConcat(Left(req), n);
      Grouped(req.taken, rest[..n], rest[n..]);
      assert rest == rest[..n] + rest[n..];
      done := Advance(req, n);
      sent := sent + rest[..n];
      req.taken := req.taken + rest[..n];
      if done {
        assert rest[n..] == [];
        assert req.taken + [] == req.taken;
      }
    }

    /** The bytes sent since are those taken of the request since. */
    ghost predicate Sent(before: seq<byte>, taken: seq<byte>, req: Request)
      reads `sent, req`taken
    {
      taken <= req.taken && sent == before + req.taken[|taken|..]
    }

    /** Take, for the head of the write queue. */
    method TakeHead(req: Request, n: nat) returns (done: bool)
      requires Inv() && writeQueue != [] && req == writeQueue[0] && n <= |Rest(req)|
      modifies `writeQueueSize, `sent, req`bufs, req`writeIndex, req`taken
      ensures OthersOk(req) && SizeOk() && BytesOk() && Sent(old(sent), old(req.taken), req)
      ensures |sent| + writeQueueSize == old(|sent| + writeQueueSize)
      ensures if done then Written(req) else Queued(req)
      ensures Left(req) == Skip(old(Left(req)), n) && (done <==> Left(req) == []) && |req.taken| == old(|req.taken|) + n
    {
      hide NoDuplicates, Concat, Left, Rest, Queued, Ended, Written, Skip, Pending;
      ghost var rest, tail := Rest(req), writeQueue[1..];
      HeadIsApart(called, draining, completed, writeQueue);
      PendingMoved([], writeQueue);
      Regroup(sent, rest, n, Pending(tail));
      TailOf(writeQueue);
      done := Take(req, n);
      assert Pending(tail) == old(Pending(tail));
      assert Pending(completed) == old(Pending(completed)) && Pending(draining) == old(Pending(draining));
      PendingMoved([], writeQueue);
    }

    /** The head goes to the completed queue; its buffers are freed unless it failed. */
    method Move(req: Request)
      requires writeQueue != [] && req == writeQueue[0] && (req.error == 0 ==> Written(req))
      modifies `writeQueue, `completed, req`bufs
      ensures writeQueue == old(writeQueue)[1..] && completed == old(completed) + [req]
      ensures req.bufs == if req.error == 0 then None else old(req.bufs)
      ensures Rest(req) == old(Rest(req))
    {
      writeQueue := writeQueue[1..];
      if req.error == 0 {
        req.bufs := None;
      }
      completed := completed + [req];
    }

    /** Move keeps the invariant. */
    method MoveHead(req: Request)
      requires OthersOk(req) && SizeOk() && BytesOk()
      requires if req.error == 0 then Written(req) else Ended(req) && failed
      modifies `writeQueue, `completed, req`bufs
      ensures Inv() && writeQueue == old(writeQueue)[1..] && completed == old(completed) + [req]
    {
      hide NoDuplicates, Rest, Queued, Pending;
      ghost var done, q := completed, writeQueue;
      HeadIsApart(called, draining, done, q);
      Shift(called + draining, done, q);
      PendingMoved(done, q);
      WrittenHasNoRest(req);
      Move(req);
      assert Ended(req);
      assert Pending(done) == old(Pending(done)) && Pending(draining) == old(Pending(draining)) && Pending(q[1..]) == old(Pending(q[1..]));
      PendingMoved(done, q);
    }

    lemma WrittenHasNoRest(r: Request)
      ensures Written(r) ==> forall t :: Rest(r) + t == t
    {}

    /** uv__write_req_finish */
    method Finish(req: Request)
      requires OthersOk(req) && SizeOk() && BytesOk()
      requires if req.error == 0 then Written(req) else Ended(req) && failed
      modifies `writeQueue, `completed, `fed, req`bufs
      ensures Inv() && writeQueue == old(writeQueue)[1..] && completed == old(completed) + [req] && fed
    {
      hide OthersOk, BytesOk, SizeOk, Written, Ended;
      MoveHead(req);
      fed := true;
    }

    method FlushHead(req: Request, error: Error)
      requires Inv() && writeQueue != [] && req == writeQueue[0]
      modifies `writeQueue, `completed, `failed, req`bufs, req`error
      ensures Inv() && writeQueue == old(writeQueue)[1..] && completed == old(completed) + [req] && failed
      ensures req.error == error && (old(InOrder()) ==> InOrder())
    {
      hide NoDuplicates, Rest, OrderOk;
      HeadIsApart(called, draining, completed, writeQueue);
      assert Queued(req);
      ghost var q, ordered := writeQueue, InOrder();
      req.error, failed := error, true;
      if ordered {
        assert OrderOk(order, gone, submitted, q, called, sent);
        OrderStays(order, gone, submitted, q, called, sent, q[1..], called);
      }
      MoveHead(req);
    }

    /** Lines 940-946: the write of the head request failed. */
    method FailHead(req: Request, error: Error)
      requires Inv() && writeQueue != [] && req == writeQueue[0]
      modifies `writeQueue, `completed, `fed, `failed, `pollOut, req`bufs, req`error
      ensures Inv() && writeQueue == old(writeQueue)[1..] && completed == old(completed) + [req] && fed && failed && !pollOut
      ensures req.error == error
    {
      hide RequestsOk, BytesOk, SizeOk;
      FlushHead(req, error);
      fed, pollOut := true, false;
    }

    /** One write(2) or writev(2), and what is done with its outcome; `over` says that the head left the queue. */
    method Attempt(req: Request) returns (over: bool)
      requires Inv() && writeQueue != [] && req == writeQueue[0]
      modifies `kernel, `writeQueueSize, `writeQueue, `completed, `pollOut, `fed, `sent, `failed, req
      ensures Inv() && Sent(old(sent), old(req.taken), req) && |sent| + writeQueueSize == old(|sent| + writeQueueSize)
      ensures req.error != 0 ==> over && failed
      ensures var s := old(Step(Left(req), kernel, iovMax));
              && kernel == s.kernel && req.error == s.error && |req.taken| == old(|req.taken|) + s.taken
              && (over <==> Over(s)) && (!over ==> Left(req) == s.left)
      ensures over ==> fed && writeQueue == old(writeQueue)[1..] && completed == old(completed) + [req]
      ensures over ==> if req.error == 0 then failed == old(failed) && pollOut == old(pollOut) else failed && !pollOut
      ensures !over ==> writeQueue == old(writeQueue) && completed == old(completed) && fed == old(fed) && failed == old(failed) && pollOut == old(pollOut)
    {
      hide NoDuplicates, Concat, CountBufs, Clip, Skip, Left, BytesOk, SizeOk, RequestsOk, OthersOk, Queued, Written;
      HeadOk(req);
      ClipFits(Left(req), iovMax);
      var outcome := Kernel(CountBufs(Clip(Left(req), iovMax)));
      match outcome
      case Fail(error) =>
        FailHead(req, error);
        over := true;
      case Retry =>
        over := false;
      case Wrote(n) =>
        over := TakeHead(req, n);
        Rejoin(req);
        if over {
          Finish(req);
        }
    }

    function Head(): seq<Request>
      reads `writeQueue
    {
      if writeQueue == [] then [] else [writeQueue[0]]
    }

    static lemma TailOf<T>(q: seq<T>)
      ensures forall x | q != [] && x in q[1..] :: x in q
    {
    }

    lemma Rejoin(req: Request)
      requires OthersOk(req)
      ensures Queued(req) ==> RequestsOk() && req.error == 0
      ensures Written(req) ==> req.error == 0
    {
      hide NoDuplicates;
    }

    lemma HeadOk(req: Request)
      requires RequestsOk() && req in writeQueue
      ensures req.error == 0 && Left(req) != [] && iovMax > 0
    {
      assert Queued(req);
    }

    /** uv__write for the head request: attempts until it is over, or one if the stream does not block. */
    method WriteHead(req: Request) returns (over: bool)
      requires Inv() && writeQueue != [] && req == writeQueue[0]
      modifies `kernel, `writeQueueSize, `writeQueue, `completed, `pollOut, `fed, `sent, `failed, req
      ensures Inv() && Sent(old(sent), old(req.taken), req) && |sent| + writeQueueSize == old(|sent| + writeQueueSize)
      ensures req.error != 0 ==> over && failed
      ensures var s := old(Send(Left(req), kernel, iovMax, blocking));
              kernel == s.kernel && req.error == s.error && |req.taken| == old(|req.taken|) + s.taken && (over <==> Over(s))
      ensures over ==> fed && writeQueue == old(writeQueue)[1..] && completed == old(completed) + [req]
      ensures over ==> if req.error == 0 then failed == old(failed) && pollOut == old(pollOut) else failed && !pollOut
      ensures !over ==> !blocking && writeQueue == old(writeQueue) && completed == old(completed)
                        && fed == old(fed) && failed == old(failed) && pollOut == old(pollOut)
    {
      hide RequestsOk, BytesOk, SizeOk, Left, Step, Send;
      HeadOk(req);
      ghost var left, store, gone := Left(req), kernel, 0;
      while true
        invariant Inv() && writeQueue == old(writeQueue) && completed == old(completed) && Sent(old(sent), old(req.taken), req)
        invariant |sent| + writeQueueSize == old(|sent| + writeQueueSize)
        invariant fed == old(fed) && pollOut == old(pollOut) && failed == old(failed)
        invariant Left(req) != [] && |req.taken| == old(|req.taken|) + gone
        invariant Send(left, store, iovMax, blocking) == Sooner(gone, Send(Left(req), kernel, iovMax, blocking))
        decreases |kernel|, |Left(req)|
      {
        StepShrinks(Left(req), kernel, iovMax);
        SendStep(Left(req), kernel, iovMax, blocking, gone);
        gone := gone + Step(Left(req), kernel, iovMax).taken;
        over := Attempt(req);
        if over || !blocking {
          return;
        }
      }
    }

    /**
     * uv__write. What becomes of the head, by the answers of the kernel: to be tried again it stays, and a
     * stream that does not block waits for POLLOUT; an error is the request's own and ends it; and it stays
     * without being over while bytes are left. The error of a request is the last answer used.
     */
    method WriteOut()
      requires Inv() && open
      modifies `kernel, `writeQueueSize, `writeQueue, `completed, `pollOut, `fed, `sent, `failed, Elems(Head())
      ensures Inv() && (old(InOrder()) ==> InOrder()) && (old(failed) ==> failed) && |sent| + writeQueueSize == old(|sent| + writeQueueSize)
      ensures old(writeQueue) != [] && old(writeQueue)[0].error != 0 ==> failed
      ensures old(writeQueue) != [] ==>
                var s := old(Send(Left(writeQueue[0]), kernel, iovMax, blocking));
                && kernel == s.kernel && old(writeQueue)[0].error == s.error && (writeQueue != old(writeQueue) <==> Over(s))
                && |old(writeQueue)[0].taken| == old(|writeQueue[0].taken|) + s.taken
      ensures if old(writeQueue) == [] then sent == old(sent) else Sent(old(sent), old(writeQueue[0].taken), old(writeQueue)[0])
      ensures writeQueue == old(writeQueue) ==> completed == old(completed) && fed == old(fed) && failed == old(failed)
      ensures writeQueue == old(writeQueue) ==> if writeQueue == [] then pollOut == old(pollOut) else pollOut && !blocking
      ensures writeQueue != old(writeQueue) ==>
                && old(writeQueue) != [] && fed && writeQueue == old(writeQueue)[1..] && completed == old(completed) + [old(writeQueue)[0]]
                && if old(writeQueue)[0].error == 0 then failed == old(failed) && pollOut == old(pollOut) else failed && !pollOut
      ensures old(writeQueue) != [] && old(kernel) != [] && old(kernel)[0].Retry? && !blocking ==>
                && writeQueue == old(writeQueue) && writeQueue[0].error == 0 && sent == old(sent) && pollOut && kernel == old(kernel)[1..]
      ensures old(writeQueue) != [] && old(kernel) != [] && old(kernel)[0].Fail? ==>
                && writeQueue == old(writeQueue)[1..] && old(writeQueue)[0].error == old(kernel)[0].error && sent == old(sent) && !pollOut
                && kernel == old(kernel)[1..]
      ensures old(writeQueue) != [] && !blocking && (old(kernel) == [] || old(kernel)[0].Wrote?) ==>
                var left, iovs := old(Left(writeQueue[0])), iovMax;
                var offered := |Concat(if |left| > iovs then left[..iovs] else left)|;
                var n := if old(kernel) == [] || old(kernel)[0].n > offered then offered else old(kernel)[0].n;
                && |sent| == |old(sent)| + n && old(writeQueue)[0].error == 0
                && if n == |Concat(left)| then writeQueue == old(writeQueue)[1..] else writeQueue == old(writeQueue) && pollOut
      ensures old(writeQueue) != [] ==>
                var used := |old(kernel)| - |kernel|;
                && used >= 0 && kernel == old(kernel)[used..]
                && (old(writeQueue)[0].error != 0 ==> used > 0 && old(kernel)[used - 1].Fail? && old(kernel)[used - 1].error == old(writeQueue)[0].error)
                && (old(writeQueue)[0].error == 0 ==> forall i :: 0 <= i < used ==> !old(kernel)[i].Fail?)
    {
      hide RequestsOk, BytesOk, SizeOk, Left, Send, InOrder, Concat, Prompt;
      if writeQueue == [] {
        return;
      }
      ghost var req, left, store := writeQueue[0], Left(writeQueue[0]), kernel;
      HeadOk(req);
      WriteFirst();
      ErrorsAreAnswers(left, store, iovMax, blocking);
      OneWriteIs(left, store, iovMax);
    }

    /** uv__write when something is queued. */
    method WriteFirst()
      requires Inv() && open && writeQueue != []
      modifies `kernel, `writeQueueSize, `writeQueue, `completed, `pollOut, `fed, `sent, `failed, writeQueue[0]
      ensures Inv() && (old(InOrder()) ==> InOrder()) && (old(failed) ==> failed) && |sent| + writeQueueSize == old(|sent| + writeQueueSize)
      ensures old(writeQueue)[0].error != 0 ==> failed
      ensures var s := old(Send(Left(writeQueue[0]), kernel, iovMax, blocking));
              && kernel == s.kernel && old(writeQueue)[0].error == s.error && (writeQueue != old(writeQueue) <==> Over(s))
              && |old(writeQueue)[0].taken| == old(|writeQueue[0].taken|) + s.taken
      ensures Sent(old(sent), old(writeQueue[0].taken), old(writeQueue)[0])
      ensures writeQueue == old(writeQueue) ==>
                completed == old(completed) && fed == old(fed) && failed == old(failed) && pollOut && !blocking
      ensures writeQueue != old(writeQueue) ==>
                && fed && writeQueue == old(writeQueue)[1..] && completed == old(completed) + [old(writeQueue)[0]]
                && if old(writeQueue)[0].error == 0 then failed == old(failed) && pollOut == old(pollOut) else failed && !pollOut
    {
      hide RequestsOk, BytesOk, SizeOk, Left, Send, Over, InOrder, NoDuplicates, Kept, Taken;
      var req := writeQueue[0];
      ghost var k, ordered := 0, InOrder();
      if ordered {
        k := HeadPlace(req);
      }
      var over := WriteHead(req);
      if ordered {
        Regained(k, req);
      }
      if !over {
        pollOut := true;
      }
    }

    /** Before the k-th request everything is over, and behind it nothing was taken. */
    ghost predicate Growing(k: nat, req: Request)
      reads `order, `gone, `submitted, `called, `sent, order`taken, called`taken, called`error
    {
      && NoDuplicates(order) && Kept(order, gone) == submitted && req !in called
      && k < |order| && order[k] == req && req !in order[..k] && req !in order[k + 1..]
      && sent == Taken(order[..k]) + req.taken
      && (forall r | r in order[k + 1..] :: r.taken == [])
      && (forall r | r in called && r.error == 0 :: r.taken == r.data)
    }

    ghost predicate NoneQueuedBefore(k: nat)
      reads `order, `writeQueue
    {
      k <= |order| && forall r | r in order[..k] :: r !in writeQueue
    }

    /** The head of the write queue is the first request of all that is queued. */
    lemma HeadPlace(req: Request) returns (k: nat)
      requires RequestsOk() && InOrder() && writeQueue != [] && req == writeQueue[0]
      ensures Growing(k, req) && NoneQueuedBefore(k)
    {
      hide NoDuplicates, Queued, Ended, Kept, Taken;
      ghost var done := called + draining + completed;
      k := KeptAt(order, gone, done, writeQueue);
      var a, b := order[..k], order[k + 1..];
      assert order == a + ([req] + b) && req in [req] + b;
      Parts(a, [req] + b);
      Parts([req], b);
      HeadIsApart(called, draining, completed, writeQueue);
      forall r | r in b ensures r.taken == [] {
        var j :| 0 <= j < |b| && b[j] == r;
        assert order[k + 1 + j] == r;
      }
      NothingTaken(b);
      TakenOf(a, req, b);
      Parts(done, writeQueue);
      forall r | r in a ensures r !in writeQueue {
        KeptMembers(order, gone, r);
        KeptMembers(a, gone, r);
        assert r in order;
      }
    }

    lemma Regained(k: nat, req: Request)
      requires Growing(k, req) && NoneQueuedBefore(k)
      ensures InOrder()
    {
      hide NoDuplicates, Kept, Taken;
      var a, b := order[..k], order[k + 1..];
      assert order == a + ([req] + b);
      NothingTaken(b);
      TakenOf(a, req, b);
      assert forall i :: 0 <= i < k ==> order[i] == a[i] && a[i] in a;
      forall i, j | 0 <= i < j < |order| && order[i] in writeQueue ensures order[j].taken == [] {
        assert i >= k;
        assert order[j] == b[j - k - 1];
      }
    }

    lemma NewQueued(req: Request, bufs: seq<seq<byte>>)
      requires bufs != [] && req.bufs == Some(bufs) && req.writeIndex == 0 && req.error == 0 && req.data == Concat(bufs) && req.taken == []
      ensures Queued(req) && Rest(req) == Concat(bufs)
    {
      assert bufs[0..] == bufs;
    }

    /** Lines 1474-1480: the request joins the end of the queue. */
    method Append(req: Request, bufs: seq<seq<byte>>)
      requires Inv() && req !in submitted && bufs != []
      requires req.bufs == Some(bufs) && req.writeIndex == 0 && req.error == 0 && req.data == Concat(bufs) && req.taken == []
      modifies `writeQueueSize, `writeQueue, `submitted, `accepted
      ensures Inv() && writeQueue == old(writeQueue) + [req] && submitted == old(submitted) + [req]
      ensures writeQueueSize == old(writeQueueSize) + |Concat(bufs)|
      ensures accepted == old(accepted) + Concat(bufs)
    {
      hide Concat, CountBufs, Ended, Queued, Rest, NoDuplicates;
      NewQueued(req, bufs);
      Appended(submitted, req);
      PendingSplit(writeQueue, [req]);
      assert Pending([req]) == Rest(req) + Pending([]);
      Grouped(called + draining + completed, writeQueue, [req]);
      Grouped(sent, Pending(writeQueue), Concat(bufs));
      writeQueueSize := writeQueueSize + CountBufs(bufs);
      writeQueue := writeQueue + [req];
      submitted := submitted + [req];
      accepted := accepted + Concat(bufs);
    }

    /** Of a request without bytes left nothing more can be taken. */
    lemma NothingLeft(req: Request, taken: seq<byte>)
      requires RequestsOk() && (req in writeQueue || req in completed)
      requires taken == req.data && taken <= req.taken
      ensures req.taken == taken
    {
      assert Queued(req) || Ended(req);
    }

    lemma SizeZero()
      requires Inv() && writeQueueSize == 0 && writeQueue != []
      ensures writeQueue[0].taken == writeQueue[0].data
    {
      assert Queued(writeQueue[0]);
      assert |Pending(writeQueue)| == |Rest(writeQueue[0])| + |Pending(writeQueue[1..])|;
    }

    /** Lines 1482-1501: the request is the last of the queue; it is written if the queue was empty. */
    method Begin(req: Request, emptyQueue: bool)
      requires Inv() && open && submitted != [] && writeQueue != [] && req == writeQueue[|writeQueue| - 1] && req.error == 0 && req.taken == []
      requires emptyQueue && writeQueue != [req] ==> writeQueue[0] != req && writeQueue[0].taken == writeQueue[0].data
      requires connecting || emptyQueue || !blocking
      modifies `kernel, `writeQueueSize, `writeQueue, `completed, `pollOut, `fed, `sent, `failed, Elems(Head())
      ensures Inv() && (old(failed) ==> failed) && (old(fed) ==> fed) && (req.error != 0 ==> failed)
      ensures (connecting ==> old(pollOut || fed)) && (old(completed) != [] ==> old(fed)) ==> Prompt()
      ensures |sent| + writeQueueSize == old(|sent| + writeQueueSize)
      ensures old(BacklogOk(blocking, connecting, begun, made, |submitted| - 1, |writeQueue| - 1) && InOrder()) ==> Record()
      ensures blocking && !connecting ==> |writeQueue| == old(|writeQueue|) - 1
      ensures Passed(old(writeQueue), old(completed), writeQueue, completed)
      ensures connecting ==> writeQueue == old(writeQueue) && completed == old(completed) && pollOut == old(pollOut)
      ensures if !connecting && emptyQueue && old(writeQueue) == [req] then
                var s := old(Send(Left(req), kernel, iovMax, blocking));
                kernel == s.kernel && req.error == s.error && |req.taken| == s.taken
              else req.taken == [] && req.error == 0
      ensures sent == old(sent) + req.taken
      ensures !connecting && !emptyQueue ==> pollOut && writeQueue == old(writeQueue) && sent == old(sent)
    {
      hide RequestsOk, BytesOk, SizeOk, Left, Send, Rest, NoDuplicates, InOrder, Record, BacklogOk;
      ghost var queued: nat := |writeQueue| - 1;
      ghost var backed := BacklogOk(blocking, connecting, begun, made, |submitted| - 1, queued);
      if connecting {
        // Still connecting, do nothing.
      } else if emptyQueue {
        ghost var head := writeQueue[0];
        WriteOut();
        if head != req {
          NothingLeft(head, old(writeQueue[0].taken));
        }
      } else {
        assert !blocking;
        pollOut := true;
      }
      if backed {
        PassedSize(old(writeQueue), old(completed), writeQueue, completed);
        OneQueued(blocking, connecting, begun, made, |submitted| - 1, queued, |writeQueue|);
      }
      RecordIs();
    }

    lemma NewHead(q: seq<Request>, req: Request)
      requires req !in q
      ensures (q + [req] == [req] <==> q == []) && (q + [req])[|q + [req]| - 1] == req
      ensures q != [] ==> (q + [req])[0] == q[0] != req
    {
    }

    lemma PromptMeans()
      ensures Prompt() && open ==> (connecting ==> pollOut || fed) && (completed != [] ==> fed)
    {
    }

    lemma RecordIs()
      ensures Record() <==> BacklogOk(blocking, connecting, begun, made, |submitted|, |writeQueue|) && InOrder()
    {
    }

    /**
     * uv_write2, without a handle to pass. The demand on blocking streams is the assertion of line
     * 1498: nothing may be unwritten, see Unwritten.
     */
    method Submit(bufs: seq<seq<byte>>) returns (err: int, req: Request?)
      requires Inv() && bufs != []
      requires blocking && open && writable && !connecting ==> writeQueueSize == 0
      modifies `kernel, `writeQueueSize, `writeQueue, `completed, `pollOut, `fed, `sent, `failed, `submitted, `order, `gone, `accepted, Elems(Head())
      ensures Inv() && (old(Record()) ==> Record()) && (old(Prompt()) ==> Prompt()) && (old(failed) ==> failed) && (old(fed) ==> fed)
      ensures err == if !open then UV_EBADF else if !writable then UV_EPIPE else 0
      ensures err != 0 ==> submitted == old(submitted) && writeQueue == old(writeQueue) && completed == old(completed)
                           && writeQueueSize == old(writeQueueSize) && pollOut == old(pollOut) && sent == old(sent) && accepted == old(accepted)
      ensures err == 0 ==> req != null && fresh(req) && (req.error != 0 ==> failed) && req.data == Concat(bufs)
                           && submitted == old(submitted) + [req] && accepted == old(accepted) + Concat(bufs)
      ensures err == 0 ==> |sent| + writeQueueSize == old(|sent| + writeQueueSize) + |Concat(bufs)|
      ensures err == 0 ==> Passed(old(writeQueue) + [req], old(completed), writeQueue, completed)
      ensures err == 0 && connecting ==> writeQueue == old(writeQueue) + [req] && completed == old(completed) && pollOut == old(pollOut)
      ensures err == 0 ==> sent == old(sent) + req.taken && (blocking && !connecting ==> |writeQueue| == old(|writeQueue|))
      ensures err == 0 ==>
                if old(writeQueueSize) == 0 && !connecting && old(writeQueue) == [] then
                  var s := Send(bufs, old(kernel), iovMax, blocking);
                  kernel == s.kernel && req.error == s.error && |req.taken| == s.taken
                else req.taken == [] && req.error == 0
      ensures err == 0 && !connecting && old(writeQueueSize) != 0 ==> pollOut && writeQueue == old(writeQueue) + [req] && sent == old(sent)
    {
      hide Inv, Concat, Send, Rest, Left, Passed, InOrder, BacklogOk, Record, Prompt;
      if !open {
        return UV_EBADF, null;
      }
      if !writable {
        return UV_EPIPE, null;
      }
      req := Accept(bufs);
      err := 0;
    }

    /** Lines 1451-1501: a request that is not refused. */
    method Accept(bufs: seq<seq<byte>>) returns (req: Request)
      requires Inv() && open && bufs != [] && (blocking && !connecting ==> writeQueueSize == 0)
      modifies `kernel, `writeQueueSize, `writeQueue, `completed, `pollOut, `fed, `sent, `failed, `submitted, `order, `gone, `accepted, Elems(Head())
      ensures Inv() && (old(Record()) ==> Record()) && (old(Prompt()) ==> Prompt()) && (old(failed) ==> failed) && (old(fed) ==> fed)
      ensures fresh(req) && (req.error != 0 ==> failed) && req.data == Concat(bufs) && sent == old(sent) + req.taken
      ensures submitted == old(submitted) + [req] && accepted == old(accepted) + Concat(bufs)
      ensures |sent| + writeQueueSize == old(|sent| + writeQueueSize) + |Concat(bufs)|
      ensures Passed(old(writeQueue) + [req], old(completed), writeQueue, completed)
      ensures connecting ==> writeQueue == old(writeQueue) + [req] && completed == old(completed) && pollOut == old(pollOut)
      ensures blocking && !connecting ==> |writeQueue| == old(|writeQueue|)
      ensures if old(writeQueueSize) == 0 && !connecting && old(writeQueue) == [] then
                var s := Send(bufs, old(kernel), iovMax, blocking);
                kernel == s.kernel && req.error == s.error && |req.taken| == s.taken
              else req.taken == [] && req.error == 0
      ensures !connecting && old(writeQueueSize) != 0 ==> pollOut && writeQueue == old(writeQueue) + [req] && sent == old(sent)
    {
      hide RequestsOk, BytesOk, SizeOk, Concat, Send, Rest, Left, Passed, InOrder, BacklogOk, Record, Prompt;
      PromptMeans();
      var emptyQueue := writeQueueSize == 0;
      if emptyQueue && writeQueue != [] {
        SizeZero();
      }
      RecordIs();
      req := Enlist(bufs);
      Begin(req, emptyQueue);
    }

    lemma InQueue()
      requires RequestsOk()
      ensures forall r | r in writeQueue :: r in submitted
    {
    }

    /** A new request at the end of the queue. */
    method Enlist(bufs: seq<seq<byte>>) returns (req: Request)
      requires Inv() && bufs != []
      modifies `writeQueueSize, `writeQueue, `submitted, `order, `accepted
      ensures Inv() && fresh(req) && req.data == Concat(bufs) && req.taken == [] && req.error == 0 && Left(req) == bufs
      ensures writeQueue == old(writeQueue) + [req] && (writeQueue == [req] <==> old(writeQueue) == [])
      ensures writeQueue[|writeQueue| - 1] == req && (old(writeQueue) != [] ==> writeQueue[0] == old(writeQueue)[0] != req)
      ensures submitted == old(submitted) + [req] && writeQueueSize == old(writeQueueSize) + |Concat(bufs)|
      ensures accepted == old(accepted) + Concat(bufs) && (old(InOrder()) ==> InOrder())
    {
      hide RequestsOk, BytesOk, SizeOk, Concat, Rest, OrderOk;
      req := new Request(bufs);
      NewHead(writeQueue, req);
      InQueue();
      if InOrder() {
        Entered(order, gone, submitted, writeQueue, called, sent, req);
      }
      Append(req, bufs);
      order := order + [req];
      assert Left(req) == bufs;
    }

    /**
     * What is counted as unwritten: bytes of queued requests, and of failed ones that wait for their
     * callback. On a blocking stream that is connected no other write may be submitted while there
     * are any, and there can be: see AfterFailure, AfterConnect and AfterEmptyWrite.
     */
    lemma Unwritten()
      requires Inv()
      ensures writeQueueSize != 0 <==> exists r :: r in draining + completed + writeQueue && Rest(r) != []
      ensures forall r | r in draining + completed && Rest(r) != [] :: r.error != 0
    {
      hide Rest, NoDuplicates, Queued;
      PendingSome(draining);
      PendingSome(completed);
      PendingSome(writeQueue);
      forall r | r in draining + completed && Rest(r) != [] ensures r.error != 0 {
        EndedWell(r);
      }
    }

    /**
     * On a blocking stream that is connected a queued request was submitted while the connection was
     * being made, or stands behind one that was.
     */
    lemma Backlogged(i: nat)
      requires Inv() && Backlog() && blocking && !connecting && i < |submitted| && submitted[i] in writeQueue
      ensures begun <= i && begun < made <= |submitted|
    {
      hide NoDuplicates;
      var done := called + draining + completed;
      Parts(done, writeQueue);
      assert forall j :: 0 <= j < |done| ==> submitted[j] == done[j] && done[j] in done;
    }

    /** uv__write_req_size */
    method ReqSize(req: Request) returns (size: nat)
      requires req.bufs.Some? && req.writeIndex <= |req.bufs.value|
      requires writeQueueSize >= |Rest(req)|
      ensures size == |Rest(req)|
    {
      size := CountBufs(req.bufs.value[req.writeIndex..]);
      assert writeQueueSize >= size;
    }

    lemma IndexOk(req: Request)
      requires Queued(req) || Ended(req)
      ensures req.bufs.Some? ==> req.writeIndex <= |req.bufs.value|
      ensures req.bufs.None? ==> Rest(req) == []
    {
    }

    /** Lines 1544-1558: the request of uv_try_write leaves the queue it is in, and with it the bytes not written. */
    method Withdraw(req: Request) returns (left: nat)
      requires Inv() && submitted != [] && submitted[|submitted| - 1] == req && (req.error != 0 ==> failed)
      requires writeQueue == [] ==> completed != []
      modifies `writeQueueSize, `writeQueue, `completed, `submitted, `accepted, req`bufs
      ensures Inv() && left == |old(Rest(req))| && writeQueueSize == old(writeQueueSize) - left
      ensures submitted == old(submitted)[..|old(submitted)| - 1]
      ensures LastGone(old(writeQueue), old(completed), writeQueue, completed)
      ensures !failed ==> left <= old(|accepted|) && accepted == old(accepted)[..old(|accepted|) - left]
    {
      hide NoDuplicates, Concat, CountBufs, Queued, Ended, Rest, RequestsOk, BytesOk, SizeOk, Pending;
      Last(req);
      IndexOk(req);
      PendingSize(req);
      left := 0;
      if req.bufs.Some? {
        left := ReqSize(req);
      }
      if writeQueue != [] {
        WithdrawQueued(req, left);
      } else {
        WithdrawCompleted(req, left);
      }
    }

    lemma Last(req: Request)
      requires RequestsOk() && submitted != [] && submitted[|submitted| - 1] == req && (writeQueue == [] ==> completed != [])
      ensures writeQueue != [] ==> req == writeQueue[|writeQueue| - 1] && Queued(req)
      ensures writeQueue == [] ==> req == completed[|completed| - 1] && Ended(req)
    {
    }

    lemma PendingSize(req: Request)
      requires Inv() && (if writeQueue != [] then writeQueue[|writeQueue| - 1] == req else completed != [] && completed[|completed| - 1] == req)
      ensures |Rest(req)| <= writeQueueSize
    {
      hide Rest, RequestsOk;
      var q := if writeQueue != [] then writeQueue else completed;
      PendingLast(q);
    }

    method WithdrawQueued(req: Request, left: nat)
      requires Inv() && writeQueue != [] && writeQueue[|writeQueue| - 1] == req && left == |Rest(req)|
      modifies `writeQueueSize, `writeQueue, `submitted, `accepted, req`bufs
      ensures writeQueueSize == old(writeQueueSize) - left
      ensures Inv() && submitted == old(submitted)[..|old(submitted)| - 1] && writeQueue == old(writeQueue)[..|old(writeQueue)| - 1]
      ensures !failed ==> left <= old(|accepted|) && accepted == old(accepted)[..old(|accepted|) - left]
    {
      hide NoDuplicates, Rest, Pending, RequestsOk;
      ghost var q := writeQueue[..|writeQueue| - 1];
      PendingLast(writeQueue);
      DropLast(sent, Pending(q), Rest(req));
      CutQueue(req);
      writeQueueSize := writeQueueSize - left;
      accepted := if failed then accepted else accepted[..|accepted| - left];
    }

    /** The last request of the queue leaves it. */
    method CutQueue(req: Request)
      requires RequestsOk() && writeQueue != [] && writeQueue[|writeQueue| - 1] == req
      modifies `writeQueue, `submitted, req`bufs
      ensures RequestsOk() && submitted == old(submitted)[..|old(submitted)| - 1] && writeQueue == old(writeQueue)[..|old(writeQueue)| - 1]
      ensures Pending(writeQueue) == old(Pending(writeQueue[..|writeQueue| - 1]))
      ensures Pending(completed) == old(Pending(completed)) && Pending(draining) == old(Pending(draining))
    {
      hide NoDuplicates, Queued, Ended, Rest, Pending;
      ghost var q := writeQueue[..|writeQueue| - 1];
      LastIsApart(called + draining + completed, writeQueue);
      writeQueue := writeQueue[..|writeQueue| - 1];
      submitted := submitted[..|submitted| - 1];
      req.bufs := None;
      assert Pending(q) == old(Pending(q));
      forall x | x in q ensures Queued(x) {
        assert old(Queued(x));
      }
    }

    method WithdrawCompleted(req: Request, left: nat)
      requires Inv() && writeQueue == [] && completed != [] && completed[|completed| - 1] == req && left == |Rest(req)|
      requires req.error != 0 ==> failed
      modifies `writeQueueSize, `completed, `submitted, req`bufs
      ensures writeQueueSize == old(writeQueueSize) - left
      ensures Inv() && submitted == old(submitted)[..|old(submitted)| - 1] && completed == old(completed)[..|old(completed)| - 1]
      ensures !failed ==> left == 0
    {
      hide NoDuplicates, Queued, Rest, Ended, Pending;
      ghost var q := completed[..|completed| - 1];
      assert submitted == called + draining + completed;
      LastIsApart(called + draining, completed);
      PendingLast(completed);
      EndedWell(req);
      writeQueueSize := writeQueueSize - left;
      completed := completed[..|completed| - 1];
      submitted := submitted[..|submitted| - 1];
      req.bufs := None;
      assert submitted == called + draining + completed + writeQueue;
    }

    lemma EndedWell(req: Request)
      requires Ended(req)
      ensures req.error == 0 ==> Rest(req) == []
    {
    }

    lemma TakenIs(req: Request)
      requires RequestsOk() && (req in writeQueue || req in completed)
      ensures |Rest(req)| + |req.taken| == |req.data| && req.taken == req.data[..|req.taken|]
    {
      assert Queued(req) || Ended(req);
    }

    static lemma GoneQueue(q: seq<Request>, c: seq<Request>, q': seq<Request>, c': seq<Request>)
      requires LastGone(q, c, q', c')
      ensures forall r | r in q' :: r in q
    {
    }

    /** Lines 1544-1564: what the request of uv_try_write has sent is all that is left of it. */
    method Undo(req: Request, ghost q: seq<Request>, ghost c: seq<Request>) returns (left: nat)
      requires Inv() && submitted != [] && submitted[|submitted| - 1] == req && (req.error != 0 ==> failed)
      requires Passed(q + [req], c, writeQueue, completed)
      modifies `writeQueueSize, `writeQueue, `completed, `submitted, `gone, `accepted, req`bufs
      ensures Inv() && left + |req.taken| == |req.data| && req.taken == req.data[..|req.taken|]
      ensures writeQueueSize == old(writeQueueSize) - left && submitted == old(submitted)[..|old(submitted)| - 1]
      ensures Passed(q, c, writeQueue, completed) && (old(InOrder()) ==> InOrder())
      ensures (writeQueue != [] ==> old(writeQueue) != [] && q != []) && (completed != [] ==> old(completed) != [])
      ensures !failed ==> left <= old(|accepted|) && accepted == old(accepted)[..old(|accepted|) - left]
    {
      hide RequestsOk, SizeOk, BytesOk, Concat, CountBufs, Rest, Passed, LastGone, OrderOk;
      PassedLast(q, c, req, writeQueue, completed);
      TakenIs(req);
      ghost var before := submitted[..|submitted| - 1];
      assert submitted == before + [req];
      if InOrder() {
        TakenBack(order, gone, before, writeQueue, called, sent, req);
      }
      left := Withdraw(req);
      gone := gone + {req};
      if OrderOk(order, gone, submitted, old(writeQueue), called, sent) {
        GoneQueue(old(writeQueue), old(completed), writeQueue, completed);
        OrderStays(order, gone, submitted, old(writeQueue), called, sent, writeQueue, called);
      }
      PassedThenGone(q, c, req, old(writeQueue), old(completed), writeQueue, completed);
    }

    /**
     * uv_try_write: how many bytes went out, UV_EAGAIN if none of some did. What the kernel answered
     * shows in nothing else: the error of a write is not returned.
     */
    method Try(bufs: seq<seq<byte>>) returns (r: int)
      requires Inv() && bufs != []
      modifies `kernel, `writeQueueSize, `writeQueue, `completed, `pollOut, `fed, `sent, `failed, `submitted, `order, `gone, `accepted, Elems(Head())
      ensures Inv() && (old(Record()) ==> Record()) && (old(Prompt()) ==> Prompt()) && (old(failed) ==> failed)
      ensures submitted == old(submitted) && Passed(old(writeQueue), old(completed), writeQueue, completed) && writeQueueSize == old(writeQueueSize)
      ensures r == if connecting || writeQueueSize != 0 then UV_EAGAIN else if !open then UV_EBADF else if !writable then UV_EPIPE
                   else TryResult(|Concat(bufs)|, if old(writeQueue) == [] then Send(bufs, old(kernel), iovMax, blocking).taken else 0)
      ensures connecting || writeQueueSize != 0 || !open ==> writeQueue == old(writeQueue)
      ensures r >= 0 ==> r <= |Concat(bufs)| && sent == old(sent) + Concat(bufs)[..r]
      ensures r < 0 ==> sent == old(sent)
      ensures !failed ==> accepted == old(accepted) + Concat(bufs)[..if r > 0 then r else 0]
      ensures pollOut ==> old(pollOut)
    {
      hide RequestsOk, SizeOk, BytesOk, Concat, CountBufs, Rest, Passed, Left, Send, InOrder, BacklogOk, Record;
      RecordIs();
      if connecting || writeQueueSize != 0 {
        return UV_EAGAIN;
      }
      var hasPollOut := pollOut;
      var err, req := Submit(bufs);
      if err != 0 {
        return err;
      }
      RecordIs();
      r := Reckon(req, bufs, hasPollOut, old(writeQueue), old(completed), old(accepted));
    }

    static lemma PassedSize(q: seq<Request>, c: seq<Request>, q': seq<Request>, c': seq<Request>)
      requires Passed(q, c, q', c')
      ensures |q'| <= |q|
    {
    }

    /** Lines 1544-1569: the request is taken back, and what it has sent is the result. */
    method Reckon(req: Request, bufs: seq<seq<byte>>, hasPollOut: bool, ghost q: seq<Request>, ghost c: seq<Request>, ghost before: seq<byte>)
      returns (r: int)
      requires Inv() && submitted != [] && submitted[|submitted| - 1] == req && (req.error != 0 ==> failed)
      requires Passed(q + [req], c, writeQueue, completed) && req.data == Concat(bufs) && accepted == before + req.data
      modifies `writeQueueSize, `writeQueue, `completed, `submitted, `gone, `accepted, `pollOut, req`bufs
      ensures Inv() && submitted == old(submitted)[..|old(submitted)| - 1] && Passed(q, c, writeQueue, completed)
      ensures |req.taken| <= |Concat(bufs)| && writeQueueSize == old(writeQueueSize) - (|Concat(bufs)| - |req.taken|)
      ensures r == TryResult(|Concat(bufs)|, |req.taken|) && req.taken == Concat(bufs)[..|req.taken|]
      ensures (writeQueue != [] ==> old(writeQueue) != [] && q != []) && (completed != [] ==> old(completed) != [])
      ensures !failed ==> accepted == before + req.taken
      ensures pollOut == (hasPollOut && old(pollOut))
      ensures old(BacklogOk(blocking, connecting, begun, made, |submitted| - 1, |q|) && InOrder()) ==> Record()
    {
      hide RequestsOk, SizeOk, BytesOk, Concat, CountBufs, Passed, InOrder, Record, BacklogOk;
      var left := Undo(req, q, c);
      PassedSize(q, c, writeQueue, completed);
      if old(BacklogOk(blocking, connecting, begun, made, |submitted| - 1, |q|)) {
        FewerInBacklog(blocking, connecting, begun, made, |submitted|, |q|, |writeQueue|);
      }
      RecordIs();
      DropLast(before, req.taken, req.data[|req.taken|..]);
      var written := CountBufs(bufs) - left;
      if !hasPollOut {
        pollOut := false;
      }
      return if written == 0 && left != 0 then UV_EAGAIN else written;
    }

    /** uv__stream_flush_write_queue */
    method Flush(error: Error)
      requires Inv()
      modifies `writeQueue, `completed, `failed, Elems(writeQueue)`bufs, Elems(writeQueue)`error
      ensures Inv() && (old(Record()) ==> Record()) && writeQueue == [] && completed == old(completed) + old(writeQueue)
      ensures draining == [] ==> called + completed == submitted
      ensures forall r | r in old(writeQueue) :: r.error == error
    {
      hide RequestsOk, BytesOk, SizeOk, InOrder, Record, BacklogOk;
      RecordIs();
      ghost var n, ordered := |writeQueue|, Record();
      ghost var done: seq<Request> := [];
      while writeQueue != []
        invariant Inv() && (ordered ==> InOrder()) && old(writeQueue) == done + writeQueue && completed == old(completed) + done
        invariant forall r | r in done :: r.error == error
        decreases |writeQueue|
      {
        var req := writeQueue[0];
        NotDone(old(completed), done, writeQueue);
        OneOver(old(writeQueue), old(completed), done, writeQueue);
        FlushHead(req, error);
        done := done + [req];
      }
      NoneQueued();
      if ordered {
        FewerInBacklog(blocking, connecting, begun, made, |submitted|, n, 0);
      }
      RecordIs();
    }

    lemma NoneQueued()
      requires RequestsOk() && writeQueue == []
      ensures draining == [] ==> called + completed == submitted
    {
      if draining == [] {
        assert called + [] + completed + [] == called + completed;
      }
    }

    lemma Members()
      requires RequestsOk()
      ensures Elems(Head()) <= Elems(writeQueue) <= Elems(submitted)
      ensures Elems(completed) <= Elems(submitted) && Elems(draining) <= Elems(submitted)
    {
    }

    lemma NotDone(before: seq<Request>, done: seq<Request>, q: seq<Request>)
      requires RequestsOk() && q == writeQueue != [] && completed == before + done
      ensures q[0] !in done
    {
      hide NoDuplicates;
      HeadIsApart(called, draining, completed, q);
    }

    /** uv_close as the write side sees it: the descriptor is gone and nothing will call uv__stream_io again. */
    method Shut()
      requires Inv()
      modifies `open, `pollOut, `fed
      ensures Inv() && Prompt() && !open && (old(Record()) ==> Record())
    {
      hide RequestsOk, SizeOk, BytesOk, Backlog, OrderOk;
      open, pollOut, fed := false, false, false;
    }

    /** Lines 961-972: the oldest request in pq is taken off it, and its unwritten bytes off the count. */
    method Pop(req: Request)
      requires Inv() && draining != [] && req == draining[0]
      modifies `draining, `called, `writeQueueSize, req`bufs
      ensures Inv() && draining == old(draining)[1..] && called == old(called) + [req]
      ensures old(Record()) ==> Record()
    {
      hide RequestsOk, SizeOk, BytesOk, Backlog, OrderOk;
      ghost var ordered := Record();
      FirstEnded(req);
      TakeOff(req);
      if ordered {
        assert OrderOk(order, gone, submitted, writeQueue, old(called), sent);
        OrderStays(order, gone, submitted, writeQueue, old(called), sent, writeQueue, called);
      }
    }

    lemma FirstEnded(req: Request)
      requires RequestsOk() && draining != [] && req == draining[0]
      ensures req.error == 0 ==> req.taken == req.data
    {
      hide NoDuplicates;
      assert Ended(req);
    }

    method TakeOff(req: Request)
      requires Inv() && draining != [] && req == draining[0]
      modifies `draining, `called, `writeQueueSize, req`bufs
      ensures Inv() && draining == old(draining)[1..] && called == old(called) + [req]
    {
      hide NoDuplicates, Queued, Ended, Rest, BytesOk, Pending, Concat, CountBufs;
      MiddleIsApart(called, draining, completed, writeQueue);
      PendingFirst(draining);
      IndexOk(req);
      Uncount(req);
      draining := draining[1..];
      called := called + [req];
    }

    /** Lines 967-972: the unwritten bytes of a failed request are no longer counted, and its buffers are freed. */
    method Uncount(req: Request)
      requires if req.bufs.Some? then req.writeIndex <= |req.bufs.value| && writeQueueSize >= |Rest(req)| else Rest(req) == []
      modifies `writeQueueSize, req`bufs
      ensures writeQueueSize == old(writeQueueSize - |Rest(req)|) && req.bufs == None
    {
      hide Rest;
      if req.bufs != None {
        var size := ReqSize(req);
        writeQueueSize := writeQueueSize - size;
        req.bufs := None;
      }
    }

    method Callback(calls: seq<Call>)
      requires Inv()
      modifies `kernel, `open, `writeQueueSize, `writeQueue, `completed, `pollOut, `fed, `sent, `failed, `submitted, `order, `gone, `accepted, Elems(submitted)
      ensures Inv() && (old(Record()) ==> Record()) && (old(Prompt()) ==> Prompt()) && (old(failed) ==> failed)
      ensures old(submitted) <= submitted && old(completed) <= completed && (open <==> old(open) && Close !in calls)
      ensures !old(open) ==> submitted == old(submitted) && writeQueue == old(writeQueue) && completed == old(completed)
      ensures calls == [] ==> pollOut == old(pollOut) && submitted == old(submitted) && writeQueue == old(writeQueue) && completed == old(completed)
                              && writeQueueSize == old(writeQueueSize)
      ensures fresh(Elems(submitted) - old(Elems(submitted)))
      ensures forall r | r in old(called) :: r.error == old(r.error)
      ensures forall r | r in old(draining) :: r.error == old(r.error)
      ensures forall r | r in old(completed) :: r.error == old(r.error)
    {
      hide RequestsOk, SizeOk, BytesOk, Record;
      for i := 0 to |calls|
        invariant Inv() && (old(Record()) ==> Record()) && (old(Prompt()) ==> Prompt()) && (old(failed) ==> failed)
        invariant old(submitted) <= submitted && old(completed) <= completed && (open <==> old(open) && Close !in calls[..i])
        invariant !old(open) ==> submitted == old(submitted) && writeQueue == old(writeQueue) && completed == old(completed)
        invariant called == old(called) && draining == old(draining)
        invariant forall r | r in old(called) :: r.error == old(r.error)
        invariant forall r | r in old(draining) :: r.error == old(r.error)
        invariant forall r | r in old(completed) :: r.error == old(r.error)
        invariant i == 0 ==> pollOut == old(pollOut) && submitted == old(submitted) && writeQueue == old(writeQueue) && completed == old(completed)
                             && writeQueueSize == old(writeQueueSize)
        invariant fresh(Elems(submitted) - old(Elems(submitted)))
      {
        Members();
        Do(calls[i]);
      }
    }

    /** The requests that are over, called back or not. */
    ghost function AllOver(): seq<Request>
      reads `called, `draining, `completed
    {
      called + draining + completed
    }

    lemma QueuedIsApart()
      requires RequestsOk()
      ensures forall r | r in AllOver() :: r !in Elems(writeQueue)
    {
      hide NoDuplicates, Queued, Ended;
      Parts(called + draining + completed, writeQueue);
    }

    /** What is over is not written to any more. */
    lemma OverIsApart()
      requires RequestsOk()
      ensures forall r | r in AllOver() :: r !in Elems(Head())
    {
      hide NoDuplicates, Queued, Ended;
      if writeQueue != [] {
        HeadIsApart(called, draining, completed, writeQueue);
      }
    }

    /** One call from a callback, if the stream allows it. */
    method Do(call: Call)
      requires Inv()
      modifies `kernel, `open, `writeQueueSize, `writeQueue, `completed, `pollOut, `fed, `sent, `failed, `submitted, `order, `gone, `accepted, Elems(Head())
      ensures Inv() && (old(Record()) ==> Record()) && (old(Prompt()) ==> Prompt()) && (old(failed) ==> failed)
      ensures old(submitted) <= submitted && old(completed) <= completed && (open <==> old(open) && call != Close)
      ensures !old(open) ==> submitted == old(submitted) && writeQueue == old(writeQueue) && completed == old(completed)
      ensures fresh(Elems(submitted) - old(Elems(submitted)))
      ensures forall r | r in old(called) :: r.error == old(r.error)
      ensures forall r | r in old(draining) :: r.error == old(r.error)
      ensures forall r | r in old(completed) :: r.error == old(r.error)
    {
      hide RequestsOk, SizeOk, BytesOk, Record;
      OverIsApart();
      match call
      case Write(bufs) =>
        if bufs != [] && !(blocking && writeQueueSize != 0) {
          var err, req := Submit(bufs);
        }
      case TryWrite(bufs) =>
        if bufs != [] {
          var r := Try(bufs);
        }
      case Close =>
        if open {
          Shut();
        }
    }

    /** Line 958: QUEUE_MOVE(&stream->write_completed_queue, &pq). */
    method MoveCompleted()
      requires Inv() && draining == []
      modifies `draining, `completed
      ensures Inv() && (old(Record()) ==> Record()) && draining == old(completed) && completed == []
    {
      hide NoDuplicates, Queued, Ended, Rest, BytesOk, Backlog, OrderOk;
      assert called + [] + completed + writeQueue == called + completed + [] + writeQueue;
      draining, completed := completed, [];
    }

    /** uv__write_callbacks; the k-th callback makes the calls scripts[k]. */
    method Callbacks(scripts: seq<seq<Call>>)
      requires Inv() && draining == []
      modifies `kernel, `open, `writeQueueSize, `writeQueue, `completed, `draining, `called, `pollOut, `fed, `sent, `failed, `submitted, `order, `gone, `accepted
      modifies Elems(submitted)
      ensures Inv() && (old(Record()) ==> Record()) && draining == [] && (old(Watched()) ==> Prompt()) && (old(failed) ==> failed)
      ensures called == old(called) + old(completed) && old(submitted) <= submitted && (open ==> old(open))
      ensures !old(open) ==> submitted == old(submitted) && writeQueue == old(writeQueue) && completed == []
      ensures forall r | r in old(called) :: r.error == old(r.error)
      ensures forall r | r in old(completed) :: r.error == old(r.error)
    {
      hide RequestsOk, SizeOk, BytesOk, Record;
      if completed == [] {
        return;
      }
      MoveCompleted();
      CallAll(scripts);
    }

    /** The loop of lines 960-978. */
    method CallAll(scripts: seq<seq<Call>>)
      requires Inv()
      modifies `kernel, `open, `writeQueueSize, `writeQueue, `completed, `draining, `called, `pollOut, `fed, `sent, `failed, `submitted, `order, `gone, `accepted
      modifies Elems(submitted)
      ensures Inv() && draining == [] && (old(Record()) ==> Record()) && (old(Prompt()) ==> Prompt()) && (old(failed) ==> failed)
      ensures called == old(called) + old(draining) && old(submitted) <= submitted && (open ==> old(open))
      ensures !old(open) ==> submitted == old(submitted) && writeQueue == old(writeQueue) && completed == old(completed)
      ensures forall r | r in called :: r.error == old(r.error)
    {
      hide RequestsOk, SizeOk, BytesOk, Record, Prompt;
      ghost var over := called + draining;
      var k := 0;
      while draining != []
        invariant Inv() && (old(Record()) ==> Record()) && (old(Prompt()) ==> Prompt()) && (old(failed) ==> failed)
        invariant called + draining == over == old(called) + old(draining) && old(submitted) <= submitted && (open ==> old(open))
        invariant !old(open) ==> submitted == old(submitted) && writeQueue == old(writeQueue) && completed == old(completed)
        invariant fresh(Elems(submitted) - old(Elems(submitted)))
        invariant forall r | r in over :: r.error == old(r.error)
        decreases |draining|
      {
        assert forall r | r in over :: r in called || r in draining;
        Members();
        CallNext(if k < |scripts| then scripts[k] else []);
        k := k + 1;
      }
    }

    method CallNext(calls: seq<Call>)
      requires Inv() && draining != []
      modifies `kernel, `open, `writeQueueSize, `writeQueue, `completed, `draining, `called, `pollOut, `fed, `sent, `failed, `submitted, `order, `gone, `accepted
      modifies Elems(submitted)
      ensures Inv() && (old(Record()) ==> Record()) && (old(Prompt()) ==> Prompt()) && (old(failed) ==> failed)
      ensures draining == old(draining)[1..] && called == old(called) + [old(draining)[0]]
      ensures old(submitted) <= submitted && (open ==> old(open)) && fresh(Elems(submitted) - old(Elems(submitted)))
      ensures !old(open) ==> submitted == old(submitted) && writeQueue == old(writeQueue) && completed == old(completed)
      ensures forall r | r in old(called) :: r.error == old(r.error)
      ensures forall r | r in old(draining) :: r.error == old(r.error)
      ensures forall r | r in old(completed) :: r.error == old(r.error)
    {
      hide RequestsOk, SizeOk, BytesOk, Record;
      Members();
      Pop(draining[0]);
      Callback(calls);
    }

    /**
     * uv__stream_io for a writable descriptor on a connected stream. `pending` says that the loop's
     * pending queue brought it here, which takes the watcher out of that queue.
     */
    method StreamIo(pending: bool, scripts: seq<seq<Call>>)
      requires Inv() && Prompt() && open && !connecting && draining == [] && (pending ==> fed)
      modifies `kernel, `open, `writeQueueSize, `writeQueue, `completed, `draining, `called, `pollOut, `fed, `sent, `failed, `submitted, `order, `gone, `accepted
      modifies Elems(submitted)
      ensures Inv() && (old(Record()) ==> Record()) && Prompt() && draining == [] && (old(failed) ==> failed)
      ensures old(called + completed) <= called && old(submitted) <= submitted
      ensures writeQueue == [] ==> !pollOut
      ensures old(writeQueue) != [] && old(kernel) != [] && old(kernel)[0].Fail? ==>
                old(writeQueue)[0] in called && old(writeQueue)[0].error == old(kernel)[0].error
      ensures old(writeQueue) != [] && old(kernel) == [] && !blocking && |old(Left(writeQueue[0]))| <= iovMax ==>
                old(writeQueue)[0] in called && old(writeQueue)[0].error == 0
    {
      hide RequestsOk, SizeOk, BytesOk, Backlog, OrderOk, Left;
      if pending {
        fed := false;
      }
      Serve(scripts);
      if writeQueue == [] {
        // uv__drain
        pollOut := false;
      }
    }

    /** uv__write and uv__write_callbacks. */
    method Serve(scripts: seq<seq<Call>>)
      requires Inv() && open && !connecting && draining == []
      modifies `kernel, `open, `writeQueueSize, `writeQueue, `completed, `draining, `called, `pollOut, `fed, `sent, `failed, `submitted, `order, `gone, `accepted
      modifies Elems(submitted)
      ensures Inv() && (old(Record()) ==> Record()) && Prompt() && draining == [] && (old(failed) ==> failed)
      ensures old(called + completed) <= called && old(submitted) <= submitted
      ensures old(writeQueue) != [] && old(kernel) != [] && old(kernel)[0].Fail? ==>
                old(writeQueue)[0] in called && old(writeQueue)[0].error == old(kernel)[0].error
      ensures old(writeQueue) != [] && old(kernel) == [] && !blocking && |old(Left(writeQueue[0]))| <= iovMax ==>
                old(writeQueue)[0] in called && old(writeQueue)[0].error == 0
    {
      hide RequestsOk, SizeOk, BytesOk, Left, Send, Over, Sent, Rest, InOrder, Concat;
      Members();
      WriteOut();
      assert Watched();
      Callbacks(scripts);
    }

    /** The connect(2) calls of tcp.c and pipe.c, on a stream on which nothing was written yet. */
    method BeginConnect(delayedError: bool)
      requires Inv() && open && !connecting && writeQueue == [] && completed == []
      modifies `connecting, `begun, `pollOut, `fed
      ensures begun == |submitted| && (old(Record()) ==> Record())
      ensures Inv() && Prompt() && connecting && (if delayedError then fed else pollOut)
    {
      hide RequestsOk, SizeOk, BytesOk, OrderOk;
      connecting, begun := true, |submitted|;
      if delayedError {
        fed := true;
      } else {
        pollOut := true;
      }
    }

    /** connect_req is NULL again. */
    method Connected()
      requires Inv() && connecting
      modifies `connecting, `made
      ensures Inv() && !connecting && made == |submitted| && (old(Record()) ==> Record())
    {
      hide RequestsOk, SizeOk, BytesOk, OrderOk;
      connecting, made := false, |submitted|;
    }

    /** uv__stream_connect from line 1391 on: the connection is made, or it failed and all requests are cancelled. */
    method Connect(error: int, calls: seq<Call>, scripts: seq<seq<Call>>)
      requires Inv() && open && connecting && draining == [] && completed == []
      requires error < 0 || pollOut
      modifies `kernel, `open, `connecting, `made, `writeQueueSize, `writeQueue, `completed, `draining, `called, `pollOut, `fed, `sent, `failed, `submitted, `order, `gone, `accepted
      modifies Elems(submitted)
      ensures Inv() && (old(Record()) ==> Record()) && made == |old(submitted)| && old(submitted) <= submitted && Prompt() && draining == [] && !connecting
      ensures error < 0 && Close !in calls ==> old(submitted) <= called
      ensures error >= 0 && calls == [] ==> open && submitted == old(submitted) && writeQueue == old(writeQueue) && completed == [] && writeQueueSize == old(writeQueueSize)
      ensures error < 0 && calls == [] ==> forall r | r in old(writeQueue) :: r.error == UV_ECANCELED
      ensures error >= 0 && calls == [] ==> pollOut == (old(pollOut) && old(writeQueue) != [])
    {
      hide RequestsOk, SizeOk, BytesOk, Record;
      Connected();
      if error < 0 || writeQueue == [] {
        pollOut := false;
      }
      Callback(calls);
      if !open {
        return;
      }
      if error < 0 {
        Cancel(scripts);
      }
    }

    /** Lines 1403-1406 */
    method Cancel(scripts: seq<seq<Call>>)
      requires Inv() && draining == [] && !connecting
      modifies `kernel, `open, `writeQueueSize, `writeQueue, `completed, `draining, `called, `pollOut, `fed, `sent, `failed, `submitted, `order, `gone, `accepted
      modifies Elems(submitted)
      ensures Inv() && (old(Record()) ==> Record()) && Prompt() && draining == [] && old(submitted) <= called && old(submitted) <= submitted
      ensures forall r | r in old(writeQueue) :: r.error == UV_ECANCELED
    {
      hide RequestsOk, SizeOk, BytesOk, Record;
      Members();
      Flush(UV_ECANCELED);
      Callbacks(scripts);
    }

    /** uv__stream_destroy: each request has had its callback exactly once, and nothing is counted any more. */
    method Destroy(calls: seq<Call>, scripts: seq<seq<Call>>)
      requires Inv() && !open && draining == []
      modifies `kernel, `open, `connecting, `made, `writeQueueSize, `writeQueue, `completed, `draining, `called, `pollOut, `fed, `sent, `failed, `submitted, `order, `gone, `accepted
      modifies Elems(submitted)
      ensures Inv() && (old(Record()) ==> Record()) && writeQueue == completed == draining == [] && writeQueueSize == 0
      ensures submitted == old(submitted) && called == submitted && NoDuplicates(called)
      ensures forall r | r in old(writeQueue) :: r.error == UV_ECANCELED
      ensures forall r | r in old(called) :: r.error == old(r.error)
      ensures forall r | r in old(completed) :: r.error == old(r.error)
    {
      hide RequestsOk, SizeOk, BytesOk, Record;
      if connecting {
        Callback(calls);
        Connected();
      }
      Members();
      QueuedIsApart();
      Flush(UV_ECANCELED);
      Callbacks(scripts);
      AllCalled();
      assert writeQueueSize == 0;
    }

    lemma AllCalled()
      requires Inv() && writeQueue == [] && completed == [] && draining == []
      ensures writeQueueSize == 0 && called == submitted && NoDuplicates(called)
    {
      assert called + [] + [] + [] == called;
    }
  }

  /** A blocking stream on which a write has failed, before its callback: another write would fail the assertion. */
  method AfterFailure(iovMax: nat, error: Error) returns (s: Stream)
    requires iovMax > 0
    ensures s.Inv() && s.blocking && s.open && s.writable && !s.connecting
    ensures s.writeQueueSize == 1 && s.writeQueue == []
  {
    hide Stream.Record, Stream.SizeOk, Stream.BytesOk, Send, Rest, Stream.Prompt, Concat, CountBufs;
    s := new Stream(iovMax, true, [Fail(error)]);
    FirstFails([[0]], error, iovMax);
    var err, req := s.Submit([[0]]);
    OneBuf([0]);
  }

  /** And one whose connection was made with a request queued, in or after the callback of the connection. */
  method AfterConnect(iovMax: nat) returns (s: Stream)
    requires iovMax > 0
    ensures s.Inv() && s.blocking && s.open && s.writable && !s.connecting
    ensures s.writeQueueSize == 1 && s.completed == []
  {
    hide *;
    OneBuf([0]);
    var req;
    s, req := Established(iovMax, [[0]]);
  }

  /** A blocking stream that is being connected. */
  method Connecting(iovMax: nat) returns (s: Stream)
    requires iovMax > 0
    ensures fresh(s) && s.Inv() && s.Record() && s.Prompt() && s.blocking && s.open && s.writable && s.connecting && s.pollOut && s.begun == 0
    ensures s.submitted == s.writeQueue == s.completed == s.draining == [] && s.writeQueueSize == 0
  {
    hide Stream.RequestsOk, Stream.SizeOk, Stream.BytesOk, Stream.Record, Stream.Prompt;
    s := new Stream(iovMax, true, []);
    s.BeginConnect(false);
  }

  /** A blocking stream on which one request was submitted while the connection was being made. */
  method Established(iovMax: nat, bufs: seq<seq<byte>>) returns (s: Stream, req: Request)
    requires iovMax > 0 && bufs != []
    ensures fresh(s) && fresh(req) && s.Inv() && s.Record() && s.blocking && s.open && s.writable && !s.connecting
    ensures s.writeQueue == s.submitted == [req] && s.completed == [] && s.writeQueueSize == |Concat(bufs)|
    ensures s.begun == 0 && s.made == 1
  {
    hide Stream.RequestsOk, Stream.SizeOk, Stream.BytesOk, Stream.Record, Stream.Prompt, Concat, CountBufs, Send, Rest, Left;
    s := Connecting(iovMax);
    var err, r := s.Submit(bufs);
    req := r;
    s.Connect(0, [], []);
  }

  /**
   * And one on which a request was queued while connecting that had no bytes: the write after it sends
   * that one, and stays queued itself, so that the next write would fail the assertion.
   */
  method AfterEmptyWrite(iovMax: nat) returns (s: Stream, req: Request)
    requires iovMax > 0
    ensures s.Inv() && s.Record() && s.blocking && s.open && s.writable && !s.connecting
    ensures s.writeQueueSize == 1 && s.writeQueue == [req] && req.error == 0 && req.taken == []
    ensures s.made == 1 && s.submitted[1..] == [req]
  {
    hide Stream.RequestsOk, Stream.SizeOk, Stream.BytesOk, Stream.Record, Send, Stream.Prompt, Concat, CountBufs;
    OneBuf([]);
    OneBuf([0]);
    var first;
    s, first := Established(iovMax, [[]]);
    var err, r := s.Submit([[0]]);
    req := r;
  }

  /** uv_try_write when the kernel refuses: UV_EAGAIN for a byte, 0 for an empty buffer, and neither is the error. */
  method TryRefused(iovMax: nat, blocking: bool, error: Error) returns (one: int, none: int)
    requires iovMax > 0
    ensures one == UV_EAGAIN && none == 0
  {
    hide Stream.Record, Stream.RequestsOk, Stream.SizeOk, Stream.BytesOk, Send, Passed, Stream.Prompt, Concat, CountBufs;
    FirstFails([[0]], error, iovMax);
    FirstFails([[]], error, iovMax);
    OneBuf([0]);
    OneBuf([]);
    var s := new Stream(iovMax, blocking, [Fail(error)]);
    one := s.Try([[0]]);
    s := new Stream(iovMax, blocking, [Fail(error)]);
    none := s.Try([[]]);
  }

  lemma MiddleIsApart<T>(a: seq<T>, b: seq<T>, c: seq<T>, d: seq<T>)
    requires NoDuplicates(a + b + c + d) && b != []
    ensures b[0] !in b[1..] && b[0] !in c && b[0] !in d && forall x | x in b[1..] :: x in b
    ensures a + b + c + d == a + [b[0]] + b[1..] + c + d
  {
    hide NoDuplicates;
    var c', b' := c + d, b[1..];
    assert a + b + c + d == a + (b + c');
    Parts(a, b + c');
    Parts(b, c');
    assert b == [b[0]] + b' && b[0] in b && b[0] in [b[0]];
    Parts([b[0]], b');
    assert a + [b[0]] + b' == a + b;
  }

  lemma DropLast<T>(a: seq<T>, b: seq<T>, c: seq<T>)
    ensures (a + (b + c))[..|a| + |b|] == a + b
  {
  }

  lemma LastIsApart<T>(a: seq<T>, q: seq<T>)
    requires NoDuplicates(a + q) && q != []
    ensures q[|q| - 1] !in a && q[|q| - 1] !in q[..|q| - 1] && forall x | x in q[..|q| - 1] :: x in q
    ensures NoDuplicates(a + q[..|q| - 1]) && (a + q)[..|a + q| - 1] == a + q[..|q| - 1]
  {
    var all := a + q;
    assert all[|all| - 1] == q[|q| - 1];
    assert forall i :: 0 <= i < |a| ==> all[i] == a[i];
    assert forall i :: 0 <= i < |q| ==> all[|a| + i] == q[i];
  }

  lemma Shift<T>(a: seq<T>, c: seq<T>, q: seq<T>)
    requires q != []
    ensures a + c + q == a + (c + [q[0]]) + q[1..]
  {
  }

  lemma OneOver<T>(all: seq<T>, c: seq<T>, done: seq<T>, q: seq<T>)
    requires all == done + q && q != []
    ensures q[0] in all && all == (done + [q[0]]) + q[1..] && c + done + [q[0]] == c + (done + [q[0]])
  {
    assert all[|done|] == q[0];
  }

  lemma HeadIsApart<T>(a: seq<T>, b: seq<T>, c: seq<T>, q: seq<T>)
    requires NoDuplicates(a + b + c + q) && q != []
    ensures q[0] !in a && q[0] !in b && q[0] !in c && q[0] !in q[1..]
  {
    var all := a + b + c + q;
    var k := |a| + |b| + |c|;
    assert forall i :: 0 <= i < |a| ==> all[i] == a[i];
    assert forall i :: 0 <= i < |b| ==> all[|a| + i] == b[i];
    assert forall i :: 0 <= i < |c| ==> all[|a| + |b| + i] == c[i];
    assert forall i :: 0 <= i < |q| ==> all[k + i] == q[i];
  }

  lemma Regroup<T>(s: seq<T>, r: seq<T>, n: nat, t: seq<T>)
    requires n <= |r|
    ensures s + r[..n] + (r[n..] + t) == s + (r + t)
  {
  }

  /** The buffer at i, when m bytes are skipped from there on. */
  lemma SkipBuf(bufs: seq<seq<byte>>, i: nat, m: nat)
    requires i < |bufs|
    ensures m < |bufs[i]| ==> Skip(bufs[i..], m) == bufs[i := bufs[i][m..]][i..]
    ensures m >= |bufs[i]| ==> Skip(bufs[i..], m) == Skip(bufs[i + 1..], m - |bufs[i]|)
    ensures CountBufs(bufs[i..]) == |bufs[i]| + CountBufs(bufs[i + 1..])
    ensures i + 1 == |bufs| && m >= |bufs[i]| ==> bufs[i + 1..] == [] && CountBufs(bufs[i + 1..]) == 0 && Skip(bufs[i..], m) == []
  {
    assert bufs[i..][0] == bufs[i] && bufs[i..][1..] == bufs[i + 1..];
    if m < |bufs[i]| {
      assert bufs[i := bufs[i][m..]][i..] == [bufs[i][m..]] + bufs[i + 1..];
    }
  }
}
