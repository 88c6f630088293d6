/** uv__signal_compare: the order in which libuv/src/unix/signal.c keeps its handles. */
module SignalKey {
  /** What the comparison looks at: a loop and a handle are compared by their addresses. */
  datatype Key = Key(signum: int, oneshot: bool, loop: nat, handle: nat)

  function Compare(a: Key, b: Key): int {
    if a.signum < b.signum then -1
    else if a.signum > b.signum then 1
    else if !a.oneshot && b.oneshot then -1
    else if a.oneshot && !b.oneshot then 1
    else if a.loop < b.loop then -1
    else if a.loop > b.loop then 1
    else if a.handle < b.handle then -1
    else if a.handle > b.handle then 1
    else 0
  }

  predicate Less(a: Key, b: Key) {
    Compare(a, b) < 0
  }

  lemma Asymmetric(a: Key, b: Key)
    ensures a == b || Less(a, b) ==> !Less(b, a)
  {}

  /** The comparison is a total order on keys, with 0 for equal keys only. */
  lemma TotalOrder(a: Key, b: Key, c: Key)
    ensures Compare(a, b) == 0 <==> a == b
    ensures Compare(a, b) == -Compare(b, a)
    ensures Less(a, b) && Less(b, c) ==> Less(a, c)
  {}

  /** By signal; regular handles before one-shot ones; then by loop, and by handle. */
  lemma OrderIs(a: Key, b: Key)
    ensures a.signum < b.signum ==> Less(a, b)
    ensures a.signum == b.signum && !a.oneshot && b.oneshot ==> Less(a, b)
    ensures a.signum == b.signum && a.oneshot == b.oneshot && a.loop < b.loop ==> Less(a, b)
    ensures a.signum == b.signum && a.oneshot == b.oneshot && a.loop == b.loop && a.handle < b.handle ==> Less(a, b)
  {}
}
