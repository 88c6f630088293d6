# The event loop's data structures, protocols and codecs

This project models the parts of the bundled libuv 1.23 and of the `uv` layer above it whose
correctness is not visible from one function, and proves what they are for. `dafny verify dfyconfig.toml`
checks all of it.

The code is modelled in its own form. Objects that are updated in place are classes with the fields of
the C structs, and every method is proved against a value: a tree, a sequence, a map, the list of
callbacks that ran. What is promised is then proved about these values. Threads are state machines whose
steps are what a thread does between two points where another one can come in, and the results hold
after every run.

- **Domain names** (`Utf8`, `Punycode`, `Idna`, `KnownCodes`): the label encoder of `idna.c` with its 32-bit
  arithmetic, against the decoder of RFC 3492, section 6.2, the encoding of RFC 3629, and known codes.
- **Signals** (`RbShape`, `RbHeight`, `RbLinks`, `RbInsert`, `RbRemove`, `RbSearch`, `SignalKey`, `Signals`): the
  red-black tree macros of `tree.h` on nodes with parent pointers, for the one kind of tree the library
  keeps in this way, that of signal handles; and `signal.c` on top, with its tree, pipes, counters and
  dispositions. The macros write each case twice, for left and right; here a case is written once, with
  the side as a parameter.
- **Timers** (`Heap`, `Timers`): the pointer heap of `heap-inl.h`, whose positions are reached by the bits
  of the element count, and `timer.c`.
- **Thread pool** (`ThreadPool`, `PoolWakeUp`, `PoolOrder`, `Completion`): workers, submission, cancellation, order and wake-ups of
  `threadpool.c`, and how finished requests get back to their loops through `async.c`.
- **Streams** (`Writes`, `Stream`): the write queue of `stream.c` with short writes, errors, `uv_try_write`, and
  callbacks that write, try or close.
- **Addresses** (`Inet4`, `Inet6`, `Inet6Grammar`): printers and parsers of `inet.c`, and the grammar of
  RFC 4291, section 2.2.
- **Wake-up** (`Async`): `uv_async_send` and `uv__async_io`, and `CLooper::PushEvent` and `DoEvent` on them.
- **Queues and watchers** (`Queue`, `LoopWatcher`, `PowerOfTwo`, `Watchers`, `PollArray`, `IoPoll`): the
  circular lists of `queue.h`, the passes over prepare, check and idle handles, the watcher table of
  `core.c`, the array given to poll(2), and `uv__io_poll` over both.
- **Packets** (`Packet`): `PacketSync::OnRecvData` against the stream of packets, however it was cut. Bytes and texts written
  out for this and the other codecs are in `KnownAnswers`.

The kernel is a parameter: a list of outcomes of writes, whether a pipe took a message, what poll(2)
found. So is what a callback does: a script of calls. The theorems hold for all of them.

## Where the code does not do what one would expect

- `uv_try_write` does not return the error of a write. What it returns depends only on how many bytes went
  out before: their number, UV_EAGAIN for none of some, and 0 when there was nothing to write, also if the
  write failed (`Stream.Stream.Try`, `Writes.ErrorIsHidden`, `Stream.TryRefused`); on a blocking stream a
  failure after a short write does not show at all (`Writes.FailedLater`).
- A signal handle that was once started with `uv_signal_start_oneshot` stays one-shot when it is started
  again with `uv_signal_start` (`Signals.Watchers.Start`).
- A one-shot signal handle that is started while other handles watch the signal, and the signal has its default
  disposition, gets no handler installed, and its signal is not caught (`Signals.Watchers.UncaughtExactly`). This
  is so when the handler of a one-shot handle has been dropped on delivery (`Signals.UncaughtStart`).
- When a repeating timer is due and the clock stands at the 64-bit maximum, it is due again as soon as it has
  fired, and `uv__run_timers` goes on for ever (`Timers.RestartInFuture`, `Timers.TimerLoop.RunFor`); in all
  other cases it ends if the callbacks touch no timers (`Timers.TimerLoop.RunTimers`), and below the maximum also
  if they do, as long as they start none with a timeout of 0 (`Timers.TimerLoop.RunToEnd`).
- `next_power_of_two` gives 0 for 0 and for values above 2^31, and only for these (`PowerOfTwo.NextPowerOfTwo`).
- `OnRecvData` loops forever if and only if the size fields, followed from packet to packet, lead to a header
  with the right flag, at least one byte behind it, and the size field 2^32 - 12, for which `pack_size` is 0
  (`Packet.RunsForEver`, `Packet.EndlessExactly`, `Packet.HangsOnThis`). A packet without payload is called back only when one more
  byte has come (`Packet.ChunksDoNotMatter`).
- A watcher that takes over a descriptor from one that was stopped, and not closed, during the callbacks of
  `uv__io_poll` is called with what was found for the other (`IoPoll.Loop.PassOn`).
- Lines 189-191 of `heap-inl.h` never have anything to do (`Heap.Heap.Remove`), and the case of a run of
  seven zero words at line 131 of `inet.c` is never met, for such a run at the beginning of the address
  contains word 6, at which the test would be made (`Inet6.Ntop6`).
- The assert at line 1498 of `stream.c` is a demand on the user, and is the precondition of
  `Stream.Stream.Submit`: no write on a connected blocking stream with unwritten bytes. There can be such
  bytes: of a request that has failed, until its callback (`Stream.AfterFailure`); of one queued while connecting
  (`Stream.AfterConnect`); and of one accepted behind an empty one that was queued while connecting
  (`Stream.AfterEmptyWrite`). Unwritten bytes belong to a request that has failed or to one that is queued
  (`Stream.Stream.Unwritten`), and a queued one was submitted while connecting or stands behind one that was
  (`Stream.Stream.Backlogged`).

## Model

| member | source | states |
|---|---|---|
| Utf8.Decode1 | libuv/src/idna.c:24-97 | Decodes one code point. Wherever a well-formed encoding (RFC 3629, section 3) stands before the end, the result is that code point and the pointer moves past it; any other result is a scalar value or the error, and the number of bytes consumed is what the switch says |
| Utf8.CombineEncoded | libuv/src/idna.c:68-85 | The exclusive-or test and the bit shuffle, applied to the encoding of a scalar value, give that value: they undo RFC 3629 |
| Utf8.FollowEncoded | libuv/src/idna.c:35-66 | For a well-formed encoding inside the label the switch takes exactly its continuation bytes |
| Utf8.EncodeAllAt | libuv/src/idna.c:99-100 | Where in the text of a label each code point stands, so the loop macro visits them in order |
| Punycode.DigitsDecode | libuv/src/idna.c:192-218 | The digits written for a delta are read back by section 6.2 of RFC 3492 as that delta, whatever follows |
| Punycode.KeptStep | libuv/src/idna.c:183-190 | What a scan has inserted so far, when the code point under the cursor is below, at or above n: the position of the decoder stays in step |
| Punycode.ScanDecodes | libuv/src/idna.c:183-239 | Invariant of the scan: with delta equal to what the decoder's counters lack, what the encoder still writes decodes to the whole label, and holds no hyphen |
| Punycode.FromDecodes | libuv/src/idna.c:166-182 | The same between two values of n, across the jump by (m - n) * (h + 1) |
| Punycode.InsertDecodes | libuv/src/idna.c:192-238 | A delta is written: the decoder reads it, inserts n at its place and adapts the bias to the same value as the encoder |
| Punycode.DecodeParts | libuv/src/idna.c:140-164 | The decoder splits the output at the separator where the encoder put it, also when no basic code point was written |
| Punycode.RoundTrip | libuv/src/idna.c:133-245 | RFC 3492: whenever the encoder reports no overflow, the decoder of section 6.2 gives back exactly the code points of the label |
| Punycode.ShortLabelsFit | libuv/src/idna.c:177-187 | No label of fewer than 3855 code points makes the encoder report UV_E2BIG |
| KnownCodes.KnownCode | libuv/src/idna.c:133-245 | The decoder gives the four code points of 3-pj3b432gjhs, which needs thresholds of both ends and between, and both kinds of adaptation |
| KnownCodes.KnownEncoding | libuv/src/idna.c:133-245 | The encoder gives tda for U+00FC |
| KnownAnswers.KnownEncodings | libuv/src/idna.c:24-97 | The bytes of a scalar value of each length |
| KnownAnswers.KnownPrefix | libuv/src/idna.c:133-138 | The prefix is xn-- |
| Idna.DeltaCheck | libuv/src/idna.c:174-180 | The overflow test by division is exact: it fires just when delta + x * y does not fit 32 bits |
| Idna.Next | libuv/src/idna.c:99-100 | One step of the loop macro visits the next code point of the label |
| Idna.Count | libuv/src/idna.c:120-131 | Counts the basic code points and the others; a well-formed label is never refused |
| Idna.Minimum | libuv/src/idna.c:167-172 | The least code point of the label that is at least n |
| Idna.Put | libuv/src/idna.c:146-147 | A byte goes to the output if there is room and is dropped silently otherwise: the buffer holds the beginning of what was to be written |
| Idna.CopyBasic | libuv/src/idna.c:140-151 | The basic code points, in order, are appended to the output |
| Idna.Alphabet | libuv/src/idna.c:104 | The alphabet string holds the digit bytes of RFC 3492, section 5; its index is always below 36 |
| Idna.PutDigits | libuv/src/idna.c:192-218 | The digits of delta are appended; every digit step makes q smaller |
| Idna.AdaptBias | libuv/src/idna.c:220-236 | The bias adaptation of RFC 3492, section 6.1 |
| Idna.Scan | libuv/src/idna.c:183-242 | One pass for a value of n: fails just when the specification overflows, and otherwise leaves h, bias, delta and the output as the specification has them |
| Idna.Deltas | libuv/src/idna.c:166-245 | The main loop ends, for todo counts the code points still to be written; the output or UV_E2BIG is that of the specification |
| Idna.ToAsciiLabel | libuv/src/idna.c:102-246 | On a well-formed label: basic labels are copied and their length returned; others become "xn--" and a code that the decoder of RFC 3492 turns back into the label, or UV_E2BIG; bytes before the output position are untouched |
| SignalKey.TotalOrder | libuv/src/unix/signal.c:499-526 | It is a total order, and 0 only for equal keys |
| SignalKey.OrderIs | libuv/src/unix/signal.c:499-526 | By signal, then regular before one-shot handles, then by loop and by handle |
| RbLinks.Head.Rotate | libuv/include/uv/tree.h:342-380 | A rotation to either side changes exactly the links that turn one tree into the other: same nodes, same order, consistent parent links |
| RbLinks.Head.RotateLinks | libuv/include/uv/tree.h:342-380 | The pointer updates of a rotation, and that everything around it stays linked |
| RbLinks.Head.Attach | libuv/include/uv/tree.h:615-623 | RB_SET and the link from the parent or the root: a red leaf hangs where the search ended |
| RbLinks.Head.Splice | libuv/include/uv/tree.h:579-590 | A node with at most one child leaves the tree, its child takes its place |
| RbLinks.Head.Substitute | libuv/include/uv/tree.h:559-570 | The successor takes the place, the colour and the neighbours of the removed node |
| RbInsert.RedUncle | libuv/include/uv/tree.h:416-421 | Recolouring parent, uncle and grandparent; order and links stay |
| RbInsert.RedUncleRule | libuv/include/uv/tree.h:416-421 | Recolouring moves the only possible red-red pair two levels up and keeps the black heights |
| RbInsert.RotateOuterRule | libuv/include/uv/tree.h:428-429 | After recolouring and rotating at the grandparent no red node has a red child and the black heights agree |
| RbInsert.InsertRound | libuv/include/uv/tree.h:411-447 | One turn of the loop keeps the node sequence and all rules but one possible red-red pair, which moves up |
| RbInsert.InsertColor | libuv/include/uv/tree.h:408-449 | From a tree whose only fault is a red node under a red parent to a red-black tree with the same node sequence and a black root |
| RbInsert.Insert | libuv/include/uv/tree.h:599-626 | Keeps search order, parent links, black root, no red-red pair and equal black heights; a new key goes in exactly at its place in the order, an equal key changes nothing and the old node is returned |
| RbRemove.RedSiblingRule | libuv/include/uv/tree.h:460-464 | A red sibling is rotated away and the missing black level stays where it was |
| RbRemove.BlackNephewsRule | libuv/include/uv/tree.h:465-471 | A sibling with black children is painted red and the missing black level moves up |
| RbRemove.NearNephewRule | libuv/include/uv/tree.h:473-482 | The red near nephew is rotated to the far side |
| RbRemove.FarNephewRule | libuv/include/uv/tree.h:483-489 | The red far nephew supplies the missing black level |
| RbRemove.RemoveColor | libuv/include/uv/tree.h:452-528 | From a tree one black level short below one node to a red-black tree with the same node sequence |
| RbRemove.Successor | libuv/include/uv/tree.h:540-546 | Down the left links from the right child: the node that follows in order, without a left child |
| RbRemove.RemoveOne | libuv/include/uv/tree.h:579-593 | Removal of a node with at most one child |
| RbRemove.RemoveInner | libuv/include/uv/tree.h:539-577 | Removal of a node with two children |
| RbRemove.Remove | libuv/include/uv/tree.h:531-595 | Keeps everything that makes a red-black search tree with parent links; the node sequence loses exactly the given node, and that node is returned |
| RbSearch.NFind | libuv/include/uv/tree.h:648-665 | The first node in order that is not less than the key, or null when every node is less |
| RbSearch.Next | libuv/include/uv/tree.h:669-687 | The node that follows in order, or null after the last |
| RbHeight.HeightIsLogarithmic | libuv/include/uv/tree.h:52-61 | What the rules are for: 2 to the power of half the height is at most n + 1, that is, the height is at most 2 lg (n + 1) |
| Signals.Watchers.FirstHandle | libuv/src/unix/signal.c:163-178 | The first handle of a signal in the order, or null when there is none; when it is one-shot all of them are |
| Signals.LookupBound | libuv/src/unix/signal.c:165-174 | The lookup key comes before every handle of its signal and after all handles of smaller signals |
| Signals.Watchers.Deliver | libuv/src/unix/signal.c:197-214 | A message is written for the handle and counted, or neither |
| Signals.Watchers.Raise | libuv/src/unix/signal.c:181-219 | A signal attempts exactly one message for each handle registered for it, in tree order, and none for others; every loop's pipe grows by exactly the messages that were written for its handles; a one-shot handler is dropped by it, other dispositions stay |
| Signals.Watchers.DeliverAll | libuv/src/unix/signal.c:194-215 | The loop of the handler: it starts at the first handle of the signal and ends behind the last |
| Signals.SentExtends | libuv/src/unix/signal.c:194-215 | The handler only appends to a pipe |
| Signals.Watchers.Redispose | libuv/src/unix/signal.c:554-567 | What is installed for a signal after a handle left: nothing without handles, the one-shot handler when only one-shot handles are left and a regular one went, else as before |
| Signals.Watchers.Stop | libuv/src/unix/signal.c:536-573 | The handle leaves the tree and its signal number is 0; the disposition of its signal follows the handles left, all other signals are as before; the invariant stays |
| Signals.Watchers.Begin | libuv/src/unix/signal.c:391-419 | A stopped handle enters the tree under its signal; the handler is installed when the signal had none or only one-shot handles met a regular one, and fails just then when the signal number is refused |
| Signals.Watchers.Start | libuv/src/unix/signal.c:359-420 | Starting, also from another signal: the key, the tree and the dispositions of both signals. The one-shot flag is never cleared, so a handle once started one-shot stays so, as the code has it |
| Signals.Watchers.UncaughtExactly | libuv/src/unix/signal.c:398-406 | A handle that starts gets a signal nobody catches if and only if it is one-shot, other handles watch the signal, and the disposition of the signal is the default |
| Signals.Watchers.ChosenIs | libuv/src/unix/signal.c:398-406 | What a start leaves installed: its own kind of handler if nobody watched the signal, the regular one in place of that of one-shot handles, and what was there otherwise |
| Signals.Watchers.DisposedIs | libuv/src/unix/signal.c:554-567 | What a stop leaves installed: nothing after the last handle, the one-shot handler after the last regular one, and what was there otherwise |
| Signals.UncaughtStart | libuv/src/unix/signal.c:398-406 | Such a run: a second one-shot handle started before the first is dispatched stays uncaught, also when the first has been stopped |
| Signals.Watchers.Init | libuv/src/unix/signal.c:317-330 | A new handle with both counters 0 |
| Signals.Watchers.Close | libuv/src/unix/signal.c:333-344 | A closed handle is stopped; its close is made pending at once when no message of it is in a pipe |
| Signals.Watchers.Consume | libuv/src/unix/signal.c:471 | A message is taken from the pipe and counted as dispatched |
| Signals.Watchers.Dispatch | libuv/src/unix/signal.c:462-483 | One message: the callback runs just when the handle still watches the signal of the message, and then the handle is not closing (line 467); a one-shot handle is stopped afterwards, and a deferred close is made pending with the last message; whatever the callback starts, stops, closes or raises. If it does nothing, a handle that is not one-shot stays started with its handler installed, and so does every other handle |
| Signals.Watchers.Settle | libuv/src/unix/signal.c:471-483 | Just a one-shot handle is stopped by its message; the keys of all others, the tree and the other dispositions stay |
| Signals.Watchers.FinishClose | libuv/src/unix/signal.c:480-483 | The deferred close is made pending, and never twice |
| Signals.Watchers.Event | libuv/src/unix/signal.c:435-495 | One read: the first 32 messages, or all, are taken from the pipe in order and dispatched, and another read is asked for just when there were 32; the invariant stays, and messages that came meanwhile are still there; without any, exactly the others are left. With callbacks that do nothing just the one-shot handles named by a message are stopped, and only their signals may lose their handlers |
| Signals.Watchers.Events | libuv/src/unix/signal.c:435-495 | The do-while loop for so many reads at most and any callbacks: messages are taken in order; when it ends, every message that was there at the beginning has been dispatched; it has not ended only if so many full reads have come, and when no signal arrives meanwhile it ends after as many reads as the messages fill and one more; what is stopped is as for one read |
| Signals.Watchers.ReleaseIsSafe | libuv/src/unix/signal.c:333-344 | In every state the code can reach, the close of a handle has been made pending exactly once if it is closing and no message in any pipe names it, and not at all otherwise |
| Heap.Heap.NodeSwap | libuv/src/heap-inl.h:72-104 | Parent and child change places, and all left, right, parent and root links are again those of a complete tree |
| Heap.Heap.SwapLinks | libuv/src/heap-inl.h:78-103 | The field updates of the swap |
| Heap.Path | libuv/src/heap-inl.h:122-124 | The bits of a position lead from the root to it |
| Heap.Heap.Descend | libuv/src/heap-inl.h:127-136 | Following the path ends at the link of that position |
| Heap.Heap.Append | libuv/src/heap-inl.h:139-141 | The new node hangs at the next free position |
| Heap.Heap.SiftUp | libuv/src/heap-inl.h:146-147 | When only the node may be less than its parent, moving it up restores the order |
| Heap.Heap.SiftDown | libuv/src/heap-inl.h:220-229 | Moving the node down ends where only it may still be less than its parent |
| Heap.Heap.Insert | libuv/src/heap-inl.h:106-148 | Completeness, links and order are kept and the node set grows by exactly the new node |
| Heap.Heap.Replace | libuv/src/heap-inl.h:196-214 | The last node takes over the place and the links of the removed one |
| Heap.Heap.Refill | libuv/src/heap-inl.h:195-236 | Replacing, then down, then up suffices to restore the order, for a node at any position |
| Heap.Heap.Remove | libuv/src/heap-inl.h:150-237 | Completeness, links and order are kept and the node set loses exactly the given node, wherever it is: root, last, parent of the last, inner. Lines 189-191 are never needed, for unlinking the root has cleared min |
| Heap.Heap.Dequeue | libuv/src/heap-inl.h:239-241 | Removes the node that is the minimum |
| Heap.FirstIsLeast | libuv/src/heap-inl.h:67-69 | No node is less than the one at the root |
| Timers.DeadlineIs | libuv/src/timer.c:83-85 | The clamp of the 64-bit sum gives the exact deadline, or the maximum |
| Timers.RestartInFuture | libuv/src/timer.c:119-122 | A repeating timer that is restarted lies in the future if and only if the clock is below the 64-bit maximum |
| Timers.TimerLoop.Stop | libuv/src/timer.c:102-112 | The timer is inactive and out of the heap; nothing else changes |
| Timers.TimerLoop.Start | libuv/src/timer.c:71-99 | The timer is in the heap exactly once, under its deadline and a fresh start id; without a callback nothing changes |
| Timers.TimerLoop.Again | libuv/src/timer.c:115-125 | A repeating timer is restarted from now, others are left alone; without a callback it is refused |
| Timers.TimerLoop.NextTimeout | libuv/src/timer.c:138-156 | -1 for no timer; otherwise never past any active deadline, 0 only if one is due, and exact below INT_MAX |
| Timers.TimerLoop.FireNext | libuv/src/timer.c:172-174 | The first due timer fires; it is no longer due, and active again just when it repeats |
| Timers.TimerLoop.Fire | libuv/src/timer.c:172-173 | A due timer is not due afterwards, except that at the 64-bit maximum of the clock a repeating one is due as before |
| Timers.TimerLoop.Turn | libuv/src/timer.c:164-174 | One turn, whatever timers the callback starts, stops or restarts: the timer that fires is active, due, and the first of those in order; the heap and the handles stay consistent |
| Timers.TimerLoop.RunFor | libuv/src/timer.c:159-176 | Any number of turns with any callbacks: when the loop ends no timer is due. At the 64-bit maximum, with callbacks that do nothing, it does not end while a repeating timer is due |
| Timers.TimerLoop.RunToEnd | libuv/src/timer.c:159-176 | Below the 64-bit maximum the loop ends, whatever timers the callbacks stop, restart, or start with a timeout: only timers due on entry fire, each at most once and in order, and every one of them that no callback touches |
| Timers.TimerLoop.RunTimers | libuv/src/timer.c:159-176 | With callbacks that touch no timer, and unless a repeating timer is due at the 64-bit maximum: ends, fires exactly the timers due on entry, once each, in the order of timeout and start id; afterwards none is due |
| ThreadPool.PoolKept | libuv/src/threadpool.c:57-160 | Every step keeps: one mutex owner, idle_threads counts the threads in the wait, slow_io_work_running those that have it to give back, the message is in wq at most once and is there while slow work is pending, and somebody is awake while wq is not empty |
| ThreadPool.TurnPool | libuv/src/threadpool.c:71-119 | The same for a worker's turn round its loop, with its waiting, rescheduling of the message, and signals |
| ThreadPool.PlacesKept | libuv/src/threadpool.c:87-315 | Every step keeps each request linked or held at exactly the place its record names |
| ThreadPool.HistoriesKept | libuv/src/threadpool.c:121-315 | Every step keeps what the place of a request says about its work field, runs, cancels and callbacks |
| ThreadPool.InvOfRun | libuv/src/threadpool.c:57-315 | The invariant holds after every run of steps |
| ThreadPool.NoWorkIsForgotten | libuv/src/threadpool.c:69-160 | After every run: if all threads wait and none has been signalled, both queues are empty |
| PoolWakeUp.EnoughKept | libuv/src/threadpool.c:69-160 | Every step keeps: while a thread waits, at least as many threads are on their way to wq as there are entries to be taken from it |
| PoolWakeUp.WaitingThreadsAreNotNeeded | libuv/src/threadpool.c:69-160 | After every run, also with other threads in long work: if a thread waits unsignalled and would not have to, another one is on its way, one for each entry to be taken |
| ThreadPool.SlowWorkIsScheduled | libuv/src/threadpool.c:94-155 | After every run: pending slow work means that the message is in wq, exactly once |
| ThreadPool.SlowWorkIsLimited | libuv/src/threadpool.c:45-47 | After every run at most half of the threads, rounded up, are at work on slow requests |
| ThreadPool.EveryRequestIsServed | libuv/src/threadpool.c:269-315 | After every run each request is at exactly one place; its callback ran at most once, with UV_ECANCELED just when a cancel succeeded, and then its work function never ran; otherwise the function ran exactly once before |
| ThreadPool.WorkersMakeProgress | libuv/src/threadpool.c:71-138 | Each step of a worker makes a measure smaller, so the workers come to rest |
| ThreadPool.RestIsIdle | libuv/src/threadpool.c:71-138 | When no worker can make a step, nothing is queued and every thread waits |
| PoolOrder.SubmittedLast | libuv/src/threadpool.c:142-160 | A request goes behind all others; a slow one behind the slow ones, and the message into wq if it is not there |
| PoolOrder.FirstIsTaken | libuv/src/threadpool.c:85-92 | A thread that need not wait takes the first entry of wq |
| PoolOrder.SlowIsTaken | libuv/src/threadpool.c:94-116 | The message makes a thread take the first slow request while fewer than half of the threads, rounded up, are at work on such; the message is put back if more are pending |
| PoolOrder.SlowIsHeldBack | libuv/src/threadpool.c:71-99 | When as many are, the message goes behind the other entries, or the thread waits |
| PoolOrder.WaitsExactly | libuv/src/threadpool.c:71-78 | A thread waits just when nothing is queued, or nothing but slow work that has to be held back |
| PoolOrder.NotOvertaken | libuv/src/threadpool.c:69-160 | Every step: a queued request is not overtaken by one behind it, unless it is cancelled |
| PoolOrder.FirstComeFirstServed | libuv/src/threadpool.c:69-160 | Over every run: as long as a request is in wq, one that was behind it still is, unless that one is cancelled |
| PoolOrder.CancelExactly | libuv/src/threadpool.c:269-292 | A cancel succeeds if and only if the request is queued and has not run, or waits for its callback as cancelled; otherwise nothing changes |
| PoolOrder.CalledInOrder | libuv/src/threadpool.c:121-126 | Finished and cancelled requests go to the end of the queue of the loop, are taken all at once, and are called back from the first on |
| Completion.InvKept | libuv/src/threadpool.c:121-309 | Every step of pool, cancels, wake-ups and uv__work_done keeps the invariants of all the machines, and every finished request in the queue of a loop among what its wake-up is for |
| Completion.NoCompletionIsLost | libuv/src/threadpool.c:121-126 | After every run: a loop with finished or cancelled requests in its queue is on its way to uv__work_done, or wq_async is pending and its wake-up under way, or the thread that holds wq_mutex is about to see to it |
| Completion.FinishingEnds | libuv/src/threadpool.c:57-309 | Every step of workers, cancels, wake-ups and done callbacks that begins nothing new makes a well-founded measure smaller |
| Completion.SomeStep | libuv/src/threadpool.c:57-309 | As long as a request has not had its callback one of these steps can be made |
| Completion.RestIsDone | libuv/src/threadpool.c:57-309 | So when none can be made every request ever submitted has had its callback exactly once: with UV_ECANCELED and without its work if a cancel succeeded, and after its work otherwise |
| Stream.Stream.Advance | libuv/src/unix/stream.c:881-923 | What n bytes taken by the kernel do to the buffers, write_index and write_queue_size: the buffers left are those of Skip, the count is n less, and the request is done just when no buffer is left; the asserts at lines 885, 909, 912 and 917 hold |
| Writes.SkipConcat | libuv/src/unix/stream.c:881-923 | Skipping n bytes of a list of buffers leaves exactly the bytes behind them, and no buffer just when nothing is left: buffers without bytes are passed over |
| Writes.StepTakes | libuv/src/unix/stream.c:780-923 | One write takes no more than the clipped buffers hold, which is part of what is left; what it leaves are the bytes it did not take |
| Writes.StepShrinks | libuv/src/unix/stream.c:764-899 | A blocking stream does not try for ever: each write uses up an answer of the kernel or, when it takes everything offered, a buffer |
| Stream.Stream.Attempt | libuv/src/unix/stream.c:766-946 | One write and its outcome, for every answer of the kernel: the bytes taken, the error and the buffers left are those of Step; the request is completed or failed just when there was an error or no buffer is left |
| Stream.Stream.WriteHead | libuv/src/unix/stream.c:764-938 | Writes to the head request until it is over, or once if the stream does not block: bytes taken, error and answers used up are those of Send |
| Stream.Stream.Finish | libuv/src/unix/stream.c:715-738 | The head moves to the completed queue, without its buffers unless it failed, and the watcher is fed |
| Stream.Stream.FailHead | libuv/src/unix/stream.c:940-946 | A failed request keeps its unwritten bytes on the count |
| Stream.Stream.WriteOut | libuv/src/unix/stream.c:755-947 | For every sequence of short writes, retries and errors: the head request loses what Send says and no other is touched; it is completed, failed, or, on a non-blocking stream, left with the watcher asking for POLLOUT: by each answer of the kernel, EAGAIN keeps the request, with POLLOUT asked for and nothing sent; an error becomes that of the request; the error of a request is always the last answer used. What was sent stays what was taken of all requests in order |
| Stream.Stream.Submit | libuv/src/unix/stream.c:1411-1504 | A request joins the end of the queue with all its bytes counted; it is written at once just when nothing was unwritten, with the outcome that Send gives; the error returns change nothing |
| Stream.Stream.Begin | libuv/src/unix/stream.c:1482-1501 | What becomes of a new request: nothing while connecting, a write if nothing was unwritten, POLLOUT otherwise; and somebody will come back to it |
| Stream.Stream.Unwritten | libuv/src/unix/stream.c:1451-1457 | write_queue_size is not 0 if and only if a queued request has bytes left, or a request that waits for its callback has, and that one has failed |
| Stream.Stream.Backlogged | libuv/src/unix/stream.c:1486-1498 | On a connected blocking stream a queued request was submitted while the connection was being made, or stands behind one that was |
| Stream.AfterFailure | libuv/src/unix/stream.c:1489-1498 | A connected blocking stream on which one write has failed: nothing is queued and a byte is unwritten, so that another write before the callback would fail the assert |
| Stream.AfterConnect | libuv/src/unix/stream.c:1486-1498 | A blocking stream whose connection was made with a request queued: a byte is unwritten, so that a write would fail the assert |
| Stream.AfterEmptyWrite | libuv/src/unix/stream.c:1486-1498 | A blocking stream whose connection was made with a request without bytes queued: the write submitted next is accepted, sends the empty one and stays queued with its byte, without having failed; a further write would fail the assert |
| Stream.Stream.Contributes | libuv/src/unix/stream.c:755-978 | After every run: a request whose callback had status 0 is in what the descriptor got with all its bytes, behind exactly what was taken of the requests and uv_try_write calls before it and before what was taken of those after it |
| Stream.KeptAt | libuv/src/unix/stream.c:1474-1480 | Where in the order of all calls the first queued request stands: what is before it has left the queue |
| Stream.Stream.Try | libuv/src/unix/stream.c:1525-1570 | Exactly what is returned: UV_EAGAIN when connecting or when bytes are unwritten, UV_EBADF, UV_EPIPE, and otherwise the number of bytes Send takes, or UV_EAGAIN for none of some; these bytes went out and no others; the other requests and the count are as before, and POLLOUT is not newly asked for |
| Writes.RetryIsNothing | libuv/src/unix/stream.c:870-878 | EAGAIN changes nothing: a stream that does not block stops, a blocking one goes on with the next answer |
| Writes.FailureIsFinal | libuv/src/unix/stream.c:870-873 | Any other error ends the writes, is the error of the request, and takes no byte |
| Writes.WroteGoesOn | libuv/src/unix/stream.c:775-923 | A write is offered at most iovmax buffers; what it took is gone from the front, and a blocking stream goes on with the rest |
| Writes.ErrorsAreAnswers | libuv/src/unix/stream.c:870-946 | The error of a request is that of the last answer used, and no answer before was one |
| Writes.ErrorIsHidden | libuv/src/unix/stream.c:1544-1569 | The error of a write is never what uv_try_write returns |
| Writes.FirstFails | libuv/src/unix/stream.c:870-873 | When the first write fails: UV_EAGAIN if there was a byte to write, and 0 if there was none |
| Writes.FailedLater | libuv/src/unix/stream.c:881-899 | On a blocking stream a failure after a short write: the bytes of the short write, as if nothing had failed |
| Stream.TryRefused | libuv/src/unix/stream.c:1525-1570 | uv_try_write on streams whose kernel refuses the first write: UV_EAGAIN for one byte, 0 for an empty buffer |
| Stream.Stream.Withdraw | libuv/src/unix/stream.c:1544-1558 | The request of uv_try_write leaves whichever queue it is in, and its unwritten bytes the count |
| Stream.Stream.Flush | libuv/src/unix/stream.c:435-447 | All queued requests are completed with the error, in order |
| Stream.Stream.Pop | libuv/src/unix/stream.c:961-972 | One completed request is taken for its callback and what it left unwritten is no longer counted |
| Stream.Stream.Callbacks | libuv/src/unix/stream.c:950-978 | Each request completed before the call gets its callback once, in order, whatever the callbacks write or close |
| Stream.Stream.StreamIo | libuv/src/unix/stream.c:1315-1353 | A writable descriptor: the head is written, and called back if that completes or fails it; the invariant and the promise that no request waits without anything that will come back to it; POLLOUT is given up when nothing is queued |
| Stream.Stream.Connect | libuv/src/unix/stream.c:1391-1407 | A failed connection calls back every request submitted before, unless the callback of the connection itself has closed the stream; the queued ones with UV_ECANCELED if that callback does nothing |
| Stream.Stream.Destroy | libuv/src/unix/stream.c:450-475 | At its end write_queue_size is 0 and every request submitted has had its callback exactly once, in order, those still queued with UV_ECANCELED; the record of what was sent for whom is kept |
| Inet4.Inverse4 | libuv/src/inet.c:53-222 | inet_pton4 accepts exactly the strings inet_ntop4 prints, and gives the address back |
| Inet4.Ntop4 | libuv/src/inet.c:53-65 | The dotted text, or UV_ENOSPC when it and its NUL do not fit |
| Inet4.Octets | libuv/src/inet.c:191-219 | The parsing loop on its buffer |
| Inet4.Pton4 | libuv/src/inet.c:186-222 | Succeeds just for the text of an address, whose bytes it stores; otherwise dst is untouched |
| Inet4.Length4 | libuv/src/inet.c:53-57 | The text has 7 to 15 characters and fits the buffer of 16 |
| Inet6.Pack | libuv/src/inet.c:86-88 | Two bytes to a word, in network order |
| Inet6.FirstLongest | libuv/src/inet.c:89-112 | The first longest run of at least two zero words |
| Inet6.BestIsUnique | libuv/src/inet.c:89-112 | There is only one such run |
| Inet6.DotExactly | libuv/src/inet.c:113-140 | Which addresses get an IPv4 tail, on their bytes alone, and the text of these and of all others |
| Inet6.HexIsShort | libuv/src/inet.c:140 | Groups are printed with lower-case digits and no leading zeros |
| Inet6.KnownRuns | libuv/src/inet.c:89-112 | Of two longest runs of 2001:db8:0:0:1:0:0:1 the first is taken, and a single zero word is not |
| KnownAnswers.KnownQuads | libuv/src/inet.c:53-57 | The texts of 192.0.2.10 and 0.7.99.255 |
| KnownAnswers.KnownHexDigits | libuv/src/inet.c:229-250 | Hexadecimal digits of both cases are read |
| Inet6.Ntop6 | libuv/src/inet.c:68-154 | The text has a dot if and only if the address begins with ten zero bytes and two of 255, or with twelve zero bytes before two that are not both zero, and is then "::ffff:" or "::" and the IPv4 text; otherwise the groups with that run written as "::" and an IPv4 tail for the embedded forms, at most 39 characters that inet_pton6 reads back as the address; UV_ENOSPC only for fewer than 40 bytes of room; never outside its buffer of 46. The case of a run of seven at line 131 is never met |
| Inet6.TextFits | libuv/src/inet.c:76-144 | The text is at most 39 characters long |
| Inet6.Shift | libuv/src/inet.c:299-302 | Shifting by hand moves the bytes behind "::" to the end and leaves zeros, although the regions overlap |
| Inet6.Pton6 | libuv/src/inet.c:225-309 | The parser on its buffer computes Parse6 |
| Inet6.RoundTrip | libuv/src/inet.c:68-309 | For every address, inet_pton6 of what inet_ntop6 prints is the address |
| Inet6Grammar.AcceptsExactly | libuv/src/inet.c:225-309 | inet_pton6 accepts exactly the texts of RFC 4291, section 2.2: eight groups of one to four hexadecimal digits, at most one "::" for one or more of them, an IPv4 text in place of the last two; and gives their meaning |
| Inet6Grammar.RunIsNotEmpty | libuv/src/inet.c:235-308 | "::" stands for at least one group, without it there are eight, and a single colon does not begin a text |
| Async.PendingKept | libuv/src/unix/async.c:59-119 | Every step keeps: a pending open handle is going to be visited, because the descriptor is readable, about to be written, being read, or the drain has yet to come to it |
| Async.QueueKept | uv/Looper.cpp:117-134 | Every step keeps: while events are queued the handle is pending, being announced by the pusher, or the loop is on its way to or in DoEvent |
| Async.NoEventIsLost | uv/Looper.cpp:111-134 | After every interleaving: with events queued and nobody between, the handle is pending and the wake-up is under way |
| Async.EventsAreHandledInOrder | uv/Looper.cpp:117-134 | Events are handled in the order they were pushed, each exactly once |
| Async.CallsKept | libuv/src/unix/async.c:108-119 | Every step keeps: an open handle was called, or is being called, as often as it was made pending, but for once if it is pending |
| Async.ListsKept | libuv/src/unix/async.c:104-110 | A handle is in one list, once, from its opening to its close |
| Async.FinishingEnds | libuv/src/unix/async.c:59-119 | All steps other than new sends, pushes and changes of handles make a measure smaller |
| Async.RestIsDone | uv/Looper.cpp:111-134 | When none of them is possible, every event pushed has been handled, no open handle is pending, and each was called exactly as often as it was made pending |
| Async.SendIsAnswered | libuv/src/unix/async.c:59-119 | Every uv_async_send on a handle that stays open is followed by a callback: when all has come to rest, one has begun since |
| Packet.PacketSync.Append | uv/Packet.h:92-98 | The data goes behind what is in the buffer, which grows if need be |
| Packet.PacketSync.OnRecvData | uv/Packet.h:89-125 | The packets called back and the bytes kept are those of Drain on the buffer and the data, whenever the size fields do not lead to one of 2^32 - 12 |
| Packet.PackSizeIsZero | uv/Packet.h:106 | The 32-bit sum is 0 if and only if the size field is 2^32 - 12 |
| Packet.EndlessExactly | uv/Packet.h:100-124 | The loop never ends if and only if the size fields, followed from packet to packet, lead to a header with the right flag, at least one byte behind it, and the size field 2^32 - 12 |
| Packet.HangsOnThis | uv/Packet.h:100-124 | Thirteen bytes on which it does not end |
| Packet.RunsForEver | uv/Packet.h:100-124 | Turn by turn: after any number of turns the loop is still running if and only if the size fields lead to one of 2^32 - 12; otherwise it ends with the packets and the rest of Drain |
| Packet.EmptyPacketWaits | uv/Packet.h:100 | A packet without payload is called back with the next byte and not before |
| Packet.WrongFlagDrops | uv/Packet.h:119-122 | With a wrong flag everything in the buffer is thrown away |
| KnownAnswers.KnownPacket | uv/Packet.h:100-106 | The bytes of a packet, little-endian |
| Packet.DrainOfMore | uv/Packet.h:100-124 | Parsing the rest together with more bytes is the same as parsing everything at once, unless bytes were thrown away |
| Packet.DrainOfStream | uv/Packet.h:100-124 | What the parser makes of whole packets and the beginning of another |
| Packet.ChunksDoNotMatter | uv/Packet.h:89-125 | For every stream of packets and every way of cutting it: exactly the complete packets received so far were called back, in order, and the buffer holds exactly the incomplete tail; only a last packet without payload is held until one more byte arrives |
| Packet.PacketSync.Receive | uv/Packet.h:89-125 | One call of OnRecvData after the other: the packets and the buffer are those of Feed |
| Packet.PacketSync.ReceiveStream | uv/Packet.h:89-125 | The same for a stream of packets in any chunks: it never hangs, and packets and buffer are those of ChunksDoNotMatter |
| Queue.Node.constructor | libuv/src/queue.h:45-50 | A new node is a ring of one |
| Queue.HeadOf | libuv/src/queue.h:39-43 | QUEUE_EMPTY and QUEUE_HEAD read the list off the links |
| Queue.InsertHead | libuv/src/queue.h:83-90 | The ring gets one more first entry |
| Queue.InsertTail | libuv/src/queue.h:92-99 | The ring gets one more last entry |
| Queue.Remove | libuv/src/queue.h:101-106 | The ring loses exactly the entry |
| Queue.Split | libuv/src/queue.h:61-70 | The entries from q on form a ring with the new head, the others keep theirs |
| Queue.Move | libuv/src/queue.h:72-81 | All entries go over to the new head |
| Queue.Add | libuv/src/queue.h:52-59 | The entries of one ring go behind those of the other |
| LoopWatcher.Loop.StartHandle | libuv/src/unix/loop-watcher.c:32-39 | Starting puts an inactive handle first in the loop's list; an active one is left alone, and no callback is UV_EINVAL |
| LoopWatcher.Loop.StopHandle | libuv/src/unix/loop-watcher.c:41-46 | Stopping takes the handle out of whichever list it is in |
| LoopWatcher.Loop.Requeue | libuv/src/unix/loop-watcher.c:54-57 | The first waiting handle goes to the end of the loop's list |
| LoopWatcher.Loop.Run | libuv/src/unix/loop-watcher.c:48-60 | The pass, on the linked lists, runs what Pass says and leaves the loop's list as Pass says |
| LoopWatcher.OnlyWaitingRun | libuv/src/unix/loop-watcher.c:48-60 | A pass runs only handles linked at its start, each at most once, in their order; what is started during it does not run |
| LoopWatcher.RunsUnlessStopped | libuv/src/unix/loop-watcher.c:48-60 | A handle linked at the start runs if and only if no callback that ran before its turn stopped it |
| LoopWatcher.LinkedAgain | libuv/src/unix/loop-watcher.c:57 | A handle that ran is linked again at the end, unless its own or a later callback stopped it |
| PowerOfTwo.Smear | libuv/src/unix/core.c:768-772 | Each or with a shift doubles the number of leading ones |
| PowerOfTwo.NextPowerOfTwo | libuv/src/unix/core.c:766-775 | The least power of two not below the value for values from 1 to 2^31, and 0 for all others |
| Watchers.Table.MaybeResize | libuv/src/unix/core.c:777-809 | All slots and the two extra entries are kept and new slots are empty; nothing happens when the length fits, else nwatchers + 2 becomes the least power of two for it |
| Watchers.Table.IoStart | libuv/src/unix/core.c:829-854 | The mask, the slot, nfds and the queue after a start; the invariant of the table stays |
| Watchers.Table.IoStop | libuv/src/unix/core.c:857-886 | The mask, the slot, nfds and the queue after a stop; the asserts on the slot and on nfds hold |
| Watchers.Started | libuv/src/unix/core.c:829-854 | A watcher is in the table just when events are asked for and in the queue whenever the kernel has not been told: kept by a start |
| Watchers.Stopped | libuv/src/unix/core.c:857-886 | The same for a stop |
| PollArray.PollFds.MaybeResize | libuv/src/unix/posix-poll.c:54-75 | A full array is doubled, or gets 64 entries, the new ones empty; the entries in use stay, and an array with room is left alone |
| PollArray.PollFds.Swap | libuv/src/unix/posix-poll.c:77-83 | Two entries change places |
| PollArray.PollFds.Add | libuv/src/unix/posix-poll.c:85-104 | The map from descriptors to events gets or changes one entry |
| PollArray.PollFds.Del | libuv/src/unix/posix-poll.c:106-131 | The map loses the descriptor; with -1 all invalidated entries go and the map stays |
| PollArray.PollFds.Invalidate | libuv/src/unix/posix-poll.c:295-313 | The map loses the descriptor; while the array is iterated over all entries stay where they are |
| PollArray.MapRemove | libuv/src/unix/posix-poll.c:111-117 | Swap-and-shrink removes exactly one entry of the map |
| IoPoll.Loop.TakeQueued | libuv/src/unix/posix-poll.c:155-166 | A queued watcher has events asked for and a slot, so the asserts hold; it leaves the queue and its entry says what it asks for |
| IoPoll.Loop.Prologue | libuv/src/unix/posix-poll.c:153-167 | Afterwards the queue is empty and poll(2) is asked for exactly the events of every watcher in use |
| IoPoll.Loop.IoClose | libuv/src/unix/core.c:889-895 | The watcher is out of use and its descriptor out of the map |
| IoPoll.Loop.Look | libuv/src/unix/posix-poll.c:228-262 | One entry: the watcher in use at its descriptor is called with the events found among those it asks for, or errors, and not if there is nothing; invalidated entries and descriptors nobody watches get no callback; just the entries of descriptors that the callback closes are invalidated |
| IoPoll.Loop.Do | libuv/src/unix/core.c:829-895 | A call from a callback is allowed when no other watcher is in use at the descriptor; closing invalidates exactly the entry of the descriptor |
| IoPoll.Loop.PassOn | libuv/src/unix/posix-poll.c:228-262 | A descriptor passes to another watcher before the turn of its entry: the new watcher gets nothing of what was found before if the old one was closed, and gets it if the old one was only stopped |
| IoPoll.Loop.Dispatch | libuv/src/unix/posix-poll.c:218-270 | Whatever the callbacks start, stop or close, also on a descriptor that another watcher had: each descriptor is called back at most once and only with what was found and asked for, and not any more once a callback has closed it; every watcher that no callback touches is called with all that was found for it; the asserts on descriptors hold, and no invalidated entry is left |
| IoPoll.Loop.Poll | libuv/src/unix/posix-poll.c:148-282 | One round of uv__io_poll: the same for every watcher that was in use before it, and the invariant of table and array stays; with no watcher in the table nothing is queued |

## Left out

- Signals.Watchers.Event: one read of the loop, see Events. Messages cut in two by read(2) do not occur, being shorter than PIPE_BUF.
- Signals.Watchers.Raise: the messages in a pipe and those the reader holds in its buffer are one sequence, and no more than 65536 of them fit.
- Timers.TimerLoop.RunTimers: the callbacks touch no timer (for others see Turn, RunFor and RunToEnd), and the 64-bit counter of starts does not overflow.
- Timers.TimerLoop.Start: requires that the 64-bit counter of starts and the 32-bit count of the heap have room for one more.
- Timers.TimerLoop.Again: requires the same room.
- Timers.TimerLoop.RunFor: for so many turns as are given; it stops when the 64-bit counter of starts is used up.
- Timers.TimerLoop.RunToEnd: ends before if the 64-bit counter of starts is used up.
- Signals.Watchers.Events: for so many reads as are given; the callbacks may raise signals forever.
- Completion.InvKept: a thread may send at any time, and the loop's own thread counts as one more sender; wq_async is never closed.
- Heap.Heap.Insert: requires that the 32-bit element count has room for one more.
- Idna.ToAsciiLabel: for labels that are well-formed UTF-8. On ill-formed ones the continuation test, an exclusive-or of three bytes, and the unlimited switch do not give an exact rejection; splitting a name at its dots is not modelled.
- Utf8.Decode1: says of ill-formed input only that the result is a scalar value or the error.
- Stream.Stream.Submit: without handle passing, allocation failure and the select thread of macOS; the registration of requests with the loop is not counted; its precondition on blocking streams is the assert at line 1498.
- Stream.Stream.StreamIo: only the write side; reading and shutdown requests are not modelled.
- Stream.Stream.Destroy: without the shutdown request.
- Stream.Stream.WriteOut: an interrupted write is the write after it; of the errors that are retried only that they are.
- IoPoll.Loop.Dispatch: the signal watcher is no different from others, where the code calls it last; revents are not stored in the array; a call of a callback for a descriptor in use by another watcher is not carried out, for it would fail an assert of uv__io_stop.
- IoPoll.Loop.Poll: for one return of poll(2) with results; what remains of the timeout after an interruption is not modelled.
- Watchers.Table.IoStart: for descriptors below 2^31 - 2, beyond which next_power_of_two gives 0; one watcher in use for each descriptor.
- Watchers.Table.IoStop: one watcher in use for each descriptor.
- Packet.PacketSync.OnRecvData: on a little-endian machine, with a buffer within the range of int, and on data on which the loop ends.
- Packet.ChunksDoNotMatter: for packets with the right flag; on a wrong one the buffer is thrown away as a whole, which Drain models and the theorem leaves aside.
- Inet4.Ntop4: the text is a value; the zeros strncpy adds behind it are not modelled.
- Inet6.Pton6: without the zone id that uv_inet_pton cuts off before.
- ThreadPool.InvOfRun: without exit_message and cleanup, fork, a cancel off the loop's thread, and a cancel of a request whose done callback has begun.
- Async.NoEventIsLost: every handle has a callback; CMutex is plain mutual exclusion, and event handlers do not push while DoEvent holds the lock; uv_async_init from another thread is not modelled.
- The queues of ThreadPool, Async, Stream and Watchers are sequences; that the linked rings of queue.h behave as sequences is proved in Queue, and used on the rings themselves in LoopWatcher.
- RB_FIND, RB_PREV, RB_MINMAX and the splay trees of tree.h: the first add only easy members, the last have no caller.
- uv__io_feed and the loop's pending queue, except as a flag of a stream.
- TcpClient, TcpServer and Udp of the uv layer: plumbing of callbacks.
- fs.c, fs-poll.c, linux-inotify.c, process.c and the platform files: system calls around the same queues and trees.
