# Verified models of the server exercises

This project models the five files of the repository that hold algorithms
rather than socket plumbing, and proves what they are meant to guarantee:

* **HTTP request parser** (`src/http_parse.cc`): the line scanner that overwrites
  CRLF with NULs, the request-line splitter that works in place with C string
  routines, and the outer loop that can be resumed when more bytes arrive.
  `CStrings`, `RequestLine`, `HttpParse`, `HttpLanguage`.
* **Timing wheel** (`src/time_wheel.cc`): a ring of doubly linked lists with
  rotation counters, which stands in for a plain queue of countdowns.
  `WheelModel`, `WheelRuns`, `TimeWheel`.
* **Thread pool** (`src/thread_pool.cc`): `append` and `run` as an interleaving of
  atomic steps over a mutex, a counting semaphore and a queue, for any number of
  threads. `PoolModel`, `PoolTheorems`.
* **Sorted timer list** (`src/sort_timer_list.cc`): a doubly linked list with head
  and tail. `ListModel`, `ListRuns`, `ListAsWritten`, `SortTimerList`.
* **Timer heap** (`src/time_heap.cc`): an array heap that grows, with lazy
  cancellation. `HeapModel`, `HeapRuns`, `TimeHeap`, `HeapAsWritten`.

`Order`, `Options` and `Deadlines` hold what several of them share.

## How the models are built

Code that changes a buffer, linked nodes or an array is a Dafny method over an
`array` or a `class` with the same fields. Such a class carries a ghost value
(`model`), `Valid()` ties the pointers or slots to it, and each method says which
function of the old value the new one is. What is claimed about whole runs is
then proved about those functions. The parser's methods are tied to `Parse`,
`NextLine` and `SplitRequestLine` in the same way, on the bytes below the read limit.

Callbacks and prints are appends to a log (`fired`, `Event`). A clock reading is a
parameter of the tick that makes it.

## Where the code is repaired

The theorems are about what each function is meant to do; where the code misses
it, the following is assumed changed. What the code does as written is proved as
well for the slips marked with a star.

* `src/http_parse.cc:210` assigns `read_index` where the bytes received should be
  added up. `Receive` and `Feed` let the read limit grow.
* `src/thread_pool.cc:66` (*) loops while the pool *is* stopped. `Guard` selects
  the loop as intended or as written. Safety and the bound on schedules hold for
  both. As written, nothing is processed without a stop, and with one everything
  is, in the end, if and only if some worker had not yet tested the guard when the
  pool was first told to stop.
* `src/sort_timer_list.cc:99-103` (*) lacks a `return`. `DeleteTimer` has it;
  `DeleteTimerAsWritten` has not, keeps the set of freed nodes and checks every
  access against it. It faults exactly for a last timer that is not the only one,
  and `ListAsWritten` says which runs of deletions reach such a timer.
* `src/time_heap.cc:130-136` (*): the loop guard is a bitwise or, the test for a
  right child is off by one, and from the second level on the wrong timer is
  compared. `HeapAsWritten` says what a pop then does to any heap, whatever its
  history left in the slots behind it (null, stale or dangling pointers), gives the
  exact condition under which it agrees with the repaired pop, and lifts it to ticks.
* `src/time_heap.cc:24` and `src/time_heap.cc:42` (*): the array constructor
  rejects every array with room to spare, and does not sift the root.
  `HeapAsWritten` shows that it succeeds only for a full array of at most two timers,
  that it is then right exactly if they came in order, and that leaving out the root
  alone is harmless exactly if the first timer is not later than any other.

`adjust_timer` (`src/sort_timer_list.cc:58-78`) is not repaired: it only looks
ahead, so it is removal followed by ordered insertion exactly when the new
deadline is not earlier than the predecessor's, and a run of the list stays
sorted exactly when every adjustment meets that condition.

The request line follows sections 3, 3.2.1 and 3.2.2 of RFC 9112 except that the
code ignores the case of method and version, allows several blanks or tabs between
the parts, and rejects a bare LF. The model has the code's language.

## Model

| member | source | states |
|---|---|---|
| HttpParse.ParseLine | src/http_parse.cc:43-66 | the scan over the buffer finds the line end that `NextLine` describes, overwrites only its CR and LF, and leaves every byte at or after the read limit alone |
| HttpParse.NextLineExact | src/http_parse.cc:43-66 | status, scan position and overwritten bytes for each way the first CR, LF or read limit can be met, in any state |
| CStrings.Characters | src/http_parse.cc:47-84 | the characters the scan and the string routines look for |
| RequestLine.GetLetters | src/http_parse.cc:76 | the method matches letter by letter, each in either case |
| RequestLine.VersionLetters | src/http_parse.cc:91 | so does the version |
| RequestLine.SchemeLetters | src/http_parse.cc:95 | so does the scheme, as a whole string and as a prefix |
| RequestLine.HostLetters | src/http_parse.cc:113 | so does the Host header name |
| RequestLine.CutLineExact | src/http_parse.cc:69-88 | which bytes of the line are overwritten: its first blank, and if the method is GET the first blank behind the target |
| HttpParse.CutAtBlank | src/http_parse.cc:69-73 | `strpbrk`, the NUL written there and `strspn`: both halves can afterwards be read as C strings where they stood |
| HttpParse.FindPath | src/http_parse.cc:95-102 | the pointer left by the `http://` and `strchr` steps is at the path of the target, and is null exactly when the target has none |
| HttpParse.ParseRequestLine | src/http_parse.cc:68-108 | verdict, outer state, log and buffer after the in-place split, in every return |
| HttpParse.ParseHeaders | src/http_parse.cc:110-121 | an empty line ends the request; otherwise the host or the unknown header is logged |
| HttpParse.ParseContent | src/http_parse.cc:123-159 | one call, with all its effects on buffer, cursors, state and log, is the function `Parse` of the bytes below the read limit; bytes behind it are untouched |
| RequestLine.TargetPathExact | src/http_parse.cc:95-102 | a target has a path exactly when it starts with a slash, or is `http://`, a slash-free host and a path |
| RequestLine.SplitExact | src/http_parse.cc:68-108 | the splitter accepts exactly the lines method, blanks, target, blanks, version, and yields exactly the path of the target |
| RequestLine.SplitInPlace | src/http_parse.cc:69-89 | after the NULs are written, method, target and version can be read back from the same memory |
| RequestLine.SplitEvents | src/http_parse.cc:76-104 | what is logged: the method exactly if the line begins with GET and a blank, the URL exactly if the line is accepted |
| RequestLine.RoundTrip | src/http_parse.cc:68-108 | printing a request for a path, in origin or absolute form, and splitting it gives back the path |
| HttpParse.Resume | src/http_parse.cc:123-159 | a call that ended without verdict can be resumed when bytes were appended; a verdict is the same on any longer input |
| HttpParse.ChunkIndependence | src/http_parse.cc:123-159 | a request fed in any pieces ends with the same verdict, cursors, outer state, buffer and log as when it is parsed whole |
| HttpParse.VerdictIsFinal | src/http_parse.cc:123-159 | appending bytes never changes a verdict or anything else but the bytes appended |
| HttpParse.LateLfIsDead | src/http_parse.cc:56-62 | under the cursor invariant the branch for an LF preceded by a CR is never taken |
| HttpParse.CursorKept | src/http_parse.cc:123-159 | a call keeps the cursor invariant, moves the cursors only forward and writes only inside the lines it consumed |
| HttpParse.CursorAlwaysOk | src/http_parse.cc:127-129 | start of line, scan position and read limit stay ordered, and the unfinished line holds no CR or LF, however the bytes arrive |
| HttpLanguage.Language | src/http_parse.cc:43-159 | for every byte stream: accepted, rejected or undecided exactly if it has the shape of an accepted request, of a broken one, or of an unfinished one |
| HttpLanguage.NulFreeLanguage | src/http_parse.cc:43-159 | without NULs in the stream: accepted means a valid request line, non-empty header lines and an empty line, all ended by CRLF; rejected means a first line that is invalid, or a stray CR or LF before that empty line; undecided means neither |
| HttpLanguage.HeaderExact | src/http_parse.cc:113-116 | a header line logs a host exactly when it is the name Host in any case, blanks and that host |
| HttpLanguage.UnknownHeaderExact | src/http_parse.cc:117-119 | every other header line is logged as unknown |
| HttpLanguage.AcceptedLog | src/http_parse.cc:104-159 | an accepted request logs its request line and then its headers in order; state and cursors stand behind its empty line, and the bytes there are untouched |
| HttpLanguage.RejectedLog | src/http_parse.cc:62-159 | a rejected stream logs the lines before the offence and what was read of a bad request line, nothing else; its outer state is that of those lines, and where the cursors stand |
| HttpLanguage.UndecidedLog | src/http_parse.cc:49-155 | an undecided stream logs its complete lines, and where the cursors stand |
| HttpLanguage.TurnOnLine | src/http_parse.cc:127-151 | what one complete line leads to and logs, in both outer states |
| HttpLanguage.PathIsLogged | src/http_parse.cc:104-107 | a valid first line switches to the header state and logs its path |
| HttpLanguage.StreamRoundTrip | src/http_parse.cc:68-159 | a printed request is recovered from the byte stream: its path heads the log however the stream is cut into pieces and whatever follows |
| TimeWheel.TimeWheel.AddTimer | src/time_wheel.cc:24-50 | the new node is linked in front of the list of its slot; a negative timeout adds nothing |
| WheelModel.TicksExact | src/time_wheel.cc:31-35 | the ticks of a timeout: one below the slot interval, else the whole intervals in it |
| TimeWheel.TimeWheel.DeleteTimer | src/time_wheel.cc:52-71 | exactly the node of that timer leaves its list, all lists stay well linked and disjoint |
| TimeWheel.TimeWheel.Tick | src/time_wheel.cc:73-103 | the walk over the current slot fires and unlinks the timers without rotations left, in list order, and takes one rotation off the others |
| WheelModel.AddImplements | src/time_wheel.cc:24-50 | adding to the wheel is adding a countdown to the queue it stands for |
| WheelModel.DeleteImplements | src/time_wheel.cc:52-71 | so is deleting |
| WheelModel.TickImplements | src/time_wheel.cc:73-103 | a tick fires exactly the countdowns at zero and lowers every other by one, though it visits one slot |
| WheelRuns.RunRefines | src/time_wheel.cc:24-103 | over every run the wheel and the queue fire the same timers in the same order on the same ticks |
| WheelRuns.EveryWheelImplements | src/time_wheel.cc:24-103 | every wheel, wherever its current slot is, stands for some queue of countdowns |
| WheelRuns.CountdownsOfTick | src/time_wheel.cc:73-103 | the countdowns read off slot and rotation go down by exactly one, and those at zero fire |
| WheelRuns.CountdownsOfAdd | src/time_wheel.cc:24-50 | an add creates exactly the countdown of its timeout, one tick or the whole intervals in it, and changes no other |
| WheelRuns.CountdownsOfDelete | src/time_wheel.cc:52-71 | a deletion removes exactly the countdowns of its timer |
| WheelRuns.FiresExactlyOnce | src/time_wheel.cc:29-38 | a timer that is added and left alone fires exactly once, on the second later tick if the timeout is below the slot interval and else after as many ticks as it holds whole intervals, from every wheel and through any other operations |
| WheelRuns.NeverAfterDelete | src/time_wheel.cc:52-71 | a deleted timer never fires |
| WheelRuns.LaterFiresFirst | src/time_wheel.cc:41-48 | of two timers due on the same tick the one added later fires first |
| PoolModel.CountKept | src/thread_pool.cc:40-76 | every step keeps the semaphore account |
| PoolModel.InvKept | src/thread_pool.cc:40-81 | every call, step or stop keeps the whole invariant |
| PoolTheorems.SemaphoreAccounts | src/thread_pool.cc:40-76 | in every reachable state queue length is semaphore value plus pushes not yet posted plus waits not yet popped; the empty-queue branch is never taken; mutual exclusion |
| PoolTheorems.ConservedInOrder | src/thread_pool.cc:48-75 | requests dequeued so far followed by the queue are the accepted ones in order; the queue never exceeds the maximum by more than one |
| PoolTheorems.ProcessedAtMostOnce | src/thread_pool.cc:74-80 | each dequeued request is processed at most once, a null one never, and until then exactly one worker holds it |
| PoolTheorems.NoLostWakeup | src/thread_pool.cc:67-76 | if requests wait and nobody is between them and the semaphore, the semaphore counts exactly them and every waiting worker can go on |
| PoolTheorems.RefusedIffFull | src/thread_pool.cc:43-46 | a request is refused exactly when the queue holds one more than the maximum |
| PoolTheorems.AppendAnswers | src/thread_pool.cc:43-54 | in every interleaving `append` returns true exactly if at most the maximum was waiting when it looked, and its request is then the next one accepted |
| PoolTheorems.CallAnswers | src/thread_pool.cc:40-54 | a call that returns true has had its request accepted since it began |
| PoolTheorems.CallsBegin | src/thread_pool.cc:40-41 | when a thread can call, and that the call carries its request |
| PoolTheorems.StoppedWorkerLeaves | src/thread_pool.cc:66 | with the intended guard a worker that tests it after a stop leaves |
| PoolTheorems.AtMostOneEachAfterStop | src/thread_pool.cc:66-75 | and in any run after a stop each worker past the guard dequeues at most one request, no other any |
| PoolTheorems.SchedulesEnd | src/thread_pool.cc:40-82 | the length of every run is bounded by the state it starts in and the calls and stops in it, so without new ones every schedule ends |
| PoolTheorems.EveryScheduleDrains | src/thread_pool.cc:40-82 | with a worker and no stop, through any further calls, whenever the pool is at rest every accepted request was processed exactly once |
| PoolTheorems.AsWrittenNothingIsProcessed | src/thread_pool.cc:66 | with the guard as written, without a stop nothing is ever dequeued |
| PoolTheorems.AsWrittenDrainsIff | src/thread_pool.cc:66 | with the guard as written, a pool at rest has processed everything it accepted, exactly once, if and only if it was stopped and a worker had not tested the guard yet when it first was |
| PoolTheorems.ProcessingNeedsStopAsWritten | src/thread_pool.cc:66 | a request can be processed from every initial pool; it takes a stop exactly with the guard as written |
| SortTimerList.SortTimerList.AddAfter | src/sort_timer_list.cc:15-37 | the private `add_timer` is stable insertion into the part of the list behind the given node, which stays well linked |
| SortTimerList.SortTimerList.AddTimer | src/sort_timer_list.cc:39-56 | in all four cases the list becomes the stable insertion of the timer with the deadline it came with, which it keeps |
| SortTimerList.SortTimerList.AdjustTimer | src/sort_timer_list.cc:58-78 | in the head and middle cases and both early returns the list is `AdjustAt` of the old one with the new deadline |
| SortTimerList.SortTimerList.DeleteTimer | src/sort_timer_list.cc:80-108 | with the missing `return`, exactly the given node leaves the list, which stays well linked |
| SortTimerList.SortTimerList.DeleteTimerAsWritten | src/sort_timer_list.cc:80-108 | as written, an access to a freed node is reached exactly for a last timer that is not the only one; otherwise it does what it should |
| SortTimerList.PositionOfTimer | src/sort_timer_list.cc:58-108 | what the methods do at a node is what the operations of a run, and deletion as written, do for its timer |
| SortTimerList.SortTimerList.Tick | src/sort_timer_list.cc:110-132 | fires the prefix of timers that are due, in order, and keeps the rest well linked |
| ListModel.InsertSorted | src/sort_timer_list.cc:15-56 | an insertion lands behind every deadline that is not later and before every later one, so the list stays sorted |
| ListModel.AdjustIsReinsert | src/sort_timer_list.cc:58-78 | `adjust_timer` is removal followed by stable insertion if and only if the new deadline is not earlier than the predecessor's |
| ListModel.AdjustTooEarly | src/sort_timer_list.cc:63-66 | otherwise the timer stays put and the list is no longer sorted |
| ListModel.AdjustSorted | src/sort_timer_list.cc:58-78 | under that condition the list is sorted, holds the same timers, keeps the others in order and has the adjusted one last of its deadline |
| ListModel.AdjustMultiset | src/sort_timer_list.cc:58-78 | adjusting never loses or invents a timer |
| ListModel.TickFiresDue | src/sort_timer_list.cc:120-131 | on a sorted list a tick fires exactly the timers at or before the clock, in order, and keeps exactly the others |
| ListModel.DueUpTo | src/sort_timer_list.cc:120-131 | on any list, sorted or not, a tick fires an entry exactly if it and everything in front of it are due |
| ListRuns.RunSorted | src/sort_timer_list.cc:15-132 | a run keeps the list sorted throughout if and only if every adjustment is in order |
| ListRuns.FiresWhenClear | src/sort_timer_list.cc:39-132 | on any list and whatever adjustments others get, a timer that is left alone fires exactly once, on the first tick by which it and everything in front of it are due |
| ListRuns.FiresExactlyOnce | src/sort_timer_list.cc:39-132 | as long as adjustments are in order, that is the first tick at or after its deadline |
| ListRuns.EarlierAddedFiresFirst | src/sort_timer_list.cc:19-29 | a timer added behind one with an equal or earlier deadline never fires before it on a tick |
| ListAsWritten.DeletionsFaultIff | src/sort_timer_list.cc:80-108 | a run of deletions as written faults exactly if it reaches the last timer that is left while another one is, and otherwise leaves exactly the others in order |
| ListAsWritten.DeletingTheSecondFaults | src/sort_timer_list.cc:99-107 | of two timers, deleting the second faults |
| TimeHeap.TimeHeap.FromArray | src/time_heap.cc:22-46 | the repaired constructor rejects a capacity below the size and otherwise holds the heapified timers of the array |
| TimeHeap.TimeHeap.AddTimer | src/time_heap.cc:55-76 | adds the timer by sifting it up, doubling the array first when it is full |
| TimeHeap.TimeHeap.Resize | src/time_heap.cc:145-163 | doubles the array and keeps its timers |
| TimeHeap.TimeHeap.DeleteTimer | src/time_heap.cc:78-83 | the timer is cancelled where it is and nothing moves |
| TimeHeap.TimeHeap.PopTop | src/time_heap.cc:92-101 | the last timer replaces the root and is sifted down |
| TimeHeap.TimeHeap.PercolateDown | src/time_heap.cc:128-143 | the loop that moves a hole down and fills it at the end is the sift by swaps |
| TimeHeap.TimeHeap.Tick | src/time_heap.cc:103-122 | pops the timers that are due and logs exactly those not cancelled |
| TimeHeap.Perform | src/time_heap.cc:55-122 | each operation on the object does what the operation of a run does: same timers, same cancelled ones, same callbacks |
| HeapModel.SiftDownRestores | src/time_heap.cc:128-143 | sifting a hole whose subtrees are heaps restores heap order |
| HeapModel.SiftUpRestores | src/time_heap.cc:64-75 | sifting up restores heap order |
| HeapModel.SiftUpPlaces | src/time_heap.cc:67-75 | a timer sifted up passes exactly the later ancestors, each of which moves one level down; nothing else moves, and it never passes an equal deadline |
| HeapModel.SiftDownPlaces | src/time_heap.cc:128-143 | a timer sifted down goes along strictly earlier children, each of which moves one level up, to a place whose children are not earlier; nothing else moves |
| HeapModel.AddKeeps | src/time_heap.cc:55-76 | adding keeps heap order and adds exactly the new timer |
| HeapModel.PopKeeps | src/time_heap.cc:92-101 | popping keeps heap order, removes exactly the root and leaves nothing earlier |
| HeapModel.BuildsHeap | src/time_heap.cc:38-45 | heapifying any array yields a heap of exactly its timers |
| HeapModel.TickPopsDue | src/time_heap.cc:103-122 | a tick pops exactly the timers that are due, earliest first, and leaves a heap of exactly the others |
| HeapModel.PopsInOrder | src/time_heap.cc:92-122 | building a heap and popping until it is empty sorts any array |
| HeapRuns.RunsUnlessCancelled | src/time_heap.cc:78-122 | over every run a timer is popped exactly on the first tick at or after its deadline, and its callback runs there exactly if it was not cancelled before |
| HeapRuns.ListAndHeapAgree | src/time_heap.cc:103-122 | over every run of adds, deletions and ticks list and heap fire the same timers on the same ticks, each in non-decreasing order, though the heap only cancels |
| HeapRuns.FromEmptyTheyAgree | src/sort_timer_list.cc:110-132 | the same from two empty containers, tick by tick |
| HeapAsWritten.ConstructsAtMostTwo | src/time_heap.cc:22-46 | as written the array constructor succeeds exactly for a full array of at most two timers |
| HeapAsWritten.ConstructsHeapIff | src/time_heap.cc:22-46 | it makes the heap of the repaired constructor exactly for a full array of at most two timers that come in order |
| HeapAsWritten.TwoOutOfOrder | src/time_heap.cc:42-44 | with deadlines 5 and 3 it succeeds and leaves no heap |
| HeapAsWritten.RootLeftOutIff | src/time_heap.cc:42-44 | for any size, a loop that stops before the root yields a heap exactly if the first timer is not later than any other |
| HeapAsWritten.PopCases | src/time_heap.cc:92-143 | what a pop as written does to any heap and any slots behind it: nothing to sift, one level down, a fault, or a stale timer pulled into the heap |
| HeapAsWritten.PopRightIff | src/time_heap.cc:92-143 | it agrees with the repaired pop exactly if the last timer belongs at the root, or one level below and the slot read next is used, not dangling and not earlier |
| HeapAsWritten.TickRightIff | src/time_heap.cc:103-143 | a tick as written agrees with the repaired one, pop by pop, exactly if every pop of it finds that condition met, a condition on the slots alone |
| HeapAsWritten.TickFaults | src/time_heap.cc:103-143 | a tick whose pop faults after pops that agreed stops there, having popped the first timers that are due |
| HeapAsWritten.ThreeTimersTick | src/time_heap.cc:103-143 | with deadlines 1, 2 and 3 a tick at clock 1 pops the first and faults |
| HeapAsWritten.TrackedPopFaults | src/time_heap.cc:92-143 | when every pointer that does not dangle is to a timer of the heap, the fault is exactly the unreadable slot |
| HeapAsWritten.PopKeepsTracked | src/time_heap.cc:96-99 | pops that agree with the repaired one keep the pointers so |
| HeapAsWritten.AddStores | src/time_heap.cc:55-76 | `add_timer` and `resize`, slot by slot, store the repaired heap whatever is behind it, and leave the slots behind it as they were or null |
| HeapAsWritten.FromEmptyNoStale | src/time_heap.cc:55-143 | over every run of adds and agreeing pops from an empty heap no stale timer gets in the way: a pop faults exactly at a slot that was never used or dangles |
| HeapAsWritten.SecondPopFaults | src/time_heap.cc:130-136 | with deadlines 1, 2, 3 and 2 the first pop is right and the second follows a dangling pointer |
| HeapAsWritten.FirstPopFaults | src/time_heap.cc:128-143 | as written the first pop faults exactly if the last timer is later than the earlier child of the root and nothing was ever stored at that child's left child |
| HeapAsWritten.FirstPopSiftsOneLevel | src/time_heap.cc:136-140 | otherwise it sifts one level at most and leaves a heap exactly if the timer belongs no deeper |
| HeapAsWritten.ThreeTimersFault | src/time_heap.cc:130-136 | with deadlines 1, 2 and 3 the first pop faults |

## Left out

- Every `main`, sockets, `epoll`, `select`, signals, descriptor passing, the examples of system calls, and `src/epoll_one_shot.cc`: their meaning lies in the kernel.
- The 4096-byte limit of the request buffer and the `recv` loop around the parser, including what `src/http_parse.cc:210` does as written.
- `HTTP_CODE` values the parser never returns, and the default branch for an outer state that does not exist.
- `src/locker.cc`: the mutex and the counting semaphore are ideal and never fail. Spurious failures of `wait` are not modelled.
- Creation, detaching and destruction of the pool's threads. A thread is either an appender or a worker from the start, and the intended guard is read in one atomic step.
- `request->process()` is one step that logs the request; what it does and how long it takes is not modelled, and it does not call the pool.
- Destructors. A deleted node is a node that is no longer in any list; memory is never reused.
- Callbacks do not call back into the container that runs them.
- Allocation failure, overflow of `capacity << 1`, of clock sums and of `int` in general: integers are unbounded.
- TimeHeap.TimeHeap.AddTimer: says nothing for capacity 0, where doubling never makes room and the write runs off the array.
- TimeHeap.TimeHeap.Tick: says nothing for capacity 0, where it reads a slot that does not exist.
- The wheel has any positive number of slots and any positive slot interval; the repository has 60 and 1.
- `top` and `empty` of the heap are one-line readers.
- HeapAsWritten.FirstPopFaults: assumes, like the other results on pops as written, that no timer is in the heap twice; the first of its two pops would delete it.
- HeapAsWritten.PopCases: is about arrays whose used slots form a heap of distinct timers; what further pops do to an array that a wrong pop left out of order is not followed up.
- ListRuns.EarlierAddedFiresFirst: says nothing of timers that are themselves adjusted, deleted or added again, whose order the adjustment decides.
- HeapRuns.ListAndHeapAgree: assumes a timer is added only while it is in neither container and was not cancelled, as a cancelled timer keeps its empty callback; runs with adjustments are excluded because the heap has none.
