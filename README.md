# jdm: a verified model of the per-thread diagnostic state

This project models `source/jdm.c`, a small C library that gives every
thread one diagnostic record (`jdm_state`). The record holds:

- a bounded **call-stack tracker**: `jdm_enter_function` and
  `jdm_leave_function` push and pop function names, and hand out an
  overflow sentinel once the tracker is full;
- a bounded **message store**: `jdm_push`/`jdm_push_va` append a message
  unless its severity is below the minimum or the store is full, and an
  optional hook can veto it. `jdm_peek` reads the messages newest first.
  `jdm_process` reads them newest first and consumes them. Both take a
  callback that can stop the walk early;
- the **lifecycle**: `jdm_init_thread` allocates the name copy and the two
  slot arrays, any of which may fail. `jdm_cleanup_thread` frees them and
  zeroes the record. There are also setters for the hook and the minimum
  severity, and the severity-name lookup `jdm_message_level_str`.

The Dafny files:

- `levels.dfy` (module `Levels`): the severity enumeration, its order, and
  the name table.
- `jdm.dfy` (module `Jdm`): the record as the class `ThreadState`. The
  message slots are an `array<Message?>` and the frame slots an
  `array<string>`; `Message` is a class, so each message block has an
  identity. The allocator is tracked by a ghost set `live` of the blocks
  handed out and not yet freed, so frees and leaks can be stated. The
  newest-first walk of `jdm_peek`/`jdm_process` is specified by the pure
  function `Walk` and the lemmas about it.
- `clients.dfy` (module `JdmClients`): call sequences of the library's
  users, checked against the contracts.
- `wrappers.dfy` (module `Wrappers`): `Option`, standing for a pointer
  that may be NULL.

Inputs the model cannot compute are parameters. The allocator's answer to
each request in `jdm_init_thread` is a boolean. The hook and the report
callback are total functions of the call's arguments, and `Peek`/`Process`
return the sequence of callback calls they made.

Every `assert` of the C code that guards an operation is a `requires` of
the model: a thread name whose `strlen` is not zero (`jdm.c:68-81`), the enter/leave pairing
(`jdm.c:141-149`) and the empty tracker at cleanup (`jdm.c:107`).

## Behaviour modelled as the code has it

At these points the code does something a caller may not expect. Each one
is modelled as written.

- **Hook answer.** Only a hook answer of 0 discards the message. Any
  non-zero answer stores it, negative ones included (`jdm.c:167-173`). The
  report callback of `jdm_process` and `jdm_peek` works the other way: a
  negative answer is its refusal (`jdm.c:230`, `jdm.c:249`).
  `ThreadState.HookAccepts` and `JdmClients.HookVeto` show this.
- **Early stop of `jdm_process`.** The code frees only the messages
  answered before the stop. It then sets the count to 0 anyway
  (`jdm.c:232-238`). So the stopping message and all older ones are lost
  without being freed, where a caller would expect the unvisited messages
  to stay in the store. `ThreadState.Process`, `JdmClients.ProcessLeaksOlder`
  and `JdmClients.PartialDrain` state this.
- **Thread name.** The name's length is its `strlen` (`jdm.c:68`), and
  that is what `StrLen` models. A NULL name, an empty name, or a name that
  starts with a nul leaves the copy NULL. It then fails the assertion at
  `jdm.c:81`, so `InitThread` requires `StrLen(threadName) > 0`. A name
  with a nul inside is copied only up to that nul
  (`JdmClients.NameUpToNul`).
- **Failed init.** The code frees what it allocated, but leaves the freed
  name pointer in the record. It may also leave the freed slot array and
  its capacity (`jdm.c:85-99`). `InitThread`'s failure postconditions state
  this residue.
  - A failure at the frame-slot allocation with a non-zero `max_errors`
    leaves `error_capacity == max_errors` and `error_count == 0`. On that
    record, `jdm_push` passes its check at `jdm.c:156`.
  - `jdm_push` then calls the saved allocator (`jdm.c:161`). Only a
    successful init saves it (`jdm.c:101`). On a record that started
    zeroed, the call goes through a null function pointer.
  - Had it returned a block, the message would be written into the freed
    slot array (`jdm.c:179`).
  - The model marks such a record as not `Valid()`, and no operation of the
    model may be called on it.
- **Severity order.** `include/jdm.h` names the levels `JDM_ERROR_LEVEL_*`
  and has no Fatal. The model uses the order and values that `jdm.c`
  relies on (`jdm.c:264-271`): None = 0, Debug, Trace, Info, Warn, Error,
  Critical, Fatal = 7.
- **Calling init again.** `InitThread` requires a record with no stored
  messages, no frames and no frame slots. That is a zeroed record, one
  after cleanup, or one after a failed init. Initialising a live record
  twice is undefined for the library.

## Model

| member | source | states |
|---|---|---|
| Levels.Level.Code | source/jdm.c:264-271 | every level's enumerator value indexes the name table |
| Levels.FromCode | source/jdm.c:272-277 | an integer names a level exactly when it lies in None..Fatal, and then the level's value is that integer |
| Levels.MessageLevelStr | source/jdm.c:259-278 | the lookup yields a name exactly for the values of a level, and NULL outside None..Fatal |
| Levels.LevelHasName | source/jdm.c:264-271 | every level has a name, and the lookup by its value finds that level again |
| Levels.BelowIsStrictTotalOrder | source/jdm.c:156 | the comparison used by the severity filter is irreflexive, transitive and total on levels |
| Levels.MessageLevelStrInjective | source/jdm.c:264-271 | two values with the same name are the same value: a name identifies its level |
| Jdm.Message.constructor | source/jdm.c:8-15 | a new message record holds exactly the level, line, file, function and text it was made from |
| Jdm.AppendKeepsLeaks | source/jdm.c:179-184 | storing a freshly allocated message leaves the set of live but unowned blocks unchanged |
| Jdm.ReleaseNewestLeaksOlder | source/jdm.c:232-238 | freeing the newest slots and then forgetting the store leaves exactly the older messages live and unowned, on top of what was already leaked |
| Jdm.StrLen | source/jdm.c:68 | the name's length is the number of characters before its first nul, or all of them when it has none |
| Jdm.StrLenOfCopy | source/jdm.c:72-78 | a nul-terminated copy of a nul-free text has that text's length as its own `strlen` |
| Jdm.CopyName | source/jdm.c:70-79 | the name copy is a fresh block holding the characters before the name's first nul, followed by a nul |
| Jdm.ReportOf | source/jdm.c:228-229 | the report for rank k comes from slot count-1-k and carries the count as total, the slot (peek) or the rank (process) as index, and the message's level, line, file, function, text and the parameter |
| Jdm.Walk | source/jdm.c:225-230 | the calls of the newest-first loop: one report per message from a rank on, ending right after the first negative answer |
| Jdm.WalkFrom | source/jdm.c:225-230 | a walk from a rank reports the messages from that rank on in newest-first order; every call but the last was answered non-negatively, and the walk ends early only after a negative answer |
| Jdm.WalkNewestFirst | source/jdm.c:222-251 | call k reports the message in slot count-1-k, with the count as total and the slot (peek) or k (process) as index; the walk stops only after a negative answer |
| Jdm.WalkVisitsAll | source/jdm.c:225-230 | a callback that never answers negatively sees every stored message |
| Jdm.VisitedBeforeStop | source/jdm.c:224-231 | the number of messages answered before the stop is the number of calls, less one exactly when the last answer was negative |
| Jdm.ThreadState.constructor | source/jdm.c:39 | the thread-local record starts zeroed and owns nothing |
| Jdm.ThreadState.Acquire | source/jdm.c:41-45 | an allocation adds one block, not yet live, to the live set |
| Jdm.ThreadState.Release | source/jdm.c:47-51 | a free removes one live block from the live set |
| Jdm.ThreadState.Stored | source/jdm.c:22-24 | the slots in use are as many as the message count, and none is NULL |
| Jdm.ThreadState.Entries | source/jdm.c:22-24 | the stored messages are as many as the message count |
| Jdm.ThreadState.Frames | source/jdm.c:26-28 | the recorded frames are as many as the tracker depth |
| Jdm.ThreadState.Admits | source/jdm.c:156 | a push gets past the filter exactly when its level is not below the minimum and the count is not at capacity |
| Jdm.ThreadState.HookCallFor | source/jdm.c:170 | the hook is called with the thread name, the recorded frames, the message's level, line, file, function and text, and the hook parameter |
| Jdm.ThreadState.HookAccepts | source/jdm.c:167-173 | a message is stored when there is no hook, or the hook's answer is not 0 |
| Jdm.ThreadState.Install | source/jdm.c:80-101 | after the last allocation succeeds, the record holds the name copy, the level, both slot arrays with their capacities, and empty store and tracker |
| Jdm.ThreadState.InitThread | source/jdm.c:60-103 | a name whose `strlen` is not zero is required; returns 0 exactly when all three allocations succeed, and -1 otherwise; on success the record is ready, with the name up to its first nul, the level and capacities asked for and three fresh live blocks; on failure every block allocated is freed again, and the freed name and slot array stay behind in the record |
| Jdm.ThreadState.CleanupThread | source/jdm.c:105-116 | with an empty tracker, frees the name, every stored message and both slot arrays, and zeroes the record; only blocks leaked earlier remain live |
| Jdm.ThreadState.ReleaseStored | source/jdm.c:108-111 | the loop frees exactly the stored messages |
| Jdm.ThreadState.Reset | source/jdm.c:115 | the memset zeroes every field and frees nothing |
| Jdm.ThreadState.GetStacktrace | source/jdm.c:118-121 | returns the tracker depth and the frame slots, whose first depth entries are the recorded frames |
| Jdm.ThreadState.GetThreadName | source/jdm.c:123-125 | on a ready record, returns the live, owned copy of the thread name followed by a nul |
| Jdm.ThreadState.EnterFunction | source/jdm.c:127-135 | returns the depth before the call; below capacity the name is pushed on the frames; at capacity nothing changes and the capacity is the token; the store is untouched |
| Jdm.ThreadState.LeaveFunction | source/jdm.c:137-151 | a token below capacity must be the depth under the top frame, which must hold the name, and the frame is popped; otherwise the token must be the sentinel of a full tracker, and nothing changes |
| Jdm.ThreadState.PushVa | source/jdm.c:153-185 | when the level passes the filter, the store has room and the hook does not answer 0, exactly one fresh record with the given contents is appended and becomes live, and earlier slots keep their records; otherwise count, slots and live blocks are unchanged; the tracker never changes |
| Jdm.ThreadState.Push | source/jdm.c:187-194 | the same filter in front of PushVa, with the same outcome |
| Jdm.ThreadState.Visit | source/jdm.c:225-230 | the loop's callback calls are the newest-first walk of the stored messages |
| Jdm.ThreadState.DropNewest | source/jdm.c:232-238 | frees exactly the given number of newest messages, sets their slots to NULL, keeps the older slots, and empties the store |
| Jdm.ThreadState.Process | source/jdm.c:222-239 | the callback calls are the newest-first walk with ranks as indices; afterwards the store is empty; exactly the messages answered before the stop are freed, and the older ones stay live |
| Jdm.ThreadState.Peek | source/jdm.c:241-251 | the callback calls are the newest-first walk with absolute slots as indices, and nothing changes |
| Jdm.ThreadState.SetHook | source/jdm.c:253-257 | the hook and its parameter are replaced outright |
| Jdm.ThreadState.SetMessageLevel | source/jdm.c:280-283 | the minimum level is replaced, and a push is admitted exactly when its level is not below it and the store has room |
| JdmClients.EnterThenLeave | source/jdm.c:127-151 | an enter followed by the matching leave restores the depth and the frames, whether or not the tracker was full |
| JdmClients.NestedBrackets | source/jdm.c:127-151 | with room for two more frames, nested enter/leave pairs get consecutive tokens, the depth and the depth plus one, and restore the frames |
| JdmClients.PeekNewestFirst | source/jdm.c:241-251 | after pushing A, B, C into an empty store, peek reports C, B, A with indices 2, 1, 0 and total 3 |
| JdmClients.PeekTwice | source/jdm.c:241-251 | two peeks in a row make the same calls |
| JdmClients.SeverityFilter | source/jdm.c:156 | with the minimum at Warn, an Info push is dropped and an Error push is stored |
| JdmClients.HookVeto | source/jdm.c:167-184 | a hook answering 0 drops the message; one answering -1 lets it be stored |
| JdmClients.PushLeaksNothing | source/jdm.c:153-194 | a push on a ready record, stored or dropped, leaves the live blocks the record does not reference unchanged |
| JdmClients.ProcessLeaksOlder | source/jdm.c:222-239 | process adds to the leaked blocks exactly the messages from the one that stopped the walk down to the oldest |
| JdmClients.PartialDrain | source/jdm.c:222-239 | with five messages and a callback that refuses the second visit, process makes two calls and empties the store; only the newest message is freed, and the four older ones stay live |
| JdmClients.Lifecycle | source/jdm.c:60-116 | init with every allocation granted, then cleanup, frees every block and leaves a zeroed record |
| JdmClients.InitRefused | source/jdm.c:94-100 | an init whose frame-slot allocation fails returns -1 with no block left live |
| JdmClients.NameUpToNul | source/jdm.c:68-78 | init with the name "ab", nul, "c" succeeds and keeps "ab" as the thread name |

## Left out

- `jdm_report_fatal_va`/`jdm_report_fatal` (`jdm.c:196-220`) are not modelled: they print and call `exit`. They never touch the message store, and they read `stack_traces[0]` even at depth 0.
- Formatting with `vsnprintf` and `va_list` (`jdm.c:157-166`) is not modelled: the message text arrives already formatted.
- `_Thread_local` (`jdm.c:39`) is not modelled: the model has one record per `ThreadState` object, and no threads.
- The `malloc`/`free` wrappers, the default allocator and the NULL-allocator fallback (`jdm.c:41-66`) are not modelled. The allocator is the ghost `live` set plus the boolean answers given to `InitThread`. The allocator saved in the record on success is not modelled.
- Jdm.ThreadState.PushVa: a message allocation always succeeds, because the code asserts it (`jdm.c:162`). The message text's length check (`jdm.c:165`) is not modelled.
- Callbacks are pure total functions. A hook or report callback that calls back into the library, or has side effects, is not modelled.
- The `void*` parameters are natural numbers, and function names and file names are strings. The pointer comparison at `jdm.c:142` is string equality here.
- The enumerator values a C caller could pass outside None..Fatal are not modelled for `jdm_push`, `jdm_init_thread` and `jdm_set_message_level`: these take a `Level`. `MessageLevelStr` takes any integer.
- Jdm.ThreadState.PushVa and Jdm.ThreadState.Push: that no block leaks is not stated in their postconditions. `JdmClients.PushLeaksNothing` proves it from them with `AppendKeepsLeaks`.
- Jdm.ThreadState.Process: that the stopping message and the older ones leak is stated through `live` and the old store, not through `Leaked()`. `JdmClients.ProcessLeaksOlder` proves the leaked-blocks form with `ReleaseNewestLeaksOlder`.
- Operations on a record that is not `Valid()` are not modelled. That covers a record left by an init that failed at the frame slots with a non-zero `max_errors` (see "Failed init" above): a push on it calls a zeroed allocator callback.
- A NULL thread name is not a separate input: it behaves as a name whose `strlen` is 0, which the assertion at `jdm.c:81` rejects.
- The out-of-sync prototypes and the macros of `include/jdm.h` (`jdm.h:14-58`) and the test program `source/tests/simple_test.c` are not modelled.
