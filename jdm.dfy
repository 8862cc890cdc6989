/**
 * The per-thread diagnostic state of source/jdm.c: a bounded call-stack
 * tracker and a bounded store of messages, with the lifecycle, hook and
 * consumption operations that change them.
 */
module Jdm {
  import Wrappers
  import opened Levels

  /** `uint32_t`, the width of every counter, capacity, token and line number. */
  type u32 = x: int | 0 <= x < 0x1_0000_0000

  /** A `void*` user parameter, known only by its address. */
  type Param = nat

  /** The contents of one stored message (`struct jdm_message` without its identity). */
  datatype Entry = Entry(level: Level, line: u32, file: string, func: string, text: string)

  /**
   * A heap-allocated `struct jdm_message`. Its identity is the allocator
   * block; its fields never change once it is created.
   */
  class Message {
    const level: Level
    const line: u32
    const file: string
    const func: string
    const text: string

    constructor (level: Level, line: u32, file: string, func: string, text: string)
      ensures AsEntry() == Entry(level, line, file, func, text)
    {
      this.level := level;
      this.line := line;
      this.file := file;
      this.func := func;
      this.text := text;
    }

    function AsEntry(): Entry {
      Entry(level, line, file, func, text)
    }
  }

  /** The arguments of one call of a `jdm_error_hook_fn`. */
  datatype HookCall = HookCall(
    threadName: string, stackTrace: seq<string>, level: Level, line: u32,
    file: string, func: string, text: string, param: Param)

  /** A hook; its integer answer decides whether the message is stored. */
  type HookFn = HookCall -> int

  /** The arguments of one call of a `jdm_error_report_fn`. */
  datatype Report = Report(
    total: u32, index: u32, level: Level, line: u32,
    file: string, func: string, text: string, param: Param)

  /** A report callback of `jdm_process` and `jdm_peek`; a negative answer stops the walk. */
  type ReportFn = Report -> int

  /** The entries of a run of stored message slots. */
  function Contents(s: seq<Message?>): (es: seq<Entry>)
    requires forall k :: 0 <= k < |s| ==> s[k] != null
  {
    seq(|s|, k requires 0 <= k < |s| && s[k] != null => s[k].AsEntry())
  }

  /** The message blocks referenced by a run of slots. */
  ghost function Objects(s: seq<Message?>): set<object> {
    set m: Message | m in s
  }

  lemma ObjectsCons(m: Message?, s: seq<Message?>)
    requires m != null
    ensures Objects([m] + s) == {m} + Objects(s)
  {
    assert forall x: Message :: x in [m] + s <==> x == m || x in s;
  }

  /**
   * Storing a newly allocated message leaks nothing: the blocks that are
   * live but not owned stay the same.
   */
  lemma AppendKeepsLeaks(live: set<object>, kept: set<object>, s: seq<Message?>, m: Message)
    requires m !in live
    ensures (live + {m}) - (kept + Objects(s + [m])) == live - (kept + Objects(s))
  {
    assert Objects(s + [m]) == Objects(s) + {m} by {
      assert forall x: Message :: x in s + [m] <==> x in s || x == m;
    }
  }

  /** No message block occupies two slots. */
  ghost predicate Distinct(s: seq<Message?>) {
    forall k, l :: 0 <= k < l < |s| ==> s[k] != s[l]
  }

  lemma ObjectsSplit(s: seq<Message?>, a: nat)
    requires a <= |s|
    ensures Objects(s) == Objects(s[..a]) + Objects(s[a..])
    ensures Distinct(s) ==> Objects(s[..a]) !! Objects(s[a..])
  {
    assert s == s[..a] + s[a..];
    assert forall x: Message :: x in s <==> x in s[..a] || x in s[a..];
    if Distinct(s) {
      forall x: Message | x in s[..a]
        ensures x !in s[a..]
      {
        var k :| 0 <= k < a && s[k] == x;
      }
    }
  }

  /** The name copy and the two slot arrays are never message blocks. */
  lemma NotMessages(name: array?<char>, slots: array?<Message?>, frames: array?<string>, s: seq<Message?>)
    ensures name !in Objects(s) && slots !in Objects(s) && frames !in Objects(s)
  {
  }

  /** Giving back the name copy, the messages and both slot arrays, in the order of `jdm_cleanup_thread`. */
  lemma ReleaseOwned(live: set<object>, name: object, slots: object, frames: object, messages: set<object>)
    ensures live - {name} - messages - {slots} - {frames} == live - ({name, slots, frames} + messages)
  {
  }

  /**
   * Releasing the newest slots of a store of distinct live blocks and then
   * forgetting the whole store leaves the older slots live but unowned.
   */
  lemma ReleaseNewestLeaksOlder(live: set<object>, kept: set<object>, s: seq<Message?>, a: nat)
    requires a <= |s| && Distinct(s)
    requires Objects(s) <= live && kept !! Objects(s)
    ensures (live - Objects(s[a..])) - kept == (live - (kept + Objects(s))) + Objects(s[..a])
  {
    ObjectsSplit(s, a);
  }

  /**
   * `strlen`: the length of the C string held in `s`, that is, of the text
   * before the first nul, or all of `s` when it has none.
   */
  function StrLen(s: string): (n: nat)
    ensures n <= |s| && '\0' !in s[..n]
    ensures n < |s| ==> s[n] == '\0'
  {
    if s == [] || s[0] == '\0' then 0
    else
      var n := 1 + StrLen(s[1..]);
      assert s[..n] == [s[0]] + s[1..][..n - 1];
      n
  }

  /** A nul-terminated copy holds its own string: `strlen` of the copy is the length copied. */
  lemma {:induction false} StrLenOfCopy(text: string)
    requires '\0' !in text
    ensures StrLen(text + ['\0']) == |text|
  {
    if text != [] {
      assert text[0] in text;
      assert (text + ['\0'])[1..] == text[1..] + ['\0'];
      assert forall k :: 0 <= k < |text[1..]| ==> text[1..][k] == text[k + 1];
      StrLenOfCopy(text[1..]);
    }
  }

  /**
   * The copy that `jdm_init_thread` allocates for a thread name: the
   * `strlen(threadName)` characters before the first nul, then a nul.
   */
  method CopyName(threadName: string) returns (name: array<char>)
    ensures fresh(name)
    ensures name.Length == StrLen(threadName) + 1
    ensures name[..StrLen(threadName)] == threadName[..StrLen(threadName)]
    ensures name[StrLen(threadName)] == '\0'
  {
    var n := StrLen(threadName);
    name := new char[n + 1];
    forall i | 0 <= i < n {
      name[i] := threadName[i];
    }
    name[n] := '\0';
  }

  /**
   * The report for the message of rank `rank` in a newest-first walk over
   * `store`: it sits in slot |store|-1-rank, and the index passed is that
   * slot when `absolute` (jdm_peek) or the rank itself otherwise (jdm_process).
   */
  function ReportOf(store: seq<Entry>, rank: nat, absolute: bool, param: Param): Report
    requires rank < |store| < 0x1_0000_0000
  {
    var slot := |store| - 1 - rank;
    var e := store[slot];
    Report(|store|, if absolute then slot else rank, e.level, e.line, e.file, e.func, e.text, param)
  }

  /**
   * The callback calls of a newest-first walk over `store` from `rank` on:
   * one call per message, stopping right after the first negative answer.
   */
  function Walk(store: seq<Entry>, fn: ReportFn, param: Param, absolute: bool, rank: nat): seq<Report>
    requires |store| < 0x1_0000_0000
    decreases |store| - rank
  {
    if rank >= |store| then []
    else
      var r := ReportOf(store, rank, absolute, param);
      if fn(r) < 0 then [r] else [r] + Walk(store, fn, param, absolute, rank + 1)
  }

  /** What a walk from `rank` on does: the messages in newest-first order, up to and including the first refusal. */
  lemma {:induction false} WalkFrom(store: seq<Entry>, fn: ReportFn, param: Param, absolute: bool, rank: nat)
    requires rank <= |store| < 0x1_0000_0000
    ensures var rs := Walk(store, fn, param, absolute, rank);
      && |rs| <= |store| - rank
      && (forall k :: 0 <= k < |rs| ==> rs[k] == ReportOf(store, rank + k, absolute, param))
      && (forall k :: 0 <= k < |rs| - 1 ==> fn(rs[k]) >= 0)
      && (|rs| < |store| - rank ==> 0 < |rs| && fn(rs[|rs| - 1]) < 0)
    decreases |store| - rank
  {
    if rank < |store| {
      var r := ReportOf(store, rank, absolute, param);
      if fn(r) >= 0 {
        WalkFrom(store, fn, param, absolute, rank + 1);
      }
    }
  }

  /**
   * The whole walk of `jdm_peek` (absolute) or `jdm_process` (not absolute):
   * the k-th call reports the message in slot |store|-1-k, with total |store|;
   * every call but the last was answered non-negatively, and the walk ends
   * early only on a negative answer.
   */
  lemma WalkNewestFirst(store: seq<Entry>, fn: ReportFn, param: Param, absolute: bool)
    requires |store| < 0x1_0000_0000
    ensures var rs := Walk(store, fn, param, absolute, 0);
      && |rs| <= |store|
      && (forall k :: 0 <= k < |rs| ==>
            && rs[k].total == |store|
            && rs[k].index == (if absolute then |store| - 1 - k else k)
            && Entry(rs[k].level, rs[k].line, rs[k].file, rs[k].func, rs[k].text) == store[|store| - 1 - k]
            && rs[k].param == param)
      && (forall k :: 0 <= k < |rs| - 1 ==> fn(rs[k]) >= 0)
      && (|rs| < |store| ==> 0 < |rs| && fn(rs[|rs| - 1]) < 0)
  {
    WalkFrom(store, fn, param, absolute, 0);
  }

  /** A walk whose callback never refuses visits every message. */
  lemma WalkVisitsAll(store: seq<Entry>, fn: ReportFn, param: Param, absolute: bool)
    requires |store| < 0x1_0000_0000
    requires forall r :: fn(r) >= 0
    ensures |Walk(store, fn, param, absolute, 0)| == |store|
  {
    WalkFrom(store, fn, param, absolute, 0);
  }

  /** One step of a walk, with the calls made so far in front. */
  lemma WalkStep(store: seq<Entry>, fn: ReportFn, param: Param, absolute: bool, rank: nat, done: seq<Report>)
    requires rank < |store| < 0x1_0000_0000
    ensures var r := ReportOf(store, rank, absolute, param);
      done + Walk(store, fn, param, absolute, rank)
        == if fn(r) < 0 then done + [r] else (done + [r]) + Walk(store, fn, param, absolute, rank + 1)
  {
    var r := ReportOf(store, rank, absolute, param);
    if fn(r) >= 0 {
      assert done + ([r] + Walk(store, fn, param, absolute, rank + 1)) == (done + [r]) + Walk(store, fn, param, absolute, rank + 1);
    }
  }

  /** The number of calls of a walk answered before it stopped: the messages `jdm_process` releases. */
  function VisitedBeforeStop(calls: seq<Report>, fn: ReportFn): (n: nat)
    ensures n <= |calls| && |calls| - 1 <= n
    ensures n < |calls| <==> calls != [] && fn(calls[|calls| - 1]) < 0
  {
    if calls != [] && fn(calls[|calls| - 1]) < 0 then |calls| - 1 else |calls|
  }

  /** The state record `jdm_state` of one thread. */
  class ThreadState {
    var thrdName: array?<char>
    var lenName: nat

    var errorCount: u32
    var errorCapacity: u32
    var errors: array?<Message?>

    var stackCount: u32
    var stackCapacity: u32
    var stackTraces: array?<string>

    var level: Level

    var hook: Wrappers.Option<HookFn>
    var hookParam: Param

    /** The blocks obtained from the allocator and not yet released. */
    ghost var live: set<object>

    /** The state after a successful `jdm_init_thread`. */
    ghost predicate Ready()
      reads this, thrdName, errors
    {
      && thrdName != null && errors != null && stackTraces != null
      && 0 < lenName && thrdName.Length == lenName + 1 && thrdName[lenName] == '\0'
      && errors.Length == errorCapacity && stackTraces.Length == stackCapacity
      && errorCount <= errorCapacity && stackCount <= stackCapacity
      && thrdName in live && errors in live && stackTraces in live
      && (forall k :: 0 <= k < errorCount ==> errors[k] != null && errors[k] in live)
      && (forall k, l :: 0 <= k < l < errorCount ==> errors[k] != errors[l])
    }

    /** A state in which nothing can be stored or recorded: zeroed, or left by a failed init. */
    ghost predicate Dormant()
      reads this
    {
      errorCount == 0 && errorCapacity == 0 && stackCount == 0 && stackCapacity == 0
    }

    /** The states on which every operation is defined. */
    ghost predicate Valid()
      reads this, thrdName, errors
    {
      Ready() || Dormant()
    }

    /** The zero-filled record: the initial thread-local value, and the state after cleanup. */
    ghost predicate Zeroed()
      reads this
    {
      && Dormant()
      && thrdName == null && lenName == 0 && errors == null && stackTraces == null
      && level == Level.None && hook == Wrappers.None && hookParam == 0
    }

    /** The thread name the state holds a copy of. */
    ghost function ThreadName(): string
      reads this, thrdName, errors
      requires Ready()
    {
      thrdName[..lenName]
    }

    /** The message slots in use, oldest first. */
    ghost function Stored(): (s: seq<Message?>)
      reads this, thrdName, errors
      requires Valid()
      ensures |s| == errorCount
      ensures forall k :: 0 <= k < |s| ==> s[k] != null
    {
      if Ready() then errors[..errorCount] else []
    }

    /** The stored messages, oldest first. */
    ghost function Entries(): (es: seq<Entry>)
      reads this, thrdName, errors
      requires Valid()
      ensures |es| == errorCount
    {
      Contents(Stored())
    }

    /** The recorded call-stack frames, outermost first. */
    ghost function Frames(): (fs: seq<string>)
      reads this, thrdName, errors, stackTraces
      requires Valid()
      ensures |fs| == stackCount
    {
      if Ready() then stackTraces[..stackCount] else []
    }

    /** The blocks the state owns. */
    ghost function Owned(): set<object>
      reads this, thrdName, errors
      requires Ready()
    {
      var name: object, slots: object, frames: object := thrdName, errors, stackTraces;
      {name, slots, frames} + Objects(Stored())
    }

    /** Live blocks the state no longer references: memory lost for good. */
    ghost function Leaked(): set<object>
      reads this, thrdName, errors
      requires Ready()
    {
      live - Owned()
    }

    /** Whether `jdm_push` gets past its severity filter and capacity check. */
    predicate Admits(level: Level)
      reads this
    {
      !level.Below(this.level) && errorCount != errorCapacity
    }

    /** The hook call a push of these arguments makes. */
    ghost function HookCallFor(level: Level, line: u32, file: string, func: string, text: string): HookCall
      reads this, thrdName, errors, stackTraces
      requires Ready()
    {
      HookCall(ThreadName(), Frames(), level, line, file, func, text, hookParam)
    }

    /** Whether the hook lets a message be stored: no hook, or any non-zero answer. */
    predicate HookAccepts(call: HookCall)
      reads this
    {
      hook.None? || hook.value(call) != 0
    }

    /** The zero-initialised thread-local record. */
    constructor ()
      ensures Zeroed() && live == {}
    {
      thrdName, lenName := null, 0;
      errorCount, errorCapacity, errors := 0, 0, null;
      stackCount, stackCapacity, stackTraces := 0, 0, null;
      level := Level.None;
      hook, hookParam := Wrappers.None, 0;
      live := {};
    }

    /** The allocator hands out block `b`. */
    ghost method Acquire(b: object)
      requires b !in live
      modifies this`live
      ensures live == old(live) + {b}
    {
      live := live + {b};
    }

    /** The allocator takes back block `b`, which must be one it handed out and not yet freed. */
    ghost method Release(b: object)
      requires b in live
      modifies this`live
      ensures live == old(live) - {b}
    {
      live := live - {b};
    }

    /**
     * The last step of a successful `jdm_init_thread`: the state takes the
     * name copy, the minimum level and the two freshly allocated slot arrays.
     */
    method Install(threadName: string, name: array<char>, level: Level,
                   slots: array<Message?>, frames: array<string>)
      requires 0 < |threadName| && name.Length == |threadName| + 1
      requires name[..|threadName|] == threadName && name[|threadName|] == '\0'
      requires slots.Length < 0x1_0000_0000 && frames.Length < 0x1_0000_0000
      requires name !in live && slots !in live && frames !in live
      requires errorCount == 0 && stackCount == 0
      modifies this
      ensures Ready() && thrdName == name && errors == slots && stackTraces == frames
      ensures live == old(live) + {name as object, slots, frames}
      ensures ThreadName() == threadName && this.level == level
      ensures errorCapacity == slots.Length && stackCapacity == frames.Length
      ensures errorCount == 0 && stackCount == 0
      ensures hook == old(hook) && hookParam == old(hookParam)
    {
      lenName, thrdName, this.level := |threadName|, name, level;
      errors, errorCapacity := slots, slots.Length;
      stackTraces, stackCapacity := frames, frames.Length;
      live := live + {name as object, slots, frames};
    }

    /**
     * `jdm_init_thread`. Each `...Granted` is the allocator's answer to the
     * request for the name copy, the message slots and the frame slots, in
     * that order. The name's length is its `strlen`, and it must be non-zero:
     * a name that is empty or starts with a nul leaves the copy NULL and
     * fails the assertion that follows it.
     */
    method InitThread(threadName: string, level: Level, maxStackTrace: u32, maxErrors: u32,
                      nameGranted: bool, errorsGranted: bool, stackGranted: bool) returns (r: int)
      requires StrLen(threadName) > 0
      requires errorCount == 0 && stackCount == 0 && stackCapacity == 0
      modifies this
      ensures r == 0 <==> nameGranted && errorsGranted && stackGranted
      ensures r != 0 ==> r == -1
      ensures r == 0 ==>
        && Ready() && fresh(thrdName) && fresh(errors) && fresh(stackTraces)
        && live == old(live) + {thrdName as object, errors, stackTraces}
        && ThreadName() == threadName[..StrLen(threadName)] && this.level == level
        && errorCapacity == maxErrors && stackCapacity == maxStackTrace
        && errorCount == 0 && stackCount == 0
        && hook == old(hook) && hookParam == old(hookParam)
      ensures r == -1 ==> live == old(live) && errorCount == 0 && stackCount == 0 && stackCapacity == 0
      ensures r == -1 ==> lenName == StrLen(threadName)
      ensures r == -1 && !nameGranted ==>
        thrdName == old(thrdName) && errorCapacity == old(errorCapacity) && errors == old(errors)
      ensures r == -1 && nameGranted ==> thrdName != null && thrdName !in live && this.level == level
      ensures r == -1 && nameGranted && !errorsGranted ==> errorCapacity == old(errorCapacity) && errors == null
      ensures r == -1 && nameGranted && errorsGranted ==>
        errorCapacity == maxErrors && errors != null && errors !in live
    {
      var n := StrLen(threadName);
      if !nameGranted {
        lenName := n;
        return -1;
      }
      var name := CopyName(threadName);
      if !errorsGranted {
        // The name copy goes back to the allocator: `live` is as before.
        lenName, thrdName, this.level, errors := n, name, level, null;
        return -1;
      }
      var slots := new Message?[maxErrors];
      if !stackGranted {
        // The slot array and the name copy go back to the allocator.
        lenName, thrdName, this.level, errors, errorCapacity, stackTraces :=
          n, name, level, slots, maxErrors, null;
        return -1;
      }
      var frames := new string[maxStackTrace];
      Install(threadName[..n], name, level, slots, frames);
      return 0;
    }

    /**
     * `jdm_cleanup_thread`: every entered frame must have been left; the name,
     * every stored message and both slot arrays go back to the allocator, and
     * the record is zeroed so that `InitThread` may run again.
     */
    method CleanupThread()
      requires Ready() && stackCount == 0
      modifies this
      ensures Zeroed()
      ensures live == old(Leaked())
    {
      ghost var name: object, slots: object, frames: object := thrdName, errors, stackTraces;
      ghost var s := Stored();
      NotMessages(thrdName, errors, stackTraces, s);
      Release(thrdName);
      ReleaseStored();
      Release(errors);
      Release(stackTraces);
      ReleaseOwned(old(live), name, slots, frames, Objects(s));
      Reset();
    }

    /** The `memset` that ends `jdm_cleanup_thread`: every field back to zero. */
    method Reset()
      modifies this
      ensures Zeroed() && live == old(live)
    {
      thrdName, lenName := null, 0;
      errorCount, errorCapacity, errors := 0, 0, null;
      stackCount, stackCapacity, stackTraces := 0, 0, null;
      level := Level.None;
      hook, hookParam := Wrappers.None, 0;
    }

    /** The loop of `jdm_cleanup_thread` that gives every stored message back to the allocator. */
    method ReleaseStored()
      requires errors != null && errorCount <= errors.Length
      requires forall k :: 0 <= k < errorCount ==> errors[k] in live
      requires forall k, l :: 0 <= k < l < errorCount ==> errors[k] != errors[l]
      modifies this`live
      ensures live == old(live) - Objects(errors[..errorCount])
    {
      ghost var s := errors[..errorCount];
      assert s[..0] == [] && Objects([]) == {};
      for i := 0 to errorCount
        invariant live == old(live) - Objects(s[..i])
      {
        assert s[..i + 1] == s[..i] + [errors[i]];
        assert errors[i] !in Objects(s[..i]);
        Release(errors[i]);
      }
      assert s[..errorCount] == s;
    }

    /** `jdm_get_stacktrace`: the frame slots and the current depth. */
    method GetStacktrace() returns (frames: array?<string>, count: u32)
      requires Valid()
      ensures count == |Frames()|
      ensures count > 0 ==> frames != null && count <= frames.Length && frames[..count] == Frames()
    {
      frames, count := stackTraces, stackCount;
    }

    /** `jdm_get_thread_name`: the owned, nul-terminated copy of the thread name. */
    method GetThreadName() returns (name: array?<char>)
      requires Valid()
      ensures Ready() ==> name != null && name in live && name[..] == ThreadName() + ['\0']
    {
      name := thrdName;
      if Ready() {
        assert name[..] == name[..lenName] + [name[lenName]];
      }
    }

    /**
     * `jdm_enter_function`: returns the depth before the call; below capacity
     * the name is recorded there, at capacity nothing changes and the
     * capacity itself comes back as the overflow token.
     */
    method EnterFunction(fnName: string) returns (id: u32)
      requires Valid()
      modifies this`stackCount, stackTraces
      ensures Valid()
      ensures id == old(stackCount)
      ensures old(stackCount) < stackCapacity ==> Frames() == old(Frames()) + [fnName]
      ensures old(stackCount) == stackCapacity ==> stackCount == old(stackCount) && Frames() == old(Frames())
      ensures Entries() == old(Entries())
    {
      id := stackCount;
      if stackCount < stackCapacity {
        stackTraces[stackCount] := fnName;
        stackCount := stackCount + 1;
      }
    }

    /**
     * `jdm_leave_function`: a token below capacity must be the depth just
     * under the top frame, which must record `fnName`; the frame is popped.
     * Any other token must be the overflow token of a full tracker, and
     * nothing changes.
     */
    method LeaveFunction(fnName: string, token: u32)
      requires Valid()
      requires token < stackCapacity ==> stackCount == token + 1 && Frames()[token] == fnName
      requires token >= stackCapacity ==> token == stackCapacity && stackCount == stackCapacity
      modifies this`stackCount
      ensures Valid()
      ensures token < stackCapacity ==> stackCount == token && Frames() == old(Frames())[..token]
      ensures token == stackCapacity ==> stackCount == old(stackCount)
    {
      if token < stackCapacity {
        stackCount := token;
      }
    }

    /**
     * `jdm_push_va`, with the message already formatted into `text`.
     * Below the minimum level, or with a full store, nothing happens.
     * Otherwise a record is allocated and offered to the hook; without a
     * hook, or on any non-zero answer, it is appended, else it is freed.
     */
    method PushVa(level: Level, line: u32, file: string, func: string, text: string)
      requires Valid()
      modifies this`errorCount, this`live, errors
      ensures Valid() && Frames() == old(Frames())
      ensures old(Admits(level)) && old(HookAccepts(HookCallFor(level, line, file, func, text))) ==>
        && errorCount == old(errorCount) + 1
        && Entries() == old(Entries()) + [Entry(level, line, file, func, text)]
        && Stored()[..old(errorCount)] == old(Stored())
        && fresh(Stored()[old(errorCount)])
        && live == old(live) + {Stored()[old(errorCount)]}
      ensures !(old(Admits(level)) && old(HookAccepts(HookCallFor(level, line, file, func, text)))) ==>
        errorCount == old(errorCount) && live == old(live) && (errors != null ==> unchanged(errors))
    {
      if level.Below(this.level) || errorCount == errorCapacity {
        return;
      }
      var message := new Message(level, line, file, func, text);
      Acquire(message);
      var putInStack := 1;
      if hook.Some? {
        putInStack := hook.value(HookCall(thrdName[..lenName], stackTraces[..stackCount],
                                          level, line, file, func, message.text, hookParam));
      }
      if putInStack != 0 {
        errors[errorCount] := message;
        errorCount := errorCount + 1;
        assert Stored() == old(Stored()) + [message];
        assert Objects(Stored()) == Objects(old(Stored())) + {message};
      } else {
        Release(message);
      }
    }

    /** `jdm_push`: the same filter, then `jdm_push_va`. */
    method Push(level: Level, line: u32, file: string, func: string, text: string)
      requires Valid()
      modifies this`errorCount, this`live, errors
      ensures Valid() && Frames() == old(Frames())
      ensures old(Admits(level)) && old(HookAccepts(HookCallFor(level, line, file, func, text))) ==>
        && errorCount == old(errorCount) + 1
        && Entries() == old(Entries()) + [Entry(level, line, file, func, text)]
        && Stored()[..old(errorCount)] == old(Stored())
        && fresh(Stored()[old(errorCount)])
        && live == old(live) + {Stored()[old(errorCount)]}
      ensures !(old(Admits(level)) && old(HookAccepts(HookCallFor(level, line, file, func, text)))) ==>
        errorCount == old(errorCount) && live == old(live) && (errors != null ==> unchanged(errors))
    {
      if level.Below(this.level) || errorCount == errorCapacity {
        return;
      }
      PushVa(level, line, file, func, text);
    }

    /**
     * The loop shared by `jdm_process` and `jdm_peek`: the messages newest
     * first, each reported with the store's size and its slot (`absolute`)
     * or its rank, until the callback answers negatively.
     */
    method Visit(fn: ReportFn, param: Param, absolute: bool) returns (calls: seq<Report>)
      requires Valid()
      ensures calls == Walk(Entries(), fn, param, absolute, 0)
    {
      ghost var store := Entries();
      calls := [];
      var i: u32 := 0;
      while i < errorCount
        invariant i <= errorCount
        invariant calls + Walk(store, fn, param, absolute, i) == Walk(store, fn, param, absolute, 0)
      {
        var msg := errors[errorCount - 1 - i];
        assert Ready() && msg == Stored()[errorCount - 1 - i];
        assert msg.AsEntry() == store[errorCount - 1 - i];
        var index := if absolute then errorCount - 1 - i else i;
        var r := Report(errorCount, index, msg.level, msg.line, msg.file, msg.func, msg.text, param);
        assert r == ReportOf(store, i, absolute, param);
        WalkStep(store, fn, param, absolute, i, calls);
        calls := calls + [r];
        if fn(r) < 0 {
          break;
        }
        i := i + 1;
      }
    }

    /**
     * The tail of `jdm_process`: the `count` newest messages go back to the
     * allocator, their slots are set to NULL, and the store is emptied.
     */
    method DropNewest(count: u32)
      requires Valid() && count <= errorCount
      modifies errors, this`live, this`errorCount
      ensures Valid() && errorCount == 0
      ensures old(Ready()) ==> Ready()
      ensures live == old(live) - Objects(old(Stored())[old(errorCount) - count..])
      ensures old(errorCount) > 0 ==>
        && errors != null
        && (forall k :: 0 <= k < old(errorCount) - count ==> errors[k] == old(errors[k]))
        && (forall k :: old(errorCount) - count <= k < old(errorCount) ==> errors[k] == null)
    {
      ghost var s := Stored();
      ghost var n: nat := errorCount;
      assert s[n..] == [] && Objects([]) == {};
      for j := 0 to count
        invariant errorCount == n
        invariant errors != null ==> forall k :: 0 <= k < errors.Length ==>
          errors[k] == if n - j <= k < n then null else old(errors[k])
        invariant live == old(live) - Objects(s[n - j..])
      {
        var msg := errors[errorCount - 1 - j];
        errors[errorCount - 1 - j] := null;
        ObjectsCons(msg, s[n - j..]);
        assert s[n - j - 1..] == [msg] + s[n - j..];
        Release(msg);
      }
      NotMessages(thrdName, errors, stackTraces, s[n - count..]);
      errorCount := 0;
    }

    /**
     * `jdm_process`: walks the messages newest first, passing the rank as
     * index, until the callback answers negatively. Only the messages
     * answered before the stop are freed (their slots set to NULL), yet the
     * store is emptied: the stopping message and all older ones leak.
     */
    method Process(fn: ReportFn, param: Param) returns (calls: seq<Report>)
      requires Valid()
      modifies this`errorCount, this`live, errors
      ensures Valid() && errorCount == 0
      ensures old(Ready()) ==> Ready()
      ensures calls == Walk(old(Entries()), fn, param, false, 0)
      ensures |calls| <= old(errorCount)
      ensures var n, f := old(errorCount), VisitedBeforeStop(calls, fn);
        && live == old(live) - Objects(old(Stored())[n - f..])
        && Objects(old(Stored())[..n - f]) <= live
    {
      calls := Visit(fn, param, false);
      WalkNewestFirst(Entries(), fn, param, false);
      var i := VisitedBeforeStop(calls, fn);
      ghost var s := Stored();
      assert Distinct(s) && Objects(s) <= live;
      ObjectsSplit(s, |s| - i);
      DropNewest(i);
    }

    /**
     * `jdm_peek`: the same newest-first walk, passing each message's slot as
     * index, and changing nothing.
     */
    method Peek(fn: ReportFn, param: Param) returns (calls: seq<Report>)
      requires Valid()
      ensures calls == Walk(Entries(), fn, param, true, 0)
    {
      calls := Visit(fn, param, true);
    }

    /** `jdm_set_hook`: replaces the hook and its parameter outright. */
    method SetHook(fn: Wrappers.Option<HookFn>, param: Param)
      requires Valid()
      modifies this`hook, this`hookParam
      ensures Valid() && hook == fn && hookParam == param
    {
      hook, hookParam := fn, param;
    }

    /** `jdm_set_message_level`: the minimum level of the next pushes. */
    method SetMessageLevel(level: Level)
      requires Valid()
      modifies this`level
      ensures Valid() && this.level == level
      ensures forall l :: Admits(l) <==> !l.Below(level) && errorCount != errorCapacity
    {
      this.level := level;
    }
  }
}
