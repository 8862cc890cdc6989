/**
 * Call sequences of the library's users, checked against the contracts of
 * `Jdm.ThreadState`: the bracket discipline of enter/leave, the order in
 * which pushed messages are reported, the severity filter and the hook
 * veto, and what an early stop of `jdm_process` leaves behind.
 */
module JdmClients {
  import Wrappers
  import opened Levels
  import opened Jdm

  /**
   * `jdm_enter_function` followed by the matching `jdm_leave_function`
   * leaves the depth and the recorded frames as they were, whether or not
   * the tracker was full.
   */
  method EnterThenLeave(st: ThreadState, fnName: string)
    requires st.Valid()
    modifies st`stackCount, st.stackTraces
    ensures st.Valid()
    ensures st.stackCount == old(st.stackCount) && st.Frames() == old(st.Frames())
    ensures st.Entries() == old(st.Entries())
  {
    var id := st.EnterFunction(fnName);
    st.LeaveFunction(fnName, id);
  }

  /**
   * Nested brackets: an inner enter/leave pair inside an outer one, below
   * capacity, records the inner frame one level deeper than the outer.
   */
  method NestedBrackets(st: ThreadState, outer: string, inner: string) returns (outerId: u32, innerId: u32)
    requires st.Valid() && st.stackCount + 2 <= st.stackCapacity
    modifies st`stackCount, st.stackTraces
    ensures st.Valid() && st.Frames() == old(st.Frames())
    ensures outerId == old(st.stackCount) && innerId == outerId + 1
  {
    outerId := st.EnterFunction(outer);
    innerId := st.EnterFunction(inner);
    assert st.Frames()[innerId] == inner;
    st.LeaveFunction(inner, innerId);
    assert st.Frames()[outerId] == outer;
    st.LeaveFunction(outer, outerId);
  }

  /** A callback that accepts every message. */
  function AcceptAll(r: Report): int {
    0
  }

  /**
   * Three messages pushed into an empty store come back from `jdm_peek`
   * newest first, each with its absolute slot as index.
   */
  method PeekNewestFirst(st: ThreadState, a: string, b: string, c: string) returns (calls: seq<Report>)
    requires st.Ready() && st.errorCount == 0 && 3 <= st.errorCapacity
    requires st.hook.None? && st.level == Level.None
    modifies st`errorCount, st`live, st.errors
    ensures |calls| == 3
    ensures calls[0].text == c && calls[1].text == b && calls[2].text == a
    ensures calls[0].index == 2 && calls[1].index == 1 && calls[2].index == 0
    ensures forall k :: 0 <= k < 3 ==> calls[k].total == 3
  {
    st.Push(Level.Err, 1, "main.c", "main", a);
    st.Push(Level.Err, 2, "main.c", "main", b);
    st.Push(Level.Err, 3, "main.c", "main", c);
    assert st.Entries() == [Entry(Level.Err, 1, "main.c", "main", a),
                            Entry(Level.Err, 2, "main.c", "main", b),
                            Entry(Level.Err, 3, "main.c", "main", c)];
    calls := st.Peek(AcceptAll, 0);
    WalkVisitsAll(st.Entries(), AcceptAll, 0, true);
    WalkNewestFirst(st.Entries(), AcceptAll, 0, true);
  }

  /** `jdm_peek` changes nothing, so two peeks in a row report the same calls. */
  method PeekTwice(st: ThreadState, fn: ReportFn, param: Param) returns (first: seq<Report>, second: seq<Report>)
    requires st.Valid()
    ensures first == second
  {
    first := st.Peek(fn, param);
    second := st.Peek(fn, param);
  }

  /**
   * With the minimum level at Warn and no hook, an Info message is dropped
   * and an Error message is stored.
   */
  method SeverityFilter(st: ThreadState)
    requires st.Ready() && st.errorCount + 1 < st.errorCapacity && st.hook.None?
    modifies st`level, st`errorCount, st`live, st.errors
    ensures st.Valid() && st.level == Level.Warn
    ensures st.Entries() == old(st.Entries()) + [Entry(Level.Err, 20, "io.c", "read", "disk")]
  {
    st.SetMessageLevel(Level.Warn);
    st.Push(Level.Info, 10, "io.c", "read", "retry");
    st.Push(Level.Err, 20, "io.c", "read", "disk");
  }

  /** A hook that vetoes every message. */
  function Veto(call: HookCall): int {
    0
  }

  /** A hook that answers negatively, which still stores the message. */
  function Negative(call: HookCall): int {
    -1
  }

  /**
   * A hook answering 0 suppresses the message; one answering -1 does not:
   * only zero vetoes.
   */
  method HookVeto(st: ThreadState)
    requires st.Ready() && st.errorCount + 1 < st.errorCapacity && st.level == Level.None
    modifies st`hook, st`hookParam, st`errorCount, st`live, st.errors
    ensures st.Valid()
    ensures st.Entries() == old(st.Entries()) + [Entry(Level.Debug, 2, "net.c", "send", "kept")]
  {
    st.SetHook(Wrappers.Some(Veto), 0);
    st.Push(Level.Debug, 1, "net.c", "send", "dropped");
    st.SetHook(Wrappers.Some(Negative), 0);
    st.Push(Level.Debug, 2, "net.c", "send", "kept");
  }

  /**
   * `jdm_push` leaks nothing: whether the message is stored or dropped, the
   * live blocks that the record does not reference stay the same.
   */
  method PushLeaksNothing(st: ThreadState, level: Level, line: u32, file: string, func: string, text: string)
    requires st.Ready()
    modifies st`errorCount, st`live, st.errors
    ensures st.Ready() && st.Leaked() == old(st.Leaked())
  {
    ghost var s := st.Stored();
    ghost var name: object, slots: object, frames: object := st.thrdName, st.errors, st.stackTraces;
    st.Push(level, line, file, func, text);
    if st.errorCount != |s| {
      AppendKeepsLeaks(old(st.live), {name, slots, frames}, s, st.Stored()[|s|]);
      assert st.Stored() == s + [st.Stored()[|s|]];
    }
  }

  /**
   * What `jdm_process` loses: the leaked blocks grow by exactly the messages
   * from the one that stopped the walk down to the oldest.
   */
  method ProcessLeaksOlder(st: ThreadState, fn: ReportFn, param: Param) returns (calls: seq<Report>)
    requires st.Ready()
    modifies st`errorCount, st`live, st.errors
    ensures st.Ready() && st.errorCount == 0 && |calls| <= old(st.errorCount)
    ensures var n, f := old(st.errorCount), VisitedBeforeStop(calls, fn);
      st.Leaked() == old(st.Leaked()) + Objects(old(st.Stored())[..n - f])
  {
    ghost var s := st.Stored();
    ghost var name: object, slots: object, frames: object := st.thrdName, st.errors, st.stackTraces;
    NotMessages(st.thrdName, st.errors, st.stackTraces, s);
    calls := st.Process(fn, param);
    ReleaseNewestLeaksOlder(old(st.live), {name, slots, frames}, s, |s| - VisitedBeforeStop(calls, fn));
    assert st.Stored() == [] && Objects([]) == {};
  }

  /** A callback that stops the walk at the message of rank 1. */
  function StopAtSecond(r: Report): int {
    if r.index == 1 then -1 else 0
  }

  /**
   * Five stored messages, and a `jdm_process` callback that refuses the
   * second one it sees: the store ends empty, yet only the newest message is
   * freed, and the four older ones stay allocated with nothing referring to
   * them.
   */
  method PartialDrain(st: ThreadState) returns (calls: seq<Report>)
    requires st.Ready() && st.errorCount == 5
    modifies st`errorCount, st`live, st.errors
    ensures st.Ready() && st.errorCount == 0
    ensures |calls| == 2 && calls[0].index == 0 && calls[1].index == 1
    ensures var s := old(st.Stored());
      && st.live == old(st.live) - {s[4]}
      && (forall k :: 0 <= k < 4 ==> s[k] in st.live)
  {
    ghost var s := st.Stored();
    calls := st.Process(StopAtSecond, 0);
    WalkNewestFirst(old(st.Entries()), StopAtSecond, 0, false);
    assert |calls| == 2;
    assert Objects(s[4..]) == {s[4]} by {
      assert s[4..] == [s[4]];
    }
    assert forall k :: 0 <= k < 4 ==> s[k] in s[..4];
  }

  /**
   * A thread's whole life: init with every allocation granted, then cleanup
   * with an empty store, gives every block back and leaves a record that
   * can be initialised again.
   */
  method Lifecycle(name: string, maxStackTrace: u32, maxErrors: u32) returns (st: ThreadState)
    requires StrLen(name) > 0
    ensures st.Zeroed() && st.live == {}
  {
    st := new ThreadState();
    var r := st.InitThread(name, Level.Info, maxStackTrace, maxErrors, true, true, true);
    assert st.Stored() == [] && Objects([]) == {};
    st.CleanupThread();
  }

  /**
   * An init whose last allocation is refused returns -1 with every block
   * already given back.
   */
  method InitRefused(name: string, maxStackTrace: u32, maxErrors: u32) returns (st: ThreadState, r: int)
    requires StrLen(name) > 0
    ensures r == -1 && st.live == {}
  {
    st := new ThreadState();
    r := st.InitThread(name, Level.Info, maxStackTrace, maxErrors, true, true, false);
  }

  /**
   * The name's length is its `strlen`: a name with a nul inside is copied
   * only up to that nul.
   */
  method NameUpToNul() returns (st: ThreadState, r: int)
    ensures r == 0 && st.Ready() && st.ThreadName() == "ab"
  {
    st := new ThreadState();
    r := st.InitThread("ab\0c", Level.Info, 4, 4, true, true, true);
  }
}
