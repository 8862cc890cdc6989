/**
 * Message severities (`jdm_message_level`) and their display names
 * (`jdm_message_level_str`). The ordering and the codes are the ones
 * source/jdm.c relies on: None = 0 < Debug < Trace < Info < Warn < Err
 * < Crit < Fatal = 7.
 */
module Levels {
  import Wrappers

  datatype Level = None | Debug | Trace | Info | Warn | Err | Crit | Fatal
  {
    /** The enumerator's integer value. */
    function Code(): (c: nat)
      ensures c < |Names|
    {
      match this
      case None => 0
      case Debug => 1
      case Trace => 2
      case Info => 3
      case Warn => 4
      case Err => 5
      case Crit => 6
      case Fatal => 7
    }

    /** The C comparison `level < other` on the enumerators. */
    predicate Below(other: Level) {
      Code() < other.Code()
    }
  }

  /** The table `NAMES` of `jdm_message_level_str`, indexed by code. */
  const Names: seq<string> :=
    ["None", "Debug", "Trace", "Info", "Warn", "Error", "Critical", "Fatal"]

  /** The level whose enumerator value is `code`, if there is one. */
  function FromCode(code: int): (r: Wrappers.Option<Level>)
    ensures r.Some? <==> 0 <= code < |Names|
    ensures r.Some? ==> r.value.Code() == code
  {
    if code == 0 then Wrappers.Some(None)
    else if code == 1 then Wrappers.Some(Debug)
    else if code == 2 then Wrappers.Some(Trace)
    else if code == 3 then Wrappers.Some(Info)
    else if code == 4 then Wrappers.Some(Warn)
    else if code == 5 then Wrappers.Some(Err)
    else if code == 6 then Wrappers.Some(Crit)
    else if code == 7 then Wrappers.Some(Fatal)
    else Wrappers.None
  }

  /**
   * `jdm_message_level_str`: the display name of the enumerator value
   * `code`, or NULL (None) when `code` lies outside None..Fatal.
   */
  function MessageLevelStr(code: int): (r: Wrappers.Option<string>)
    ensures r.Some? <==> FromCode(code).Some?
  {
    if 0 <= code < |Names| then Wrappers.Some(Names[code]) else Wrappers.None
  }

  /** Every level has a name, and the lookup inverts `FromCode`. */
  lemma LevelHasName(l: Level)
    ensures MessageLevelStr(l.Code()).Some?
    ensures FromCode(l.Code()) == Wrappers.Some(l)
  {
    match l
    case None =>
    case Debug =>
    case Trace =>
    case Info =>
    case Warn =>
    case Err =>
    case Crit =>
    case Fatal =>
  }

  /** `Below` is a strict total order on levels, the one the filter uses. */
  lemma BelowIsStrictTotalOrder(a: Level, b: Level, c: Level)
    ensures !a.Below(a)
    ensures a.Below(b) && b.Below(c) ==> a.Below(c)
    ensures a != b ==> a.Below(b) || b.Below(a)
  {
    LevelHasName(a);
    LevelHasName(b);
  }

  /** Distinct levels have distinct names: a name identifies its level. */
  lemma MessageLevelStrInjective(a: int, b: int)
    requires MessageLevelStr(a).Some? && MessageLevelStr(a) == MessageLevelStr(b)
    ensures a == b
  {
    assert 0 <= a < |Names| && 0 <= b < |Names|;
    assert Names[a] == Names[b];
    assert forall i, j :: 0 <= i < j < |Names| ==> Names[i] != Names[j] by {
      forall i, j | 0 <= i < j < |Names|
        ensures Names[i] != Names[j]
      {
        assert Names[i][0] != Names[j][0];
      }
    }
  }
}
