/**
 The double-tab listing of TrieNode::find_common_prefix (src/completion.rs).

 When several names match and their common prefix adds nothing, a second
 ambiguous Tab within 500 ms is meant to print all matches. The source reads
 the "current time" as Instant::now().elapsed(), which is the time between
 two adjacent clock reads rather than the time of the press; the as-written
 model takes that measurement as a parameter, the corrected model takes the
 time of the press on a monotonic millisecond clock.
 */
module DoubleTab {
  import opened Wrappers

  const WindowMs: nat := 500
  const U64: nat := 0x1_0000_0000_0000_0000

  /** LAST_TAB_TIME and TAB_PRESSED; TAB_PRESSED is written but never read. */
  datatype TabState = TabState(lastTab: nat, tabPressed: bool)

  const Initial := TabState(0, false)

  /**
   The ambiguous branch as written: `measured` is the millisecond count of
   Instant::now().elapsed(), truncated to 64 bits; the subtraction wraps.
   Returns whether the matches are listed, and the next state.
   */
  function AmbiguousPressAsWritten(s: TabState, measured: nat): (r: (bool, TabState))
    ensures r.1.lastTab < U64 && r.1.lastTab == measured % U64
    ensures r.1.tabPressed <==> !r.0
    ensures s.lastTab < U64 ==>
              (r.0 <==> if measured % U64 >= s.lastTab then measured % U64 - s.lastTab < WindowMs
                        else measured % U64 + U64 - s.lastTab < WindowMs)
  {
    var now := measured % U64;
    var listed := (now - s.lastTab) % U64 < WindowMs;
    (listed, TabState(now, !listed))
  }

  /** The listing decisions of a run of ambiguous presses, as written. */
  function RunAsWritten(s: TabState, measured: seq<nat>): (listed: seq<bool>)
    ensures |listed| == |measured|
    decreases |measured|
  {
    if measured == [] then []
    else
      var (l, s') := AmbiguousPressAsWritten(s, measured[0]);
      [l] + RunAsWritten(s', measured[1..])
  }

  /**
   As written, whenever no millisecond passes between the two clock reads
   (the usual case), every ambiguous press lists the matches, the first one
   of the session included, however far apart the presses are.
   */
  lemma {:induction false} AsWrittenListsEveryPress(measured: seq<nat>, s: TabState)
    requires s.lastTab == 0
    requires forall k :: 0 <= k < |measured| ==> measured[k] == 0
    ensures forall k :: 0 <= k < |measured| ==> RunAsWritten(s, measured)[k]
    decreases |measured|
  {
    if measured != [] {
      var (l, s') := AmbiguousPressAsWritten(s, measured[0]);
      assert l && s'.lastTab == 0;
      AsWrittenListsEveryPress(measured[1..], s');
      var rest := RunAsWritten(s', measured[1..]);
      assert RunAsWritten(s, measured) == [l] + rest;
    }
  }

  /**
   The intended decision: list the matches exactly when the previous
   ambiguous press was less than 500 ms before this one; `last` is the time
   of the previous ambiguous press, if any.
   */
  function AmbiguousPress(last: Option<nat>, now: nat): (r: (bool, Option<nat>))
  {
    (last.Some? && now - last.value < WindowMs, Some(now))
  }

  function Run(last: Option<nat>, times: seq<nat>): (listed: seq<bool>)
    ensures |listed| == |times|
    decreases |times|
  {
    if times == [] then []
    else
      var (l, last') := AmbiguousPress(last, times[0]);
      [l] + Run(last', times[1..])
  }

  predicate NonDecreasing(times: seq<nat>) {
    forall j, k :: 0 <= j < k < |times| ==> times[j] <= times[k]
  }

  lemma {:induction false} RunFrom(last: Option<nat>, times: seq<nat>)
    requires NonDecreasing(times)
    requires last.Some? && times != [] ==> last.value <= times[0]
    ensures forall k :: 0 < k < |times| ==> (Run(last, times)[k] <==> times[k] - times[k - 1] < WindowMs)
    ensures times != [] ==> (Run(last, times)[0] <==> last.Some? && times[0] - last.value < WindowMs)
    decreases |times|
  {
    if times != [] {
      var (l, last') := AmbiguousPress(last, times[0]);
      var rest := Run(last', times[1..]);
      RunFrom(last', times[1..]);
      assert Run(last, times) == [l] + rest;
      forall k | 0 < k < |times| ensures (Run(last, times)[k] <==> times[k] - times[k - 1] < WindowMs) {
        assert Run(last, times)[k] == rest[k - 1];
        if k > 1 {
          assert times[1..][k - 1] == times[k] && times[1..][k - 2] == times[k - 1];
        }
      }
    }
  }

  /**
   With press times from a monotonic clock, the first ambiguous press of a
   session never lists, and a later one lists exactly when it follows the
   previous one by less than 500 ms.
   */
  lemma Session(times: seq<nat>)
    requires NonDecreasing(times)
    ensures |Run(None, times)| == |times|
    ensures times != [] ==> !Run(None, times)[0]
    ensures forall k :: 0 < k < |times| ==> (Run(None, times)[k] <==> times[k] - times[k - 1] < WindowMs)
  {
    RunFrom(None, times);
  }

  /** Two ambiguous presses ten seconds apart: the source lists both times, the intended behaviour neither. */
  lemma TenSecondsApart()
    ensures RunAsWritten(Initial, [0, 0]) == [true, true]
    ensures Run(None, [0, 10000]) == [false, false]
  {
    AsWrittenListsEveryPress([0, 0], Initial);
  }
}
