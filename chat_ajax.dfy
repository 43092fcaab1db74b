/**
  The request gating of the chat page: the in-flight counter `ajaxInflight`,
  the controls in `disableDuringAjax` that are disabled while it is positive,
  and the rule that decides, once a history request settles, that all older
  messages have been loaded.
*/
module ChatAjax {
  import opened Wrappers

  /** A control that can be disabled: the history-load toolbar, or any other form element. */
  datatype Control = LoadToolbar | Widget(id: nat)

  /** The counter together with the set of controls whose `disabled` flag is set. */
  datatype Gate = Gate(inflight: int, disabled: set<Control>)

  function Elements(list: seq<Control>): set<Control>
  {
    set c | c in list
  }

  /** `enableAjaxComponents(yes)`: clear or set the `disabled` flag of every listed control. */
  function SetEnabled(disabled: set<Control>, list: seq<Control>, yes: bool): (r: set<Control>)
    ensures yes ==> r !! Elements(list) && r + Elements(list) == disabled + Elements(list)
    ensures !yes ==> Elements(list) <= r && r - Elements(list) == disabled - Elements(list)
  {
    if yes then disabled - Elements(list) else disabled + Elements(list)
  }

  /** `ajaxStart()`: count one more request; the controls are disabled by the one that makes it 1. */
  function StartGate(g: Gate, list: seq<Control>): Gate
  {
    var k := g.inflight + 1;
    Gate(k, if k == 1 then SetEnabled(g.disabled, list, false) else g.disabled)
  }

  /** `ajaxEnd()`: count one request fewer; the controls are enabled by the one that makes it 0. */
  function EndGate(g: Gate, list: seq<Control>): Gate
  {
    var k := g.inflight - 1;
    Gate(k, if k == 0 then SetEnabled(g.disabled, list, true) else g.disabled)
  }

  /** Only the 0-to-1 step of `ajaxStart` and the 1-to-0 step of `ajaxEnd` touch the controls. */
  lemma GateTransitions(g: Gate, list: seq<Control>)
    ensures StartGate(g, list).inflight == g.inflight + 1
    ensures StartGate(g, list).disabled != g.disabled ==> g.inflight == 0
    ensures g.inflight == 0 ==> Elements(list) <= StartGate(g, list).disabled
    ensures EndGate(g, list).inflight == g.inflight - 1
    ensures EndGate(g, list).disabled != g.disabled ==> g.inflight == 1
    ensures g.inflight == 1 ==> EndGate(g, list).disabled !! Elements(list)
  {
  }

  /** A start followed by an end restores the counter; from 0 it leaves every listed control enabled. */
  lemma BalancedPair(g: Gate, list: seq<Control>)
    ensures EndGate(StartGate(g, list), list).inflight == g.inflight
    ensures g.inflight != 0 ==> EndGate(StartGate(g, list), list) == g
    ensures g.inflight == 0 ==> EndGate(StartGate(g, list), list).disabled == g.disabled - Elements(list)
  {
  }

  /** A run of calls: `true` for `ajaxStart`, `false` for `ajaxEnd`. */
  function RunGate(g: Gate, calls: seq<bool>, list: seq<Control>): Gate
    decreases |calls|
  {
    if calls == [] then g
    else RunGate(if calls[0] then StartGate(g, list) else EndGate(g, list), calls[1..], list)
  }

  /** Starts minus ends. */
  function Net(calls: seq<bool>): int
    decreases |calls|
  {
    if calls == [] then 0 else (if calls[0] then 1 else -1) + Net(calls[1..])
  }

  /** Every `ajaxEnd` of the run has an earlier `ajaxStart` to answer, counting from `k` open requests. */
  predicate NeverBelowZero(k: int, calls: seq<bool>)
    decreases |calls|
  {
    calls == [] || (var k' := if calls[0] then k + 1 else k - 1; k' >= 0 && NeverBelowZero(k', calls[1..]))
  }

  /** The controls are disabled exactly while a request is in flight. */
  ghost predicate Gated(g: Gate, list: seq<Control>) {
    g.inflight >= 0
    && (g.inflight > 0 ==> Elements(list) <= g.disabled)
    && (g.inflight == 0 ==> Elements(list) !! g.disabled)
  }

  /**
    Over any run in which every end answers a start, the counter moves by the
    net number of starts and the gating is kept.
  */
  lemma {:induction false} RunKeepsGating(g: Gate, calls: seq<bool>, list: seq<Control>)
    requires Gated(g, list) && NeverBelowZero(g.inflight, calls)
    ensures RunGate(g, calls, list).inflight == g.inflight + Net(calls)
    ensures Gated(RunGate(g, calls, list), list)
    decreases |calls|
  {
    if calls != [] {
      var h := if calls[0] then StartGate(g, list) else EndGate(g, list);
      assert Gated(h, list);
      RunKeepsGating(h, calls[1..], list);
    }
  }

  /**
    The first poll brackets its request with `ajaxStart`/`ajaxEnd`: whatever
    was disabled before (the toolbar starts disabled), the gating holds after.
  */
  lemma FirstRequestEstablishesGating(g: Gate, list: seq<Control>)
    requires g.inflight == 0
    ensures Gated(EndGate(StartGate(g, list), list), list)
  {
  }

  /** `list.indexOf(c)`: the first position holding `c`, or -1. */
  function IndexOf(list: seq<Control>, c: Control): (k: int)
    ensures -1 <= k < |list|
    ensures k >= 0 ==> list[k] == c && c !in list[..k]
    ensures k < 0 ==> c !in list
  {
    var k := IndexFrom(list, c, 0);
    assert k >= 0 ==> forall x :: x in list[..k] ==> x != c;
    k
  }

  /** The search `indexOf` makes, from position `i` on. */
  function IndexFrom(list: seq<Control>, c: Control, i: nat): (k: int)
    requires i <= |list|
    ensures -1 <= k < |list|
    ensures k >= 0 ==> i <= k && list[k] == c && forall j :: i <= j < k ==> list[j] != c
    ensures k < 0 ==> forall j :: i <= j < |list| ==> list[j] != c
    decreases |list| - i
  {
    if i == |list| then -1
    else if list[i] == c then i
    else IndexFrom(list, c, i + 1)
  }

  /** `if (ndx >= 0) list.splice(ndx, 1)` with `ndx = list.indexOf(c)`: drop the first `c`, if any. */
  function RemoveFirst(list: seq<Control>, c: Control): (r: seq<Control>)
    ensures |r| == if c in list then |list| - 1 else |list|
  {
    var k := IndexOf(list, c);
    if k >= 0 then list[..k] + list[k + 1..] else list
  }

  /** Exactly one occurrence of `c` goes, when there is one; every other control keeps its count. */
  lemma RemoveFirstCount(list: seq<Control>, c: Control)
    ensures multiset(RemoveFirst(list, c)) == multiset(list) - multiset{c}
  {
    var k := IndexOf(list, c);
    if k >= 0 {
      var a, b := list[..k], list[k + 1..];
      assert list == a + [c] + b;
      assert RemoveFirst(list, c) == a + b;
      assert multiset(list) == multiset(a) + multiset{c} + multiset(b);
    }
  }

  /** When `c` is listed at most once, removing its first occurrence unlists it and keeps every other control. */
  lemma RemoveFirstOnce(list: seq<Control>, c: Control)
    requires multiset(list)[c] <= 1
    ensures c !in RemoveFirst(list, c)
    ensures Elements(RemoveFirst(list, c)) == Elements(list) - {c}
  {
    var k := IndexOf(list, c);
    if k >= 0 {
      var a, b := list[..k], list[k + 1..];
      assert list == a + [c] + b;
      OnlyOccurrence(a, b, c);
      assert a + [c] + b == a + ([c] + b);
      ElementsWithout(a, b, c);
    }
  }

  /** A control counted at most once in `a + [c] + b` is not in `b`. */
  lemma OnlyOccurrence(a: seq<Control>, b: seq<Control>, c: Control)
    requires multiset(a + [c] + b)[c] <= 1
    ensures c !in b
  {
    assert multiset(a + [c] + b) == multiset(a) + multiset{c} + multiset(b);
  }

  /** Taking the only `c` out of `a + [c] + b` unlists `c` and keeps every other control. */
  lemma ElementsWithout(a: seq<Control>, b: seq<Control>, c: Control)
    requires c !in a && c !in b
    ensures c !in a + b
    ensures Elements(a + b) == Elements(a + ([c] + b)) - {c}
  {
    ElementsConcat(a, [c] + b);
    ElementsConcat([c], b);
    ElementsConcat(a, b);
    assert Elements([c]) == {c};
  }

  lemma ElementsConcat(a: seq<Control>, b: seq<Control>)
    ensures Elements(a + b) == Elements(a) + Elements(b)
  {
  }

  /**
    The `finally` rule of `loadOldMessages(n)`: whether history counts as fully
    loaded. `got` is the value of `gotMessages`: `None` while it still holds
    `false` (the request or its JSON failed), else the number of records that
    came back. `false < n` holds in JavaScript whenever `0 < n`.
  */
  function HistoryDone(n: int, got: Option<nat>, loadMessageCount: nat): (r: bool)
    ensures r <==> n < 0 || (n == 0 && got == Some(0)) || (n > 0 && (got.None? || got.value < n))
  {
    var gotAsNumber := if got.Some? then got.value else 0;
    || n < 0
    || got == Some(0)
    || (n > 0 && gotAsNumber < n)
    || (got.Some? && n < 0 && gotAsNumber < loadMessageCount)
  }
}
