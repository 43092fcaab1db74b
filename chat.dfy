/**
  The state the chat page's `Chat` object keeps between events, as a class:
  the message rows between the inject point and the load toolbar, the id
  bounds and counters, the page title, and the request gating. Each fetch
  reply becomes a parameter: `Some(records)` for a reply whose `msgs` were
  read, `None` for a request that failed.
*/
module Chat {
  import opened Wrappers
  import opened JsString
  import opened ChatAjax
  import opened ChatFeed

  /** The title shown while the page is hidden: "(N) " before the original title. */
  function HiddenTitle(n: nat, orig: string): (t: string)
    ensures |t| == |NatToString(n)| + 3 + |orig|
    ensures t[0] == '(' && t[1..1 + |NatToString(n)|] == NatToString(n)
    ensures t[1 + |NatToString(n)|..3 + |NatToString(n)|] == ") " && t[3 + |NatToString(n)|..] == orig
  {
    var c := NatToString(n);
    var t := "(" + c + ") " + orig;
    assert t[1..1 + |c|] == c;
    assert t[1 + |c|..3 + |c|] == ") ";
    assert t[3 + |c|..] == orig;
    t
  }

  /** `userMayDelete(row)`: the row's sender is the current user, or the user is an admin. */
  function UserMayDelete(me: string, isAdmin: bool, row: Row): bool
  {
    me == row.xfrom || isAdmin
  }

  /**
    A row made from a record may be deleted globally exactly when the record
    came from the current user or the user is an admin; a non-admin may not
    delete anyone else's row.
  */
  lemma MayDeletePostedRow(me: string, isAdmin: bool, m: Record)
    ensures UserMayDelete(me, isAdmin, RowOf(m)) <==> m.xfrom == me || isAdmin
    ensures !isAdmin && m.xfrom != me ==> !UserMayDelete(me, isAdmin, RowOf(m))
  {
  }

  /** `F.config.chatInitSize || 20`, as an absolute value: how many older messages one history load asks for. */
  function LoadCount(chatInitSize: int): (n: nat)
    ensures n > 0
  {
    if chatInitSize == 0 then 20 else if chatInitSize < 0 then -chatInitSize else chatInitSize
  }

  /** `gotMessages` once a history request has settled. */
  function Got(reply: Option<seq<Record>>): Option<nat> {
    if reply.Some? then Some(|reply.value|) else None
  }

  class ChatClient {
    const me: string
    const isAdmin: bool
    const pageTitleOrig: string
    const loadMessageCount: nat

    var rows: seq<Row>
    var mxMsg: int
    var mnMsg: Option<int>
    var totalMessageCount: nat
    var pageIsActive: bool
    var changesSincePageHidden: nat
    var pageTitle: string
    var ajaxInflight: int
    var disableDuringAjax: seq<Control>
    var disabled: set<Control>
    /** The load toolbar carries the 'all-done' class. */
    var allHistoryLoaded: bool

    function FeedOf(): Feed
      reads this
    {
      Feed(rows, mxMsg, mnMsg, totalMessageCount)
    }

    function GateOf(): Gate
      reads this
    {
      Gate(ajaxInflight, disabled)
    }

    /**
      The toolbar is listed for gating (once) until all history is loaded;
      from then on it is disabled and no longer listed.
    */
    ghost predicate Valid()
      reads this
    {
      && (LoadToolbar in disableDuringAjax <==> !allHistoryLoaded)
      && multiset(disableDuringAjax)[LoadToolbar] <= 1
      && (allHistoryLoaded ==> LoadToolbar in disabled)
    }

    /**
      The `Chat` object as the script sets it up, followed by the
      history-toolbar block: the toolbar is pushed onto `disableDuringAjax`
      and starts disabled.
    */
    constructor (user: string, admin: bool, chatInitSize: int, title: string, visible: bool)
      ensures Valid()
      ensures me == user && isAdmin == admin && pageTitleOrig == title && pageTitle == title
      ensures loadMessageCount == LoadCount(chatInitSize)
      ensures mxMsg == (if chatInitSize != 0 then -chatInitSize else -50)
      ensures rows == [] && mnMsg == None && totalMessageCount == 0 && changesSincePageHidden == 0
      ensures pageIsActive == visible
      ensures ajaxInflight == 0 && disableDuringAjax == [LoadToolbar] && disabled == {LoadToolbar}
      ensures !allHistoryLoaded
    {
      me, isAdmin, pageTitleOrig := user, admin, title;
      loadMessageCount := LoadCount(chatInitSize);
      mxMsg := if chatInitSize != 0 then -chatInitSize else -50;
      mnMsg := None;
      rows := [];
      totalMessageCount := 0;
      pageIsActive := visible;
      changesSincePageHidden := 0;
      pageTitle := title;
      ajaxInflight := 0;
      allHistoryLoaded := false;
      disableDuringAjax := [LoadToolbar];
      disabled := {LoadToolbar};
    }

    /** `enableAjaxComponents(yes)`. */
    method EnableAjaxComponents(yes: bool)
      modifies this`disabled
      ensures disabled == SetEnabled(old(disabled), disableDuringAjax, yes)
    {
      if yes {
        disabled := disabled - Elements(disableDuringAjax);
      } else {
        disabled := disabled + Elements(disableDuringAjax);
      }
    }

    /** `ajaxStart()`: the controls are disabled only when the counter goes from 0 to 1. */
    method AjaxStart()
      requires Valid()
      modifies this`ajaxInflight, this`disabled
      ensures Valid()
      ensures GateOf() == StartGate(old(GateOf()), disableDuringAjax)
    {
      ajaxInflight := ajaxInflight + 1;
      if ajaxInflight == 1 {
        EnableAjaxComponents(false);
      }
    }

    /** `ajaxEnd()`: the controls are enabled again only when the counter goes from 1 to 0. */
    method AjaxEnd()
      requires Valid()
      modifies this`ajaxInflight, this`disabled
      ensures Valid()
      ensures GateOf() == EndGate(old(GateOf()), disableDuringAjax)
    {
      ajaxInflight := ajaxInflight - 1;
      if ajaxInflight == 0 {
        EnableAjaxComponents(true);
      }
    }

    /** `injectMessageElem(row, atEnd)`. */
    method InjectMessageElem(row: Row, atEnd: bool)
      modifies this`rows
      ensures rows == Inject(old(rows), row, atEnd)
    {
      if atEnd {
        rows := rows + [row];
      } else {
        rows := [row] + rows;
      }
    }

    /**
      `deleteMessageElem(id)` with a message id: true exactly when a row with
      that id exists; the first such row is removed (unless `id` is 0) and
      every other row stays where it was.
    */
    method DeleteMessageElem(id: int) returns (found: bool)
      modifies this`rows
      ensures found == HasRowWithId(old(rows), id)
      ensures rows == DeleteById(old(rows), id)
    {
      var k := FindById(rows, id);
      if k >= 0 && id != 0 {
        rows := RemoveAt(rows, k);
      }
      found := k >= 0;
    }

    /**
      `deleteMessageElem(e)` with the row element at position `k`: its
      `data-msgid` text is never empty, so the row is removed, and the result
      is true. A position past the end stands for an element no longer in
      the list; the model leaves the rows unchanged then.
    */
    method DeleteRowElem(k: nat) returns (removed: bool)
      modifies this`rows
      ensures removed
      ensures k < |old(rows)| ==> rows == RemoveAt(old(rows), k)
      ensures |old(rows)| <= k ==> rows == old(rows)
    {
      if k < |rows| {
        rows := RemoveAt(rows, k);
      }
      removed := true;
    }

    /** `processPost(m, atEnd)`. */
    method ProcessPost(m: Record, atEnd: bool)
      modifies this`rows, this`mxMsg, this`mnMsg, this`totalMessageCount
      ensures FeedOf() == Post(old(FeedOf()), m, atEnd)
    {
      totalMessageCount := totalMessageCount + 1;
      if m.msgid > mxMsg {
        mxMsg := m.msgid;
      }
      if Falsy(mnMsg) || m.msgid < mnMsg.value {
        mnMsg := Some(m.msgid);
      }
      if IsDeletion(m) {
        var _ := DeleteMessageElem(m.mdel);
      } else {
        InjectMessageElem(RowOf(m), atEnd);
      }
    }

    /**
      `newcontent(jx, atEnd)`: every record of the reply in order, then the
      page-title bookkeeping. `visible` is `document.visibilityState` at that
      moment. While hidden, the counter grows by the number of records and
      the title shows it; once visible, a non-zero counter is reset and the
      original title restored.
    */
    method NewContent(msgs: seq<Record>, atEnd: bool, visible: bool)
      modifies this`rows, this`mxMsg, this`mnMsg, this`totalMessageCount
      modifies this`changesSincePageHidden, this`pageTitle
      ensures FeedOf() == PostAll(old(FeedOf()), msgs, atEnd)
      ensures visible ==> changesSincePageHidden == 0
      ensures visible ==> pageTitle == if old(changesSincePageHidden) != 0 then pageTitleOrig else old(pageTitle)
      ensures !visible ==> changesSincePageHidden == old(changesSincePageHidden) + |msgs|
      ensures !visible ==> pageTitle == HiddenTitle(changesSincePageHidden, pageTitleOrig)
    {
      ProcessAll(msgs, atEnd);
      if visible {
        if changesSincePageHidden != 0 {
          changesSincePageHidden := 0;
          pageTitle := pageTitleOrig;
        }
      } else {
        changesSincePageHidden := changesSincePageHidden + |msgs|;
        pageTitle := HiddenTitle(changesSincePageHidden, pageTitleOrig);
      }
    }

    /** `jx.msgs.forEach((m) => f.processPost(m, atEnd))`. */
    method ProcessAll(msgs: seq<Record>, atEnd: bool)
      modifies this`rows, this`mxMsg, this`mnMsg, this`totalMessageCount
      ensures FeedOf() == PostAll(old(FeedOf()), msgs, atEnd)
    {
      ghost var f0 := FeedOf();
      var i := 0;
      while i < |msgs|
        invariant 0 <= i <= |msgs|
        invariant FeedOf() == PostAll(f0, msgs[..i], atEnd)
      {
        PostAllStep(f0, msgs, atEnd, i);
        ProcessPost(msgs[i], atEnd);
        i := i + 1;
      }
      assert msgs[..i] == msgs;
    }

    /** The `visibilitychange` listener: the original title comes back when the page becomes visible. */
    method OnVisibilityChange(hidden: bool)
      modifies this`pageIsActive, this`pageTitle
      ensures pageIsActive == !hidden
      ensures pageTitle == if hidden then old(pageTitle) else pageTitleOrig
    {
      pageIsActive := !hidden;
      if pageIsActive {
        pageTitle := pageTitleOrig;
      }
    }

    /**
      `loadOldMessages(n)` with the reply to its request: `ajaxStart`, the
      reply's records at the end of the list, then the `finally` block.
    */
    method LoadOldMessages(n: int, reply: Option<seq<Record>>, visible: bool)
      requires Valid()
      modifies this`rows, this`mxMsg, this`mnMsg, this`totalMessageCount
      modifies this`changesSincePageHidden, this`pageTitle
      modifies this`allHistoryLoaded, this`disableDuringAjax, this`disabled, this`ajaxInflight
      ensures Valid()
      ensures FeedOf() == if reply.Some? then PostAll(old(FeedOf()), reply.value, true) else old(FeedOf())
      ensures allHistoryLoaded == (old(allHistoryLoaded) || HistoryDone(n, Got(reply), loadMessageCount))
      ensures disableDuringAjax ==
        if HistoryDone(n, Got(reply), loadMessageCount) then RemoveFirst(old(disableDuringAjax), LoadToolbar)
        else old(disableDuringAjax)
      ensures GateOf() ==
        EndGate(Gate(old(ajaxInflight) + 1,
                     StartGate(old(GateOf()), old(disableDuringAjax)).disabled
                     + if HistoryDone(n, Got(reply), loadMessageCount) then {LoadToolbar} else {}),
                disableDuringAjax)
      ensures ajaxInflight == old(ajaxInflight)
      ensures reply.None? ==> changesSincePageHidden == old(changesSincePageHidden) && pageTitle == old(pageTitle)
      ensures reply.Some? && visible ==>
        && changesSincePageHidden == 0
        && pageTitle == (if old(changesSincePageHidden) != 0 then pageTitleOrig else old(pageTitle))
      ensures reply.Some? && !visible ==>
        && changesSincePageHidden == old(changesSincePageHidden) + |reply.value|
        && pageTitle == HiddenTitle(changesSincePageHidden, pageTitleOrig)
    {
      AjaxStart();
      var gotMessages: Option<nat> := None;
      if reply.Some? {
        gotMessages := Some(|reply.value|);
        NewContent(reply.value, true, visible);
      }
      HistoryRequestSettled(n, gotMessages);
    }

    /**
      The `finally` block of `loadOldMessages(n)`, with `gotMessages` as it
      was left: if `HistoryDone` holds, the toolbar is marked done, dropped
      from `disableDuringAjax` and disabled for good; then `ajaxEnd`.
    */
    method HistoryRequestSettled(n: int, gotMessages: Option<nat>)
      requires Valid()
      modifies this`allHistoryLoaded, this`disableDuringAjax, this`disabled, this`ajaxInflight
      ensures Valid()
      ensures allHistoryLoaded == (old(allHistoryLoaded) || HistoryDone(n, gotMessages, loadMessageCount))
      ensures allHistoryLoaded ==> LoadToolbar !in disableDuringAjax && LoadToolbar in disabled
      ensures disableDuringAjax ==
        if HistoryDone(n, gotMessages, loadMessageCount) then RemoveFirst(old(disableDuringAjax), LoadToolbar)
        else old(disableDuringAjax)
      ensures GateOf() ==
        EndGate(Gate(old(ajaxInflight),
                     old(disabled) + if HistoryDone(n, gotMessages, loadMessageCount) then {LoadToolbar} else {}),
                disableDuringAjax)
    {
      if HistoryDone(n, gotMessages, loadMessageCount) {
        allHistoryLoaded := true;
        RemoveFirstOnce(disableDuringAjax, LoadToolbar);
        disableDuringAjax := RemoveFirst(disableDuringAjax, LoadToolbar);
        disabled := disabled + {LoadToolbar};
      }
      AjaxEnd();
    }

    /**
      One `poll(isFirstCall)` with the reply to its request: the records go
      at the top. Only the first poll brackets its request with
      `ajaxStart`/`ajaxEnd`.
    */
    method Poll(isFirstCall: bool, reply: Option<seq<Record>>, visible: bool)
      requires Valid()
      modifies this`rows, this`mxMsg, this`mnMsg, this`totalMessageCount
      modifies this`changesSincePageHidden, this`pageTitle
      modifies this`disabled, this`ajaxInflight
      ensures Valid()
      ensures FeedOf() == if reply.Some? then PostAll(old(FeedOf()), reply.value, false) else old(FeedOf())
      ensures GateOf() ==
        if isFirstCall then EndGate(StartGate(old(GateOf()), disableDuringAjax), disableDuringAjax)
        else old(GateOf())
      ensures reply.None? ==> changesSincePageHidden == old(changesSincePageHidden) && pageTitle == old(pageTitle)
      ensures reply.Some? && visible ==>
        && changesSincePageHidden == 0
        && pageTitle == (if old(changesSincePageHidden) != 0 then pageTitleOrig else old(pageTitle))
      ensures reply.Some? && !visible ==>
        && changesSincePageHidden == old(changesSincePageHidden) + |reply.value|
        && pageTitle == HiddenTitle(changesSincePageHidden, pageTitleOrig)
    {
      if isFirstCall {
        AjaxStart();
      }
      if reply.Some? {
        NewContent(reply.value, false, visible);
      }
      if isFirstCall {
        AjaxEnd();
      }
    }
  }

  /**
    The script's start: set up `Chat` and the history toolbar, then the first
    `poll(true)`. After it the toolbar is enabled and the controls are gated
    by the counter.
  */
  method StartChat(user: string, admin: bool, chatInitSize: int, title: string, visible: bool,
                   firstReply: Option<seq<Record>>)
    returns (c: ChatClient)
    ensures fresh(c) && c.Valid()
    ensures Gated(c.GateOf(), c.disableDuringAjax)
    ensures c.ajaxInflight == 0 && LoadToolbar !in c.disabled
    ensures firstReply.Some? ==>
      c.FeedOf() == PostAll(Feed([], if chatInitSize != 0 then -chatInitSize else -50, None, 0), firstReply.value, false)
  {
    c := new ChatClient(user, admin, chatInitSize, title, visible);
    FirstRequestEstablishesGating(c.GateOf(), c.disableDuringAjax);
    c.Poll(true, firstReply, visible);
  }
}
