/**
  What the chat page keeps of the messages it has been sent: the message rows
  in page order (newest at the top), the highest and lowest message ids seen
  (`mxMsg`, `mnMsg`) and the count of records processed. `Post` is
  `processPost` for one record of a `/chat-poll` reply; `PostAll` is the
  `forEach` of `newcontent` over a whole reply.
*/
module ChatFeed {
  import opened Wrappers
  import opened JsString
  import opened ChatFormat

  /** Hours and minutes of a record's time as the host `Date` gives them in local time (`None`: `Date` cannot parse it). */
  datatype LocalClock = LocalClock(hours: nat, minutes: nat)

  /**
    One record of a poll reply: `msgid`, sender `xfrom`, time `mtime`, and
    `mdel`, the id a deletion notice deletes (0 when the field is absent,
    both being falsy). File and body fields only feed the row's content,
    which is not modelled.
  */
  datatype Record = Record(msgid: int, xfrom: string, mtime: string, mdel: int, localTime: Option<LocalClock>)

  /** A `.message-row` element: its `data-msgid`, `data-xfrom`, `data-timestamp` and its legend text. */
  datatype Row = Row(msgid: int, xfrom: string, timestamp: string, legend: string)

  datatype Feed = Feed(rows: seq<Row>, mxMsg: int, mnMsg: Option<int>, total: nat)

  predicate IsDeletion(m: Record) {
    m.mdel != 0
  }

  predicate NoDeletions(msgs: seq<Record>) {
    forall i :: 0 <= i < |msgs| ==> !IsDeletion(msgs[i])
  }

  /** `!mnMsg`: unset, or 0. */
  predicate Falsy(mn: Option<int>) {
    mn.None? || mn.value == 0
  }

  /** The legend "who @ h:mm", or "who @ " and characters 11 to 15 of `mtime` when `Date` fails. */
  function Legend(m: Record): string {
    m.xfrom + " @ " +
      match m.localTime
      case Some(t) => NatToString(t.hours) + ":" + TwoDigitMinute(t.minutes)
      case None => Slice(m.mtime, 11, 16)
  }

  /** Without a local time, the legend shows the UTC hours and minutes `mtime` carries at characters 11 to 15. */
  lemma LegendUtc(m: Record)
    requires m.localTime.None? && |m.mtime| >= 16
    ensures Legend(m) == m.xfrom + " @ " + m.mtime[11..16]
  {
  }

  /** The `message-row` element `processPost` builds for a record: its data attributes and its legend. */
  function RowOf(m: Record): Row {
    Row(m.msgid, m.xfrom, m.mtime, Legend(m))
  }

  /** With a local time, the legend's minute is the two-digit minute `localTimeString` would print. */
  lemma LegendMinute(m: Record)
    requires m.localTime.Some? && m.localTime.value.minutes < 60
    ensures Legend(m) == m.xfrom + " @ " + NatToString(m.localTime.value.hours) + ":" + Pad(m.localTime.value.minutes)
  {
    TwoDigitMinuteIsPad(m.localTime.value.minutes);
  }

  /** `injectMessageElem(row, atEnd)`: just after the inject point (the top), or just before the load toolbar (the end). */
  function Inject(rows: seq<Row>, row: Row, atEnd: bool): (r: seq<Row>)
    ensures |r| == |rows| + 1
    ensures !atEnd ==> r[0] == row && r[1..] == rows
    ensures atEnd ==> r[|rows|] == row && r[..|rows|] == rows
  {
    if atEnd then rows + [row] else [row] + rows
  }

  /** Some row carries that message id. */
  predicate HasRowWithId(rows: seq<Row>, id: int) {
    exists k :: 0 <= k < |rows| && rows[k].msgid == id
  }

  /** `querySelector('[data-msgid="id"]')`: the first row in page order with that id, or -1. */
  function FindById(rows: seq<Row>, id: int): (k: int)
    ensures -1 <= k < |rows|
    ensures k >= 0 ==> rows[k].msgid == id && forall j :: 0 <= j < k ==> rows[j].msgid != id
    ensures k < 0 ==> forall j :: 0 <= j < |rows| ==> rows[j].msgid != id
    decreases |rows|
  {
    if rows == [] then -1
    else if rows[0].msgid == id then 0
    else
      var k := FindById(rows[1..], id);
      if k < 0 then -1 else k + 1
  }

  /** `k` is the first position of a row with that id. */
  predicate IsFirstWithId(rows: seq<Row>, k: int, id: int) {
    && 0 <= k < |rows| && rows[k].msgid == id
    && forall j :: 0 <= j < k ==> rows[j].msgid != id
  }

  /** The list without the row at `k`; the others keep their order. */
  function RemoveAt(rows: seq<Row>, k: nat): (r: seq<Row>)
    requires k < |rows|
    ensures |r| == |rows| - 1
    ensures forall j :: 0 <= j < k ==> r[j] == rows[j]
    ensures forall j :: k <= j < |r| ==> r[j] == rows[j + 1]
  {
    rows[..k] + rows[k + 1..]
  }

  /**
    `deleteMessageElem(id)` for a numeric id: the row found is removed when
    `e && id` holds, that is when one is found and `id` is not 0.
  */
  function DeleteById(rows: seq<Row>, id: int): seq<Row>
  {
    var k := FindById(rows, id);
    if k >= 0 && id != 0 then RemoveAt(rows, k) else rows
  }

  /**
    Deleting by id removes exactly the first row with that id, keeping the
    others in order; with no such row, or id 0, nothing changes.
  */
  lemma DeleteByIdSpec(rows: seq<Row>, id: int)
    ensures id == 0 || !HasRowWithId(rows, id) ==> DeleteById(rows, id) == rows
    ensures id != 0 && HasRowWithId(rows, id) ==>
      exists k :: IsFirstWithId(rows, k, id) && DeleteById(rows, id) == rows[..k] + rows[k + 1..]
  {
    var k := FindById(rows, id);
    if k >= 0 {
      assert IsFirstWithId(rows, k, id);
    }
  }

  /** `if (!mnMsg || id < mnMsg) mnMsg = id`. */
  function LowerMin(mn: Option<int>, id: int): Option<int>
  {
    if Falsy(mn) || id < mn.value then Some(id) else mn
  }

  /**
    `processPost(m, atEnd)`: count the record, raise `mxMsg`, lower `mnMsg`
    (or set it when falsy), then either apply the deletion notice or inject
    a new row.
  */
  function Post(f: Feed, m: Record, atEnd: bool): Feed
  {
    var mx := if m.msgid > f.mxMsg then m.msgid else f.mxMsg;
    var mn := LowerMin(f.mnMsg, m.msgid);
    var rows := if IsDeletion(m) then DeleteById(f.rows, m.mdel) else Inject(f.rows, RowOf(m), atEnd);
    Feed(rows, mx, mn, f.total + 1)
  }

  /** `jx.msgs.forEach(m => processPost(m, atEnd))`. */
  function PostAll(f: Feed, msgs: seq<Record>, atEnd: bool): Feed
    decreases |msgs|
  {
    if msgs == [] then f
    else Post(PostAll(f, msgs[..|msgs| - 1], atEnd), msgs[|msgs| - 1], atEnd)
  }

  /** Folding one more record of a batch is one more `Post`. */
  lemma PostAllStep(f: Feed, msgs: seq<Record>, atEnd: bool, i: nat)
    requires i < |msgs|
    ensures PostAll(f, msgs[..i + 1], atEnd) == Post(PostAll(f, msgs[..i], atEnd), msgs[i], atEnd)
  {
    assert msgs[..i + 1][..i] == msgs[..i];
  }

  /**
    One record: counted once; `mxMsg` becomes the larger of the two; `mnMsg`
    becomes the id when it was falsy or larger; a deletion notice removes the
    first row with that id (none when there is none, or the id is 0) and adds
    none, any other record adds its row at the top or at the end.
  */
  lemma PostRecord(f: Feed, m: Record, atEnd: bool)
    ensures var g := Post(f, m, atEnd);
      && g.total == f.total + 1
      && g.mxMsg >= f.mxMsg && g.mxMsg >= m.msgid && (g.mxMsg == f.mxMsg || g.mxMsg == m.msgid)
      && (!Falsy(f.mnMsg) ==> g.mnMsg == Some(if m.msgid < f.mnMsg.value then m.msgid else f.mnMsg.value))
      && (Falsy(f.mnMsg) ==> g.mnMsg == Some(m.msgid))
      && (IsDeletion(m) ==> |g.rows| <= |f.rows| && forall j :: 0 <= j < |g.rows| ==> g.rows[j] in f.rows)
      && (IsDeletion(m) && HasRowWithId(f.rows, m.mdel) ==>
            |g.rows| == |f.rows| - 1
            && exists k :: IsFirstWithId(f.rows, k, m.mdel) && g.rows == f.rows[..k] + f.rows[k + 1..])
      && (IsDeletion(m) && !HasRowWithId(f.rows, m.mdel) ==> g.rows == f.rows)
      && (!IsDeletion(m) ==> g.rows == Inject(f.rows, RowOf(m), atEnd))
  {
    var g := Post(f, m, atEnd);
    if IsDeletion(m) {
      DeleteByIdSpec(f.rows, m.mdel);
      var k := FindById(f.rows, m.mdel);
      if k >= 0 {
        forall j | 0 <= j < |g.rows| ensures g.rows[j] in f.rows {
          if j < k { assert g.rows[j] == f.rows[j]; } else { assert g.rows[j] == f.rows[j + 1]; }
        }
      }
    }
  }

  /** Every record of a batch, deletion notices included, adds exactly one to the count. */
  lemma {:induction false} PostAllCount(f: Feed, msgs: seq<Record>, atEnd: bool)
    ensures PostAll(f, msgs, atEnd).total == f.total + |msgs|
    decreases |msgs|
  {
    if msgs != [] {
      PostAllCount(f, msgs[..|msgs| - 1], atEnd);
    }
  }

  /** After a batch `mxMsg` is the largest of its old value and the batch's ids: it never decreases. */
  lemma {:induction false} PostAllMax(f: Feed, msgs: seq<Record>, atEnd: bool)
    ensures var mx := PostAll(f, msgs, atEnd).mxMsg;
      && mx >= f.mxMsg
      && (forall i :: 0 <= i < |msgs| ==> mx >= msgs[i].msgid)
      && (mx == f.mxMsg || exists i :: 0 <= i < |msgs| && mx == msgs[i].msgid)
    decreases |msgs|
  {
    if msgs != [] {
      var init := msgs[..|msgs| - 1];
      PostAllMax(f, init, atEnd);
      var mx0 := PostAll(f, init, atEnd).mxMsg;
      var mx := PostAll(f, msgs, atEnd).mxMsg;
      forall i | 0 <= i < |msgs| ensures mx >= msgs[i].msgid {
        if i < |msgs| - 1 { assert msgs[i] == init[i]; }
      }
      if mx != f.mxMsg {
        if mx == mx0 {
          var i :| 0 <= i < |init| && mx0 == init[i].msgid;
          assert msgs[i] == init[i];
        } else {
          assert mx == msgs[|msgs| - 1].msgid;
        }
      }
    }
  }

  /**
    For a batch of non-zero ids `mnMsg` ends at most every id of the batch
    and, once it held a non-zero value, at most that value: it never
    increases. (A record with id 0 makes `mnMsg` falsy again; see
    `ZeroIdResetsLowWaterMark`.)
  */
  lemma {:induction false} PostAllMin(f: Feed, msgs: seq<Record>, atEnd: bool)
    requires forall i :: 0 <= i < |msgs| ==> msgs[i].msgid != 0
    ensures var mn := PostAll(f, msgs, atEnd).mnMsg;
      && (msgs == [] ==> mn == f.mnMsg)
      && (msgs != [] ==>
            && mn.Some? && mn.value != 0
            && (forall i :: 0 <= i < |msgs| ==> mn.value <= msgs[i].msgid)
            && (!Falsy(f.mnMsg) ==> mn.value <= f.mnMsg.value)
            && (mn == f.mnMsg || exists i :: 0 <= i < |msgs| && mn.value == msgs[i].msgid))
  {
    PostAllMinIsFold(f, msgs, atEnd);
    FoldMinBounds(f.mnMsg, msgs);
  }

  /** The `mnMsg` rule applied over a batch, apart from the rows. */
  function FoldMin(mn: Option<int>, msgs: seq<Record>): Option<int>
    decreases |msgs|
  {
    if msgs == [] then mn else LowerMin(FoldMin(mn, msgs[..|msgs| - 1]), msgs[|msgs| - 1].msgid)
  }

  lemma {:induction false} PostAllMinIsFold(f: Feed, msgs: seq<Record>, atEnd: bool)
    ensures PostAll(f, msgs, atEnd).mnMsg == FoldMin(f.mnMsg, msgs)
    decreases |msgs|
  {
    if msgs != [] {
      PostAllMinIsFold(f, msgs[..|msgs| - 1], atEnd);
    }
  }

  lemma {:induction false} FoldMinBounds(mn0: Option<int>, msgs: seq<Record>)
    requires forall i :: 0 <= i < |msgs| ==> msgs[i].msgid != 0
    ensures var mn := FoldMin(mn0, msgs);
      && (msgs == [] ==> mn == mn0)
      && (msgs != [] ==>
            && mn.Some? && mn.value != 0
            && (forall i :: 0 <= i < |msgs| ==> mn.value <= msgs[i].msgid)
            && (!Falsy(mn0) ==> mn.value <= mn0.value)
            && (mn == mn0 || exists i :: 0 <= i < |msgs| && mn.value == msgs[i].msgid))
    decreases |msgs|
  {
    if msgs != [] {
      var init := msgs[..|msgs| - 1];
      var last := msgs[|msgs| - 1];
      assert forall i :: 0 <= i < |init| ==> init[i] == msgs[i];
      FoldMinBounds(mn0, init);
      var g := FoldMin(mn0, init);
      var mn := FoldMin(mn0, msgs);
      assert mn == LowerMin(g, last.msgid);
      forall i | 0 <= i < |init| ensures mn.value <= msgs[i].msgid {
        assert msgs[i] == init[i];
      }
      if mn == Some(last.msgid) {
        assert mn.value == msgs[|msgs| - 1].msgid;
      } else if init != [] && mn != mn0 {
        var i :| 0 <= i < |init| && g.value == init[i].msgid;
        assert msgs[i] == init[i];
      }
    }
  }

  /** With a 0 id in the batch the low-water mark can rise: 5, then ids 0 and 7, leaves 7. */
  lemma ZeroIdResetsLowWaterMark()
    ensures var f := Feed([], 0, Some(5), 0);
      PostAll(f, [Record(0, "a", "", 0, None), Record(7, "a", "", 0, None)], true).mnMsg == Some(7)
  {
    var f := Feed([], 0, Some(5), 0);
    var a, b := Record(0, "a", "", 0, None), Record(7, "a", "", 0, None);
    assert [a, b][..1] == [a];
    assert [a][..0] == [];
  }

  /** The rows of a batch in batch order. */
  function RowsOf(msgs: seq<Record>): (r: seq<Row>)
    ensures |r| == |msgs| && forall i :: 0 <= i < |msgs| ==> r[i] == RowOf(msgs[i])
  {
    seq(|msgs|, i requires 0 <= i < |msgs| => RowOf(msgs[i]))
  }

  function Reversed(s: seq<Row>): (r: seq<Row>)
    ensures |r| == |s|
    decreases |s|
  {
    if s == [] then [] else [s[|s| - 1]] + Reversed(s[..|s| - 1])
  }

  lemma {:induction false} ReversedAt(s: seq<Row>, k: nat)
    requires k < |s|
    ensures Reversed(s)[k] == s[|s| - 1 - k]
    decreases |s|
  {
    if k > 0 {
      ReversedAt(s[..|s| - 1], k - 1);
    }
  }

  /** A batch without deletion notices injected at the top ends up above the old rows in reverse order. */
  lemma {:induction false} PostAllAtTop(f: Feed, msgs: seq<Record>)
    requires NoDeletions(msgs)
    ensures PostAll(f, msgs, false).rows == Reversed(RowsOf(msgs)) + f.rows
    decreases |msgs|
  {
    if msgs != [] {
      var init := msgs[..|msgs| - 1];
      assert NoDeletions(init) by {
        assert forall i :: 0 <= i < |init| ==> init[i] == msgs[i];
      }
      PostAllAtTop(f, init);
      assert RowsOf(msgs)[..|msgs| - 1] == RowsOf(init);
    }
  }

  /** A batch without deletion notices loaded at the end follows the old rows in batch order. */
  lemma {:induction false} PostAllAtEnd(f: Feed, msgs: seq<Record>)
    requires NoDeletions(msgs)
    ensures PostAll(f, msgs, true).rows == f.rows + RowsOf(msgs)
    decreases |msgs|
  {
    if msgs != [] {
      var init := msgs[..|msgs| - 1];
      assert NoDeletions(init) by {
        assert forall i :: 0 <= i < |init| ==> init[i] == msgs[i];
      }
      PostAllAtEnd(f, init);
    }
  }

  /** In a batch injected at the top the last record's row comes first, and the old rows follow the batch. */
  lemma NewestFirst(f: Feed, msgs: seq<Record>)
    requires NoDeletions(msgs) && msgs != []
    ensures var rows := PostAll(f, msgs, false).rows;
      && |rows| == |msgs| + |f.rows|
      && rows[0] == RowOf(msgs[|msgs| - 1])
      && (forall i :: 0 <= i < |msgs| ==> rows[i] == RowOf(msgs[|msgs| - 1 - i]))
      && rows[|msgs|..] == f.rows
  {
    PostAllAtTop(f, msgs);
    var r := Reversed(RowsOf(msgs));
    var rows := PostAll(f, msgs, false).rows;
    assert rows == r + f.rows;
    forall i | 0 <= i < |msgs| ensures r[i] == RowOf(msgs[|msgs| - 1 - i]) {
      ReversedAt(RowsOf(msgs), i);
    }
    assert rows[|msgs|..] == f.rows;
  }
}
