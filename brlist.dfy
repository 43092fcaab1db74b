/**
  The multi-select helper of the branch list page. Each branch row has a
  checkbox; the selection lives in the timeline link's href, after
  `prefix`, as the selected tags joined with '|'. The link's label says how
  many branches are selected and the link gets the `selected` class from two
  selected branches on.
*/
module BranchList {
  import opened JsString

  /** What the load handler appends to the link's href to form `prefix`. */
  const TimelineQuery := "?ms=regexp&rel&t="

  /** A row's checkbox: the tag in the first child of its cell, and whether it is checked. */
  datatype Checkbox = Checkbox(tag: string, checked: bool)

  /** `re != "" ? re.split("|") : []`. */
  function ParseSelection(re: string): (tags: seq<string>)
    ensures re == "" <==> tags == []
    ensures forall i :: 0 <= i < |tags| ==> '|' !in tags[i]
  {
    if re == "" then [] else Split(re, '|')
  }

  /** No tag holds the separator '|'. */
  predicate NoSeparator(tags: seq<string>) {
    forall i :: 0 <= i < |tags| ==> '|' !in tags[i]
  }

  /**
    Tags the `|`-joined encoding can carry: none is empty, none holds '|'.
    The href here is the string assigned; a browser that percent-encodes
    characters of the query (spaces, quotes, '<', '>', non-ASCII) or cuts it
    at '#' reads back different text, so the round trip also needs tags the
    URL serialiser leaves unchanged.
  */
  predicate Encodable(tags: seq<string>) {
    NoSeparator(tags) && forall i :: 0 <= i < |tags| ==> tags[i] != ""
  }

  /** Parsing any suffix and joining the tags again gives the suffix back. */
  lemma JoinParseSelection(re: string)
    ensures Join(ParseSelection(re), '|') == re
  {
    if re != "" {
      JoinSplit(re, '|');
    }
  }

  /**
    Joining tags without '|' and parsing the result gives the same tags
    back, except for a selection that is one empty tag, which reads back
    as no selection.
  */
  lemma ParseJoinSelection(tags: seq<string>)
    requires NoSeparator(tags)
    ensures ParseSelection(Join(tags, '|')) == tags <==> tags != [""]
  {
    if |tags| >= 2 {
      JoinStartsWithFirst(tags, '|');
      assert Join(tags, '|')[|tags[0]|] == '|';
      SplitJoin(tags, '|');
    } else if |tags| == 1 && tags[0] != "" {
      SplitJoin(tags, '|');
    }
  }

  /** The selection with every occurrence of `t` taken out, the rest in order. */
  function RemoveAll(s: seq<string>, t: string): seq<string>
    decreases |s|
  {
    if s == [] then [] else (if s[0] == t then [] else [s[0]]) + RemoveAll(s[1..], t)
  }

  /** `a` is `b` with some elements left out, the rest in order. */
  predicate IsSubsequence(a: seq<string>, b: seq<string>)
    decreases |b|
  {
    if a == [] then true
    else if b == [] then false
    else if a[0] == b[0] then IsSubsequence(a[1..], b[1..])
    else IsSubsequence(a, b[1..])
  }

  /** Removing a tag leaves it absent and keeps every other tag as often as before. */
  lemma {:induction false} RemoveAllCount(s: seq<string>, t: string)
    ensures t !in RemoveAll(s, t)
    ensures multiset(RemoveAll(s, t)) == multiset(s)[t := 0]
    decreases |s|
  {
    if s != [] {
      RemoveAllCount(s[1..], t);
      assert s == [s[0]] + s[1..];
      assert multiset(s) == multiset{s[0]} + multiset(s[1..]);
    }
  }

  /** Removing a tag keeps the remaining tags in their order. */
  lemma {:induction false} RemoveAllOrder(s: seq<string>, t: string)
    ensures IsSubsequence(RemoveAll(s, t), s)
    decreases |s|
  {
    if s != [] {
      RemoveAllOrder(s[1..], t);
      var r := RemoveAll(s[1..], t);
      if s[0] != t {
        assert RemoveAll(s, t) == [s[0]] + r;
        assert ([s[0]] + r)[1..] == r;
      } else {
        assert RemoveAll(s, t) == r;
        SkipHead(r, s);
      }
    }
  }

  /** A subsequence of the tail is a subsequence of the whole. */
  lemma {:induction false} SkipHead(a: seq<string>, b: seq<string>)
    requires b != [] && IsSubsequence(a, b[1..])
    ensures IsSubsequence(a, b)
    decreases |a| + |b|
  {
    if a != [] && a[0] == b[0] {
      DropHead(a, b[1..]);
    }
  }

  /** Leaving out the first element of a subsequence keeps it a subsequence. */
  lemma {:induction false} DropHead(a: seq<string>, c: seq<string>)
    requires a != [] && IsSubsequence(a, c)
    ensures IsSubsequence(a[1..], c)
    decreases |a| + |c|
  {
    if a[0] == c[0] {
      SkipHead(a[1..], c);
    } else {
      DropHead(a, c[1..]);
      SkipHead(a[1..], c);
    }
  }

  /** The selection after a change: checked appends the tag, unchecked removes all its occurrences. */
  function NextSelection(sel: seq<string>, tag: string, checked: bool): seq<string>
  {
    if checked then sel + [tag] else RemoveAll(sel, tag)
  }

  lemma {:induction false} RemoveAllEncodable(s: seq<string>, t: string)
    requires Encodable(s)
    ensures Encodable(RemoveAll(s, t))
    decreases |s|
  {
    if s != [] {
      RemoveAllEncodable(s[1..], t);
      var r := RemoveAll(s[1..], t);
      assert RemoveAll(s, t) == (if s[0] == t then [] else [s[0]]) + r;
    }
  }

  /** Removing a tag the selection does not hold changes nothing. */
  lemma {:induction false} RemoveAllAbsent(s: seq<string>, t: string)
    requires t !in s
    ensures RemoveAll(s, t) == s
    decreases |s|
  {
    if s != [] {
      RemoveAllAbsent(s[1..], t);
      assert s == [s[0]] + s[1..];
    }
  }

  /** Checking a box and unchecking it again leaves the selection without that tag. */
  lemma {:induction false} CheckThenUncheck(sel: seq<string>, tag: string)
    ensures NextSelection(NextSelection(sel, tag, true), tag, false) == RemoveAll(sel, tag)
    ensures tag !in sel ==> NextSelection(NextSelection(sel, tag, true), tag, false) == sel
    decreases |sel|
  {
    if sel == [] {
      assert RemoveAll([tag], tag) == [] + RemoveAll([tag][1..], tag);
    } else {
      CheckThenUncheck(sel[1..], tag);
      assert (sel + [tag])[1..] == sel[1..] + [tag];
      assert (sel + [tag])[0] == sel[0];
    }
    if tag !in sel {
      RemoveAllAbsent(sel, tag);
    }
  }

  /**
    `for (var i = selected.length; --i >= 0;) if (selected[i] == tag) selected.splice(i, 1)`:
    from the back, every position holding the tag is spliced out.
  */
  method SpliceOut(selection: seq<string>, tag: string) returns (selected: seq<string>)
    ensures selected == RemoveAll(selection, tag)
  {
    selected := selection;
    var j := |selected|;
    while j > 0
      invariant 0 <= j <= |selection|
      invariant selected == selection[..j] + RemoveAll(selection[j..], tag)
    {
      j := j - 1;
      assert selection[j..] == [selection[j]] + selection[j + 1..];
      assert selection[..j + 1] == selection[..j] + [selection[j]];
      if selected[j] == tag {
        selected := selected[..j] + selected[j + 1..];
      }
    }
    assert selection[0..] == selection;
  }

  /** The link label: "View N branches". */
  function Label(n: nat): (l: string)
    ensures |l| == |NatToString(n)| + 14
    ensures l[..5] == "View " && l[|l| - 9..] == " branches"
    ensures l[5..|l| - 9] == NatToString(n)
  {
    var l := "View " + NatToString(n) + " branches";
    assert l[5..|l| - 9] == NatToString(n);
    l
  }

  /** The tags of the checked boxes, in page order. */
  function CheckedTags(boxes: seq<Checkbox>): (tags: seq<string>)
    ensures |tags| <= |boxes|
    decreases |boxes|
  {
    if boxes == [] then []
    else
      var init := CheckedTags(boxes[..|boxes| - 1]);
      var b := boxes[|boxes| - 1];
      if b.checked then init + [b.tag] else init
  }

  /** Which boxes are checked is what `CheckedTags` counts. */
  lemma {:induction false} CheckedTagsCount(boxes: seq<Checkbox>)
    ensures |CheckedTags(boxes)| == |set i | 0 <= i < |boxes| && boxes[i].checked|
    decreases |boxes|
  {
    if boxes != [] {
      var n := |boxes| - 1;
      CheckedTagsCount(boxes[..n]);
      var before := set i | 0 <= i < n && boxes[..n][i].checked;
      var all := set i | 0 <= i < |boxes| && boxes[i].checked;
      assert before == set i | 0 <= i < n && boxes[i].checked;
      if boxes[n].checked {
        assert all == before + {n};
      } else {
        assert all == before;
      }
    }
  }

  class BranchListPage {
    /** The rows' checkboxes as the page was served. */
    const boxes: seq<Checkbox>
    /** The submenu "Timeline" link was found. */
    const anchorFound: bool

    /** Set once the load handler has run and installed `onChange`. */
    var active: bool
    var prefix: string
    var href: string
    /** The link's text (`innerText`, rewritten through `innerHTML`). */
    var linkText: string
    var timelineLinkClass: bool
    var anchorSelected: bool
    /** The `selected` class of each box's table row. */
    var rowSelected: seq<bool>
    var boxEnabled: seq<bool>

    ghost predicate Valid()
      reads this
    {
      |rowSelected| == |boxes| && |boxEnabled| == |boxes|
    }

    /** The selection the link's href encodes. */
    function Selection(): seq<string>
      reads this
    {
      ParseSelection(Substr(href, |prefix|))
    }

    /** The page before its `load` event: no row selected, boxes disabled. */
    constructor (found: bool, text: string, baseHref: string, served: seq<Checkbox>)
      ensures Valid() && !active
      ensures boxes == served && anchorFound == found && linkText == text && href == baseHref
      ensures prefix == "" && !timelineLinkClass && !anchorSelected
      ensures forall i :: 0 <= i < |boxes| ==> !rowSelected[i] && !boxEnabled[i]
    {
      boxes, anchorFound := served, found;
      active, prefix, href, linkText := false, "", baseHref, text;
      timelineLinkClass, anchorSelected := false, false;
      rowSelected := seq(|served|, _ => false);
      boxEnabled := seq(|served|, _ => false);
    }

    /**
      The `load` handler. When the link is missing or its text is not
      "Timeline", nothing changes. Otherwise `prefix` is fixed, every box is
      enabled and gets `onChange`, the rows of checked boxes are marked, and
      the pre-checked tags are encoded: the href when at least one box is
      checked, the label and the `selected` class only from two on.
    */
    method OnLoad()
      requires Valid() && !active
      modifies this`active, this`prefix, this`href, this`linkText, this`timelineLinkClass
      modifies this`anchorSelected, this`rowSelected, this`boxEnabled
      ensures Valid()
      ensures !anchorFound || old(linkText) != "Timeline" ==>
        unchanged(this`active, this`prefix, this`href, this`linkText, this`timelineLinkClass)
        && unchanged(this`anchorSelected, this`rowSelected, this`boxEnabled)
      ensures anchorFound && old(linkText) == "Timeline" ==>
        && active && timelineLinkClass
        && prefix == old(href) + TimelineQuery
        && href == (if |CheckedTags(boxes)| != 0 then prefix + Join(CheckedTags(boxes), '|') else old(href))
        && linkText == (if |CheckedTags(boxes)| >= 2 then Label(|CheckedTags(boxes)|) else old(linkText))
        && anchorSelected == (|CheckedTags(boxes)| >= 2 || old(anchorSelected))
        && (forall i :: 0 <= i < |boxes| ==> boxEnabled[i])
        && (forall i :: 0 <= i < |boxes| ==> rowSelected[i] == (old(rowSelected)[i] || boxes[i].checked))
    {
      if !anchorFound || linkText != "Timeline" {
        return;
      }
      prefix := href + TimelineQuery;
      timelineLinkClass := true;
      active := true;
      var stags := WireBoxes();
      if |stags| != 0 {
        href := prefix + Join(stags, '|');
        if |stags| >= 2 {
          linkText := Label(|stags|);
          anchorSelected := true;
        }
      }
    }

    /**
      The `forEach` over the boxes: each is enabled and gets `onChange`; a
      checked box's tag is collected and its row marked.
    */
    method WireBoxes() returns (stags: seq<string>)
      requires Valid()
      modifies this`rowSelected, this`boxEnabled
      ensures Valid() && stags == CheckedTags(boxes)
      ensures forall j :: 0 <= j < |boxes| ==> boxEnabled[j]
      ensures forall j :: 0 <= j < |boxes| ==> rowSelected[j] == (old(rowSelected)[j] || boxes[j].checked)
    {
      stags := [];
      var i := 0;
      while i < |boxes|
        invariant 0 <= i <= |boxes| && Valid()
        invariant stags == CheckedTags(boxes[..i])
        invariant forall j :: 0 <= j < |boxes| ==> boxEnabled[j] == (j < i || old(boxEnabled)[j])
        invariant forall j :: 0 <= j < |boxes| ==> rowSelected[j] == (old(rowSelected)[j] || (j < i && boxes[j].checked))
      {
        assert boxes[..i + 1][..i] == boxes[..i];
        boxEnabled := boxEnabled[i := true];
        if boxes[i].checked {
          stags := stags + [boxes[i].tag];
          rowSelected := rowSelected[i := true];
        }
        i := i + 1;
      }
      assert boxes[..i] == boxes;
    }

    /**
      `onChange` for box `i`, `checked` being the state the click left it
      in: read the selection back from the href, append the tag or remove
      every occurrence of it, mark the row, then rewrite the `selected`
      class, the href and the label from the new selection.
    */
    method OnChange(i: nat, checked: bool)
      requires Valid() && active && i < |boxes|
      modifies this`href, this`linkText, this`anchorSelected, this`rowSelected
      ensures Valid()
      ensures var next := NextSelection(old(Selection()), boxes[i].tag, checked);
        && href == prefix + Join(next, '|')
        && linkText == Label(|next|)
        && anchorSelected == (|next| >= 2)
      ensures rowSelected == old(rowSelected)[i := checked]
    {
      var tag := boxes[i].tag;
      var re := Substr(href, |prefix|);
      var selected := ParseSelection(re);
      if checked {
        selected := selected + [tag];
        rowSelected := rowSelected[i := true];
      } else {
        rowSelected := rowSelected[i := false];
        selected := SpliceOut(selected, tag);
      }
      anchorSelected := |selected| >= 2;
      href := prefix + Join(selected, '|');
      linkText := Label(|selected|);
    }
  }

  /**
    When the tags are encodable, and the href reads back as the string
    assigned, the selection `onChange` writes is the one it reads back at the
    next change: the previous selection with the tag
    appended, or with every occurrence of it removed.
  */
  lemma SelectionReadsBack(prefix: string, sel: seq<string>, tag: string, checked: bool)
    requires Encodable(sel) && Encodable([tag])
    ensures var next := NextSelection(sel, tag, checked);
      ParseSelection(Substr(prefix + Join(next, '|'), |prefix|)) == next
  {
    var next := NextSelection(sel, tag, checked);
    if checked {
      assert Encodable(next) by {
        forall k | 0 <= k < |next| ensures next[k] != "" && '|' !in next[k] {
          if k < |sel| { assert next[k] == sel[k]; } else { assert next[k] == tag; }
        }
      }
    } else {
      RemoveAllEncodable(sel, tag);
    }
    assert Substr(prefix + Join(next, '|'), |prefix|) == Join(next, '|');
    ParseJoinSelection(next);
  }

  /** Before any box was changed the href is the bare link, and the selection reads as empty. */
  lemma BareLinkSelectsNothing(baseHref: string)
    ensures ParseSelection(Substr(baseHref, |baseHref + TimelineQuery|)) == []
  {
  }
}
