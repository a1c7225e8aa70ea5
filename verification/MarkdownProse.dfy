/** Which lines of a Markdown source are prose: outside code blocks and not wholly inside HTML comments. */
module MarkdownProse {

  import opened Ordering
  import opened Options
  import opened Text

  /** Absolute offsets of one comment, or columns of one line; the end is exclusive. */
  datatype Span = Span(start: nat, end: nat)

  predicate Holds(s: Span, at: int) {
    s.start <= at < s.end
  }

  ghost predicate Covered(spans: seq<Span>, at: int) {
    exists s :: s in spans && Holds(s, at)
  }

  // ----- comments inside one HTML node -----

  predicate Starts(value: string, what: string, at: int) {
    0 <= at <= |value| - |what| && value[at..at + |what|] == what
  }

  function IndexOfText(s: string, what: string, from: nat): (r: int)
    ensures r == -1 || (r >= from && Starts(s, what, r) && forall k :: from <= k < r ==> !Starts(s, what, k))
    ensures r == -1 ==> forall k :: k >= from ==> !Starts(s, what, k)
    decreases |s| - from
  {
    if from + |what| > |s| then -1
    else if Starts(s, what, from) then from
    else IndexOfText(s, what, from + 1)
  }

  /** One comment: from its opening marker to just past the first closing marker after it, or to the end. */
  ghost predicate IsComment(value: string, s: Span) {
    && Starts(value, "<!--", s.start)
    && s.start + 4 <= s.end <= |value|
    && (s.end == |value| || Starts(value, "-->", s.end - 3))
    && (forall k :: s.start + 4 <= k < s.end - 3 ==> !Starts(value, "-->", k))
    && (s.end == |value| || s.end >= s.start + 7)
  }

  /** The comments read so far: in order, apart, and with no opening marker between them. */
  ghost predicate CommentsUpTo(value: string, spans: seq<Span>, cursor: nat) {
    && cursor <= |value|
    && (forall s :: s in spans ==> IsComment(value, s) && s.end <= cursor)
    && (forall i, j :: 0 <= i < j < |spans| ==> spans[i].end <= spans[j].start)
    && (forall k :: Starts(value, "<!--", k) && k < cursor ==> Covered(spans, k))
  }

  /** The comments from `cursor` on. */
  function CommentSpans(value: string, cursor: nat): seq<Span>
    decreases |value| - cursor
  {
    var start := IndexOfText(value, "<!--", cursor);
    if start < 0 then []
    else [Span(start, CommentEnd(value, start))] + CommentSpans(value, CommentEnd(value, start))
  }

  /** Where the comment that opens at `start` ends. */
  function CommentEnd(value: string, start: nat): (end: nat)
    requires start + 4 <= |value|
    ensures start < end <= |value|
  {
    var close := IndexOfText(value, "-->", start + 4);
    if close < 0 then |value| else close + 3
  }

  lemma ReadComment(value: string, start: nat)
    requires Starts(value, "<!--", start)
    ensures IsComment(value, Span(start, CommentEnd(value, start)))
  {
  }

  lemma AddComment(value: string, spans: seq<Span>, cursor: nat, start: nat, end: nat)
    requires CommentsUpTo(value, spans, cursor) && cursor <= start < end <= |value|
        && IsComment(value, Span(start, end))
    requires forall k :: cursor <= k < start ==> !Starts(value, "<!--", k)
    ensures CommentsUpTo(value, spans + [Span(start, end)], end)
  {
    hide IsComment, Starts;
    var more := spans + [Span(start, end)];
    assert more[|spans|] == Span(start, end);
    forall k | Starts(value, "<!--", k) && k < end ensures Covered(more, k) {
      if k < cursor {
        var s :| s in spans && Holds(s, k);
        assert s in more;
      } else {
        assert k >= start && Holds(Span(start, end), k);
      }
    }
  }

  lemma NoMoreComments(value: string, spans: seq<Span>, cursor: nat)
    requires CommentsUpTo(value, spans, cursor) && IndexOfText(value, "<!--", cursor) < 0
    ensures CommentsUpTo(value, spans, |value|)
  {
    hide IsComment, Covered, Starts;
  }

  /** Reading on from `cursor` completes the listing: every comment, and nothing else. */
  lemma {:induction false} CommentsComplete(value: string, spans: seq<Span>, cursor: nat)
    requires CommentsUpTo(value, spans, cursor)
    ensures CommentsUpTo(value, spans + CommentSpans(value, cursor), |value|)
    decreases |value| - cursor
  {
    hide IsComment, Covered, CommentEnd, CommentsUpTo;
    var start := IndexOfText(value, "<!--", cursor);
    if start < 0 {
      NoMoreComments(value, spans, cursor);
      assert spans + [] == spans;
    } else {
      var end := CommentEnd(value, start);
      ReadComment(value, start);
      AddComment(value, spans, cursor, start, end);
      CommentsComplete(value, spans + [Span(start, end)], end);
      assert spans + ([Span(start, end)] + CommentSpans(value, end))
          == (spans + [Span(start, end)]) + CommentSpans(value, end);
    }
  }

  // ----- as CommonMark reads it -----

  /** Behind the opening marker stand `>` or `->`, which close a comment (section 6.6 of CommonMark), and more text. */
  predicate ClosedAtOnce(value: string, start: nat) {
    || (Starts(value, ">", start + 4) && start + 5 < |value|)
    || (Starts(value, "->", start + 4) && start + 6 < |value|)
  }

  function CommonMarkEnd(value: string, start: nat): (end: nat)
    requires start + 4 <= |value|
    ensures start < end <= |value|
    ensures end == CommentEnd(value, start) <==> !ClosedAtOnce(value, start)
  {
    if Starts(value, ">", start + 4) then start + 5
    else if Starts(value, "->", start + 4) then start + 6
    else CommentEnd(value, start)
  }

  /** The comments from `cursor` on, with those that close at once. */
  function CommonMarkSpans(value: string, cursor: nat): seq<Span>
    decreases |value| - cursor
  {
    var start := IndexOfText(value, "<!--", cursor);
    if start < 0 then []
    else [Span(start, CommonMarkEnd(value, start))] + CommonMarkSpans(value, CommonMarkEnd(value, start))
  }

  /** The spans are these comments if and only if none of them was closed at once. */
  lemma {:induction false} CommonMarkExactly(value: string, cursor: nat)
    ensures CommentSpans(value, cursor) == CommonMarkSpans(value, cursor)
        <==> forall s :: s in CommentSpans(value, cursor) ==> !ClosedAtOnce(value, s.start)
    decreases |value| - cursor
  {
    hide CommentEnd, CommonMarkEnd, ClosedAtOnce, IndexOfText;
    var start := IndexOfText(value, "<!--", cursor);
    if start >= 0 {
      var end, spans, html := CommentEnd(value, start), CommentSpans(value, cursor), CommonMarkSpans(value, cursor);
      CommonMarkExactly(value, end);
      assert spans[0] == Span(start, end) && html[0] == Span(start, CommonMarkEnd(value, start));
      assert spans[1..] == CommentSpans(value, end) && html[1..] == CommonMarkSpans(value, CommonMarkEnd(value, start));
      assert spans == [spans[0]] + spans[1..];
    }
  }

  const SHORT_COMMENT := "<!--> x"

  /** `<!--> x`: the comment ends before the `x`, but the span runs to the end. */
  lemma ShortCommentRunsOn()
    ensures CommentSpans(SHORT_COMMENT, 0) == [Span(0, 7)] && CommonMarkSpans(SHORT_COMMENT, 0) == [Span(0, 5)]
  {
    assert Starts(SHORT_COMMENT, "<!--", 0) && Starts(SHORT_COMMENT, ">", 4);
    assert IndexOfText(SHORT_COMMENT, "<!--", 0) == 0;
    assert IndexOfText(SHORT_COMMENT, "<!--", 7) == -1;
    assert IndexOfText(SHORT_COMMENT, "<!--", 5) == -1;
    assert SHORT_COMMENT[4..7][0] == '>' && IndexOfText(SHORT_COMMENT, "-->", 4) == -1;
  }

  // ----- comments of several nodes -----

  /** One HTML node of the parsed source, at its absolute offset. */
  datatype HtmlNode = HtmlNode(offset: nat, value: string)

  lemma NoneYet(value: string)
    ensures CommentsUpTo(value, [], 0)
  {
  }

  /** Inside a comment of some HTML node. */
  ghost predicate Commented(nodes: seq<HtmlNode>, at: int) {
    exists n :: n in nodes && Covered(CommentSpans(n.value, 0), at - n.offset)
  }

  // ----- where the values stand in the source -----

  /**
   * `at` is where the parser took each character of the node's value from: in order, from the node's offset on. It
   * skips what belongs to a container: the prefix of a block quote, the indentation of a list item or a paragraph.
   */
  ghost predicate Positions(source: string, n: HtmlNode, at: seq<nat>) {
    && |at| == |n.value|
    && (at != [] ==> at[0] == n.offset)
    && (forall i, j :: 0 <= i < j < |at| ==> at[i] < at[j])
    && (forall k :: 0 <= k < |at| ==> at[k] < |source| && source[at[k]] == n.value[k])
  }

  /** The values stand in the source one behind the other. */
  ghost predicate Laid(source: string, nodes: seq<HtmlNode>, ats: seq<seq<nat>>) {
    && |ats| == |nodes|
    && (forall i :: 0 <= i < |nodes| ==> Positions(source, nodes[i], ats[i]))
    && (forall i, j, k :: 0 <= i < j < |nodes| && 0 <= k < |ats[i]| ==> ats[i][k] < nodes[j].offset)
  }

  /** Where the last comment of a value ends. */
  function CommentsEnd(value: string): nat {
    var spans := CommentSpans(value, 0);
    if spans == [] then 0 else spans[|spans| - 1].end
  }

  /** Nothing was skipped before the end of the node's last comment. */
  ghost predicate Unbroken(n: HtmlNode, at: seq<nat>) {
    forall k :: 0 <= k < CommentsEnd(n.value) && k < |at| ==> at[k] == n.offset + k
  }

  ghost predicate AllUnbroken(nodes: seq<HtmlNode>, ats: seq<seq<nat>>)
    requires |ats| == |nodes|
  {
    forall i :: 0 <= i < |nodes| ==> Unbroken(nodes[i], ats[i])
  }

  /** The source position of a character that some comment of the value holds. */
  ghost predicate CharacterOf(n: HtmlNode, at: seq<nat>, p: int) {
    exists k :: 0 <= k < |at| && at[k] == p && Covered(CommentSpans(n.value, 0), k)
  }

  /** From the first character of some comment to its last, whatever was skipped between them included. */
  ghost predicate ExtentOf(n: HtmlNode, at: seq<nat>, p: int) {
    exists s :: s in CommentSpans(n.value, 0) && s.start < s.end <= |at| && at[s.start] <= p <= at[s.end - 1]
  }

  ghost predicate SomeCharacter(nodes: seq<HtmlNode>, ats: seq<seq<nat>>, p: int)
    requires |ats| == |nodes|
  {
    exists i :: 0 <= i < |nodes| && CharacterOf(nodes[i], ats[i], p)
  }

  ghost predicate InSomeExtent(nodes: seq<HtmlNode>, ats: seq<seq<nat>>, p: int)
    requires |ats| == |nodes|
  {
    exists i :: 0 <= i < |nodes| && ExtentOf(nodes[i], ats[i], p)
  }

  ghost function Characters(nodes: seq<HtmlNode>, ats: seq<seq<nat>>): iset<int>
    requires |ats| == |nodes|
  {
    iset p | SomeCharacter(nodes, ats, p)
  }

  ghost function Extents(nodes: seq<HtmlNode>, ats: seq<seq<nat>>): iset<int>
    requires |ats| == |nodes|
  {
    iset p | InSomeExtent(nodes, ats, p)
  }

  /** The offsets the program takes for comments. */
  ghost function Masked(nodes: seq<HtmlNode>): iset<int> {
    iset p | Commented(nodes, p)
  }

  /**
   * The program masks the comments of the source, be they read as their characters or with all that stands between
   * these, if and only if in no node anything was skipped before the end of its last comment.
   */
  lemma MaskRightExactly(source: string, nodes: seq<HtmlNode>, ats: seq<seq<nat>>)
    requires Laid(source, nodes, ats)
    ensures Masked(nodes) == Characters(nodes, ats) <==> AllUnbroken(nodes, ats)
    ensures Masked(nodes) == Extents(nodes, ats) <==> AllUnbroken(nodes, ats)
  {
    hide Positions, Unbroken, CharacterOf, ExtentOf, Covered, CommentSpans;
    if AllUnbroken(nodes, ats) {
      forall p ensures p in Masked(nodes) <==> p in Characters(nodes, ats)
               ensures p in Masked(nodes) <==> p in Extents(nodes, ats)
      {
        UnbrokenMask(source, nodes, ats, p);
      }
    } else {
      var i :| 0 <= i < |nodes| && !Unbroken(nodes[i], ats[i]);
      LastIsComment(source, nodes[i], ats[i]);
      var last := ats[i][CommentsEnd(nodes[i].value) - 1];
      assert last in Characters(nodes, ats) && last in Extents(nodes, ats);
      if last in Masked(nodes) {
        MaskTells(source, nodes, ats, i);
      }
    }
  }

  lemma RightWhenUnbroken(source: string, nodes: seq<HtmlNode>)
    ensures forall ats :: Laid(source, nodes, ats) && AllUnbroken(nodes, ats) ==>
              Characters(nodes, ats) == Masked(nodes) == Extents(nodes, ats)
  {
    hide Positions, Unbroken, Masked, Characters, Extents;
    forall ats | Laid(source, nodes, ats) && AllUnbroken(nodes, ats)
      ensures Characters(nodes, ats) == Masked(nodes) == Extents(nodes, ats)
    {
      MaskRightExactly(source, nodes, ats);
    }
  }

  lemma UnbrokenMask(source: string, nodes: seq<HtmlNode>, ats: seq<seq<nat>>, p: int)
    requires Laid(source, nodes, ats) && AllUnbroken(nodes, ats)
    ensures p in Masked(nodes) <==> p in Characters(nodes, ats)
    ensures p in Masked(nodes) <==> p in Extents(nodes, ats)
  {
    hide Positions, Unbroken, CharacterOf, ExtentOf, Covered, CommentSpans;
    forall i | 0 <= i < |nodes|
      ensures Covered(CommentSpans(nodes[i].value, 0), p - nodes[i].offset) <==> CharacterOf(nodes[i], ats[i], p)
      ensures CharacterOf(nodes[i], ats[i], p) <==> ExtentOf(nodes[i], ats[i], p)
    {
      UnbrokenNode(source, nodes[i], ats[i], p);
    }
    if Commented(nodes, p) {
      var n :| n in nodes && Covered(CommentSpans(n.value, 0), p - n.offset);
      var i :| 0 <= i < |nodes| && nodes[i] == n;
      assert CharacterOf(nodes[i], ats[i], p);
    }
    if i :| 0 <= i < |nodes| && CharacterOf(nodes[i], ats[i], p) {
      assert nodes[i] in nodes;
    }
  }

  lemma SpansListed(value: string)
    ensures CommentsUpTo(value, CommentSpans(value, 0), |value|)
  {
    hide CommentSpans, CommentsUpTo;
    assert [] + CommentSpans(value, 0) == CommentSpans(value, 0);
    NoneYet(value);
    CommentsComplete(value, [], 0);
  }

  /** The comments of a value end where the last one does. */
  lemma EndsLast(value: string, s: Span)
    requires s in CommentSpans(value, 0)
    ensures s.start < s.end <= CommentsEnd(value) <= |value|
  {
    hide CommentSpans, Covered, Starts;
    SpansListed(value);
    var spans := CommentSpans(value, 0);
    var i :| 0 <= i < |spans| && spans[i] == s;
    assert spans[|spans| - 1] in spans;
  }

  lemma UnbrokenNode(source: string, n: HtmlNode, at: seq<nat>, p: int)
    requires Positions(source, n, at) && Unbroken(n, at)
    ensures Covered(CommentSpans(n.value, 0), p - n.offset) <==> CharacterOf(n, at, p)
    ensures CharacterOf(n, at, p) <==> ExtentOf(n, at, p)
  {
    hide CommentSpans, CommentsEnd, Covered, ExtentOf;
    UnbrokenExtents(source, n, at, p);
    if Covered(CommentSpans(n.value, 0), p - n.offset) {
      CoveredEnds(n.value, p - n.offset);
      assert at[p - n.offset] == p;
    }
    if CharacterOf(n, at, p) {
      var k :| 0 <= k < |at| && at[k] == p && Covered(CommentSpans(n.value, 0), k);
      CoveredEnds(n.value, k);
    }
  }

  lemma UnbrokenExtents(source: string, n: HtmlNode, at: seq<nat>, p: int)
    requires Positions(source, n, at) && Unbroken(n, at)
    ensures Covered(CommentSpans(n.value, 0), p - n.offset) <==> ExtentOf(n, at, p)
  {
    hide CommentSpans, CommentsEnd, Positions;
    SameLength(source, n, at);
    var spans := CommentSpans(n.value, 0);
    forall s | s in spans
      ensures s.start < s.end <= |at| && at[s.start] == n.offset + s.start && at[s.end - 1] == n.offset + s.end - 1
    {
      EndsLast(n.value, s);
    }
    if ExtentOf(n, at, p) {
      var s :| s in spans && s.start < s.end <= |at| && at[s.start] <= p <= at[s.end - 1];
      assert Holds(s, p - n.offset);
    }
  }

  /** Where something was skipped in or before a comment, the last comment's last character is one of the source's. */
  lemma LastIsComment(source: string, n: HtmlNode, at: seq<nat>)
    requires Positions(source, n, at) && !Unbroken(n, at)
    ensures var e := CommentsEnd(n.value);
            0 < e <= |at| && CharacterOf(n, at, at[e - 1]) && ExtentOf(n, at, at[e - 1])
  {
    hide CommentSpans;
    var spans := CommentSpans(n.value, 0);
    var s := spans[|spans| - 1];
    EndsLast(n.value, s);
    assert Holds(s, s.end - 1);
    assert Covered(spans, s.end - 1);
    assert at[s.start] <= at[s.end - 1];
  }

  /** If the program masks that character, it has the offset the program gave it, and so has every one before it. */
  lemma MaskTells(source: string, nodes: seq<HtmlNode>, ats: seq<seq<nat>>, i: nat)
    requires Laid(source, nodes, ats) && i < |nodes|
    requires var e := CommentsEnd(nodes[i].value); 0 < e <= |ats[i]| && ats[i][e - 1] in Masked(nodes)
    ensures Unbroken(nodes[i], ats[i])
  {
    hide Positions, Unbroken, CommentSpans, CommentsEnd, Covered;
    var e := CommentsEnd(nodes[i].value);
    var p := ats[i][e - 1];
    var n :| n in nodes && Covered(CommentSpans(n.value, 0), p - n.offset);
    var j :| 0 <= j < |nodes| && nodes[j] == n;
    SameNode(source, nodes, ats, i, e - 1, j);
    CoveredEnds(n.value, p - n.offset);
    NothingSkipped(source, n, ats[i]);
  }

  lemma CoveredEnds(value: string, k: int)
    requires Covered(CommentSpans(value, 0), k)
    ensures 0 <= k < CommentsEnd(value) <= |value|
  {
    hide CommentSpans, CommentsEnd;
    var s :| s in CommentSpans(value, 0) && Holds(s, k);
    EndsLast(value, s);
  }

  /** A character of one node is masked by no other one. */
  lemma SameNode(source: string, nodes: seq<HtmlNode>, ats: seq<seq<nat>>, i: nat, k: nat, j: nat)
    requires Laid(source, nodes, ats) && i < |nodes| && j < |nodes| && k < |ats[i]|
    requires Covered(CommentSpans(nodes[j].value, 0), ats[i][k] - nodes[j].offset)
    ensures i == j
  {
    hide Positions, CommentSpans, CommentsEnd, Covered;
    CoveredEnds(nodes[j].value, ats[i][k] - nodes[j].offset);
    SameLength(source, nodes[j], ats[j]);
    var last := |ats[j]| - 1;
    Spread(source, nodes[j], ats[j], 0, last);
    Spread(source, nodes[i], ats[i], 0, k);
  }

  lemma SameLength(source: string, n: HtmlNode, at: seq<nat>)
    requires Positions(source, n, at)
    ensures |at| == |n.value|
  {
  }

  lemma NothingSkipped(source: string, n: HtmlNode, at: seq<nat>)
    requires Positions(source, n, at)
    requires var e := CommentsEnd(n.value); 0 < e <= |at| && at[e - 1] < n.offset + e
    ensures Unbroken(n, at)
  {
    hide Positions, CommentsEnd;
    var e := CommentsEnd(n.value);
    forall k | 0 <= k < e ensures at[k] == n.offset + k {
      Spread(source, n, at, 0, k);
      Spread(source, n, at, k, e - 1);
    }
  }

  /** Positions lie no closer than the characters they belong to. */
  lemma {:induction false} Spread(source: string, n: HtmlNode, at: seq<nat>, i: nat, j: nat)
    requires Positions(source, n, at) && i <= j < |at|
    ensures at[j] >= at[i] + (j - i) && at[0] == n.offset
    decreases j - i
  {
    if i < j {
      Spread(source, n, at, i, j - 1);
      assert at[j - 1] < at[j];
    }
  }

  /** The source holds the node's value as it stands. */
  ghost predicate Verbatim(source: string, n: HtmlNode) {
    n.offset + |n.value| <= |source| && source[n.offset..n.offset + |n.value|] == n.value
  }

  function Straight(n: HtmlNode): seq<nat> {
    seq(|n.value|, k requires 0 <= k < |n.value| => n.offset + k)
  }

  lemma StraightIsUnbroken(source: string, n: HtmlNode)
    requires Verbatim(source, n)
    ensures Laid(source, [n], [Straight(n)]) && AllUnbroken([n], [Straight(n)])
  {
    hide CommentsEnd;
    forall k | 0 <= k < |n.value| ensures source[n.offset + k] == n.value[k] {
      assert source[n.offset..n.offset + |n.value|][k] == n.value[k];
    }
    assert Positions(source, n, Straight(n));
  }

  lemma SliceOfSlice(source: string, offset: nat, length: nat, from: nat, to: nat)
    requires offset + length <= |source| && from <= to <= length
    ensures source[offset + from..offset + to] == source[offset..offset + length][from..to]
  {
    var a, b := source[offset + from..offset + to], source[offset..offset + length][from..to];
    forall i | 0 <= i < |a| ensures a[i] == b[i] {
      assert a[i] == source[offset + from + i];
    }
  }

  /**
   * Of such a node nothing was skipped, and so the mask is right; its spans open and close in the source, and no
   * opening marker is left out.
   */
  lemma VerbatimComments(source: string, n: HtmlNode)
    requires Verbatim(source, n)
    ensures Laid(source, [n], [Straight(n)]) && Masked([n]) == Characters([n], [Straight(n)])
    ensures Masked([n]) == Extents([n], [Straight(n)])
    ensures forall s :: s in CommentSpans(n.value, 0) ==>
              && Starts(source, "<!--", n.offset + s.start)
              && (s.end == |n.value| || Starts(source, "-->", n.offset + s.end - 3))
    ensures forall k :: n.offset <= k <= n.offset + |n.value| - 4 && Starts(source, "<!--", k) ==>
              Covered(CommentSpans(n.value, 0), k - n.offset)
  {
    hide CommentSpans, Covered, Starts, Masked, Characters, Extents, Laid, Unbroken;
    var spans := CommentSpans(n.value, 0);
    StraightIsUnbroken(source, n);
    MaskRightExactly(source, [n], [Straight(n)]);
    SpansListed(n.value);
    forall s | s in spans
      ensures Starts(source, "<!--", n.offset + s.start)
      ensures s.end == |n.value| || Starts(source, "-->", n.offset + s.end - 3)
    {
      assert IsComment(n.value, s);
      SameStart(source, n, "<!--", s.start);
      if s.end != |n.value| {
        SameStart(source, n, "-->", s.end - 3);
      }
    }
    forall k | n.offset <= k <= n.offset + |n.value| - 4 && Starts(source, "<!--", k)
      ensures Covered(spans, k - n.offset)
    {
      SameStart(source, n, "<!--", k - n.offset);
      assert Starts(n.value, "<!--", k - n.offset);
    }
  }

  lemma SameStart(source: string, n: HtmlNode, what: string, k: nat)
    requires Verbatim(source, n) && k + |what| <= |n.value|
    ensures Starts(source, what, n.offset + k) <==> Starts(n.value, what, k)
  {
    SliceOfSlice(source, n.offset, |n.value|, k, k + |what|);
  }

  method CollectComments(nodes: seq<HtmlNode>) returns (comments: seq<Span>)
    ensures forall at :: Covered(comments, at) <==> Commented(nodes, at)
  {
    hide Covered;
    comments := [];
    NoComments(nodes);
    for i := 0 to |nodes|
      invariant forall at :: Covered(comments, at) <==> Commented(nodes[..i], at)
    {
      var more := CommentsOf(nodes[i]);
      forall at ensures Covered(comments + more, at) <==> Commented(nodes[..i + 1], at) {
        CoveredJoin(comments, more, at);
        OneMoreNode(nodes, i, at);
      }
      comments := comments + more;
    }
    assert nodes[..|nodes|] == nodes;
  }

  lemma NoComments(nodes: seq<HtmlNode>)
    ensures forall at :: Covered([], at) <==> Commented(nodes[..0], at)
  {
  }

  lemma OneMoreNode(nodes: seq<HtmlNode>, i: nat, at: int)
    requires i < |nodes|
    ensures Commented(nodes[..i + 1], at)
        <==> Commented(nodes[..i], at) || Covered(CommentSpans(nodes[i].value, 0), at - nodes[i].offset)
  {
    hide Covered;
    assert nodes[..i + 1] == nodes[..i] + [nodes[i]];
  }

  method CommentsOf(node: HtmlNode) returns (comments: seq<Span>)
    ensures forall at :: Covered(comments, at) <==> Covered(CommentSpans(node.value, 0), at - node.offset)
  {
    hide Covered, Shift, Starts, CommentSpans;
    var value := node.value;
    var cursor: nat := 0;
    comments := [];
    ghost var spans: seq<Span> := [];
    ShiftNone(node.offset);
    while true
      invariant CommentSpans(value, 0) == spans + CommentSpans(value, cursor)
      invariant comments == Shift(spans, node.offset)
      decreases |value| - cursor
    {
      var start := IndexOfText(value, "<!--", cursor);
      NextSpan(value, spans, cursor);
      if start < 0 {
        break;
      }
      var close := IndexOfText(value, "-->", start + 4);
      var end := if close < 0 then |value| else close + 3;
      ShiftOne(spans, Span(start, end), node.offset);
      comments := comments + [Span(node.offset + start, node.offset + end)];
      spans := spans + [Span(start, end)];
      cursor := end;
    }
    ShiftCovers(spans, node.offset);
  }

  lemma SpansUnfold(value: string, cursor: nat)
    ensures var start := IndexOfText(value, "<!--", cursor);
            if start < 0 then CommentSpans(value, cursor) == []
            else
              && start + 4 <= |value|
              && CommentSpans(value, cursor)
                  == [Span(start, CommentEnd(value, start))] + CommentSpans(value, CommentEnd(value, start))
  {
    hide CommentEnd, IndexOfText;
  }

  lemma NextSpan(value: string, spans: seq<Span>, cursor: nat)
    requires CommentSpans(value, 0) == spans + CommentSpans(value, cursor)
    ensures var start := IndexOfText(value, "<!--", cursor);
            if start < 0 then CommentSpans(value, 0) == spans
            else
              && start + 4 <= |value|
              && CommentSpans(value, 0)
                  == spans + [Span(start, CommentEnd(value, start))] + CommentSpans(value, CommentEnd(value, start))
  {
    hide CommentEnd, IndexOfText, CommentSpans, Starts;
    SpansUnfold(value, cursor);
  }

  lemma ShiftNone(offset: nat)
    ensures Shift([], offset) == []
  {
  }

  lemma ShiftOne(spans: seq<Span>, s: Span, offset: nat)
    ensures Shift(spans + [s], offset) == Shift(spans, offset) + [Span(offset + s.start, offset + s.end)]
  {
  }

  function Shift(spans: seq<Span>, offset: nat): seq<Span> {
    seq(|spans|, i requires 0 <= i < |spans| => Span(offset + spans[i].start, offset + spans[i].end))
  }

  lemma ShiftCovers(spans: seq<Span>, offset: nat)
    ensures forall at :: Covered(Shift(spans, offset), at) <==> Covered(spans, at - offset)
  {
    forall at ensures Covered(Shift(spans, offset), at) <==> Covered(spans, at - offset) {
      if s :| s in spans && Holds(s, at - offset) {
        var k :| 0 <= k < |spans| && spans[k] == s;
        assert Shift(spans, offset)[k] in Shift(spans, offset) && Holds(Shift(spans, offset)[k], at);
      }
      if s :| s in Shift(spans, offset) && Holds(s, at) {
        var k :| 0 <= k < |spans| && Shift(spans, offset)[k] == s;
        assert spans[k] in spans && Holds(spans[k], at - offset);
      }
    }
  }

  // ----- ranges per line -----

  /** The offset at which line `i` starts. */
  function LineStart(lines: seq<string>, i: nat): nat
    requires i <= |lines|
  {
    if i == 0 then 0 else LineStart(lines, i - 1) + |lines[i - 1]| + 1
  }

  lemma {:induction false} LineStartTail(lines: seq<string>, i: nat)
    requires 0 < i <= |lines|
    ensures LineStart(lines, i) == |lines[0]| + 1 + LineStart(lines[1..], i - 1)
  {
    if i > 1 {
      LineStartTail(lines, i - 1);
    }
  }

  lemma {:induction false} JoinedLine(lines: seq<string>, i: nat)
    requires i < |lines|
    ensures var start, end := LineStart(lines, i), LineStart(lines, i) + |lines[i]|;
            && end <= |Join(lines, '\n')| && Join(lines, '\n')[start..end] == lines[i]
            && (i + 1 < |lines| ==> end < |Join(lines, '\n')| && Join(lines, '\n')[end] == '\n')
            && (i + 1 == |lines| ==> end == |Join(lines, '\n')|)
    decreases i
  {
    hide LineStart;
    var s := Join(lines, '\n');
    if i == 0 {
      FirstLineStart(lines);
      assert s[..|lines[0]|] == lines[0];
    } else {
      var rest := Join(lines[1..], '\n');
      JoinedLine(lines[1..], i - 1);
      LineStartTail(lines, i);
      SliceAfter(lines[0], rest, LineStart(lines[1..], i - 1), |lines[i]|);
    }
  }

  lemma FirstLineStart(lines: seq<string>)
    ensures LineStart(lines, 0) == 0
  {
  }

  lemma SliceAfter(first: string, rest: string, start: nat, length: nat)
    requires start + length <= |rest|
    ensures var s, from := first + ['\n'] + rest, |first| + 1 + start;
            && s[from..from + length] == rest[start..start + length]
            && (start + length < |rest| ==> s[from + length] == rest[start + length])
  {
  }

  /** Lines lie in the source at their starts, a newline apart. */
  lemma LineInSource(source: string, i: nat)
    requires i < |Split(source, '\n')|
    ensures var lines := Split(source, '\n');
            var start, end := LineStart(lines, i), LineStart(lines, i) + |lines[i]|;
            && end <= |source| && source[start..end] == lines[i]
            && (i + 1 < |lines| ==> end < |source| && source[end] == '\n')
            && (i + 1 == |lines| ==> end == |source|)
  {
    hide LineStart, Join, Split;
    JoinSplit(source, '\n');
    JoinedLine(Split(source, '\n'), i);
  }

  /** The part of a comment inside a line of `length` characters at `offset`, as columns. */
  function Clip(s: Span, offset: nat, length: nat): seq<Span> {
    var from, to := Max(s.start, offset), Min(s.end, offset + length);
    if from < to then [Span(from - offset, to - offset)]
    else if length == 0 && s.start <= offset && s.end > offset then [Span(0, 0)]
    else []
  }

  function LineRanges(spans: seq<Span>, offset: nat, length: nat): seq<Span> {
    if spans == [] then []
    else LineRanges(spans[..|spans| - 1], offset, length) + Clip(spans[|spans| - 1], offset, length)
  }

  /** A column lies in a computed range exactly when its absolute offset lies in a comment. */
  lemma {:induction false} ColumnExactly(spans: seq<Span>, offset: nat, length: nat, column: nat)
    requires column < length
    ensures Covered(LineRanges(spans, offset, length), column) <==> Covered(spans, offset + column)
  {
    if spans != [] {
      var n := |spans| - 1;
      ColumnExactly(spans[..n], offset, length, column);
      CoveredJoin(LineRanges(spans[..n], offset, length), Clip(spans[n], offset, length), column);
      CoveredJoin(spans[..n], [spans[n]], offset + column);
      assert spans == spans[..n] + [spans[n]];
      ClipExactly(spans[n], offset, length, column);
    }
  }

  lemma ClipExactly(s: Span, offset: nat, length: nat, column: nat)
    requires column < length
    ensures Covered(Clip(s, offset, length), column) <==> Covered([s], offset + column)
  {
    var c := Clip(s, offset, length);
    if Holds(s, offset + column) {
      assert s in [s] && c[0] in c && Holds(c[0], column);
    }
  }

  lemma CoveredJoin(a: seq<Span>, b: seq<Span>, at: int)
    ensures Covered(a + b, at) <==> Covered(a, at) || Covered(b, at)
  {
    if Covered(a, at) {
      var s :| s in a && Holds(s, at);
      assert s in a + b;
    } else if Covered(b, at) {
      var s :| s in b && Holds(s, at);
      assert s in a + b;
    }
  }

  /** A comment touches the line: one of its characters, or the position of an empty line. */
  ghost predicate Touched(spans: seq<Span>, offset: nat, length: nat) {
    exists at :: offset <= at < offset + Max(length, 1) && Covered(spans, at)
  }

  lemma {:induction false} RangesWhenTouched(spans: seq<Span>, offset: nat, length: nat)
    ensures LineRanges(spans, offset, length) != [] <==> Touched(spans, offset, length)
  {
    if spans != [] {
      var n := |spans| - 1;
      RangesWhenTouched(spans[..n], offset, length);
      TouchedJoin(spans[..n], spans[n], offset, length);
      assert spans == spans[..n] + [spans[n]];
      ClipWhenTouched(spans[n], offset, length);
    }
  }

  lemma TouchedJoin(a: seq<Span>, s: Span, offset: nat, length: nat)
    ensures Touched(a + [s], offset, length) <==> Touched(a, offset, length) || Touched([s], offset, length)
  {
    forall at ensures Covered(a + [s], at) <==> Covered(a, at) || Covered([s], at) {
      CoveredJoin(a, [s], at);
    }
  }

  lemma ClipWhenTouched(s: Span, offset: nat, length: nat)
    ensures Clip(s, offset, length) != [] <==> Touched([s], offset, length)
  {
    if Clip(s, offset, length) != [] {
      assert s in [s];
      assert Holds(s, Max(s.start, offset));
      assert Covered([s], Max(s.start, offset));
    }
    if Touched([s], offset, length) {
      var at :| offset <= at < offset + Max(length, 1) && Covered([s], at);
      assert Holds(s, at);
    }
  }

  lemma {:induction false} RangesFit(spans: seq<Span>, offset: nat, length: nat)
    ensures forall r :: r in LineRanges(spans, offset, length) ==> r.start <= r.end <= length
  {
    if spans != [] {
      RangesFit(spans[..|spans| - 1], offset, length);
    }
  }

  /** Each of the first `n` lines that has ranges is listed with them, and no other line is. */
  ghost predicate RangesListed(ranges: map<nat, seq<Span>>, comments: seq<Span>, rawLines: seq<string>, n: nat)
    requires n <= |rawLines|
  {
    && (forall line: nat :: line in ranges ==> 1 <= line <= n && ranges[line] != [])
    && (forall line: nat :: 1 <= line <= n ==>
          (if line in ranges then ranges[line] else [])
              == LineRanges(comments, LineStart(rawLines, line - 1), |rawLines[line - 1]|))
  }

  method HtmlCommentRanges(comments: seq<Span>, rawLines: seq<string>) returns (ranges: map<nat, seq<Span>>)
    ensures RangesListed(ranges, comments, rawLines, |rawLines|)
  {
    hide LineRanges;
    ranges := map[];
    var lineOffset := 0;
    for index := 0 to |rawLines|
      invariant lineOffset == LineStart(rawLines, index)
      invariant RangesListed(ranges, comments, rawLines, index)
    {
      var length := |rawLines[index]|;
      var lineRanges := RangesOfLine(comments, lineOffset, length);
      if lineRanges != [] {
        ranges := ranges[index + 1 := lineRanges];
      }
      lineOffset := lineOffset + length + 1;
    }
  }

  method RangesOfLine(comments: seq<Span>, lineOffset: nat, length: nat) returns (lineRanges: seq<Span>)
    ensures lineRanges == LineRanges(comments, lineOffset, length)
  {
    var lineEnd := lineOffset + length;
    lineRanges := [];
    for i := 0 to |comments|
      invariant lineRanges == LineRanges(comments[..i], lineOffset, length)
    {
      var start, end := comments[i].start, comments[i].end;
      var from, to := Max(start, lineOffset), Min(end, lineEnd);
      var coversEmptyLine := length == 0 && start <= lineOffset && end > lineOffset;
      assert comments[..i + 1][..i] == comments[..i];
      if from < to || coversEmptyLine {
        lineRanges := lineRanges + [Span(from - lineOffset, to - lineOffset)];
      }
    }
    assert comments[..|comments|] == comments;
  }

  // ----- what stays visible -----

  predicate HasInk(text: string) {
    exists c :: c in text && !IsSpace(c)
  }

  ghost predicate InkOutside(raw: string, ranges: seq<Span>, from: nat) {
    exists column :: from <= column < |raw| && !IsSpace(raw[column]) && !Covered(ranges, column)
  }

  /** `raw.slice(from, to)` for non-negative bounds. */
  function Slice(raw: string, from: nat, to: nat): string {
    var hi := Min(to, |raw|);
    if from < hi then raw[from..hi] else ""
  }

  function Visible(raw: string, ranges: seq<Span>, cursor: nat): string {
    if ranges == [] then Slice(raw, cursor, |raw|)
    else Slice(raw, cursor, ranges[0].start) + Visible(raw, ranges[1..], Max(cursor, ranges[0].end))
  }

  function Earlier(): (Span, Span) -> bool {
    (a: Span, b: Span) => a.start <= b.start
  }

  lemma EarlierIsTotal()
    ensures TotalPreorder(Earlier())
  {
  }

  lemma SliceInk(raw: string, from: nat, to: nat)
    ensures HasInk(Slice(raw, from, to)) <==> exists column :: from <= column < Min(to, |raw|) && !IsSpace(raw[column])
  {
    hide IsSpace;
    var t := Slice(raw, from, to);
    if c :| c in t && !IsSpace(c) {
      var k :| 0 <= k < |t| && t[k] == c;
      assert raw[from + k] == c;
    }
    if column :| from <= column < Min(to, |raw|) && !IsSpace(raw[column]) {
      assert t[column - from] == raw[column];
    }
  }

  lemma InkJoin(a: string, b: string)
    ensures HasInk(a + b) <==> HasInk(a) || HasInk(b)
  {
    hide IsSpace;
    if c :| c in a && !IsSpace(c) {
      assert c in a + b;
    }
    if c :| c in b && !IsSpace(c) {
      assert c in a + b;
    }
  }

  /** Cutting the ranges out, earliest first, leaves ink exactly when some ink lies outside every range. */
  lemma {:induction false} VisibleExactly(raw: string, ranges: seq<Span>, cursor: nat)
    requires Sorted(ranges, Earlier()) && forall r :: r in ranges ==> r.start <= r.end <= |raw|
    ensures HasInk(Visible(raw, ranges, cursor)) <==> InkOutside(raw, ranges, cursor)
    decreases |ranges|
  {
    hide HasInk, IsSpace;
    if ranges == [] {
      SliceInk(raw, cursor, |raw|);
      NothingCovered(raw, cursor);
    } else {
      var first, rest := ranges[0], ranges[1..];
      VisibleExactly(raw, rest, Max(cursor, first.end));
      InkJoin(Slice(raw, cursor, first.start), Visible(raw, rest, Max(cursor, first.end)));
      SliceInk(raw, cursor, first.start);
      InkSplits(raw, ranges, cursor);
    }
  }

  lemma NothingCovered(raw: string, cursor: nat)
    ensures InkOutside(raw, [], cursor) <==> exists column :: cursor <= column < |raw| && !IsSpace(raw[column])
  {
    hide IsSpace;
    if column :| cursor <= column < |raw| && !IsSpace(raw[column]) {
      assert !Covered([], column);
    }
  }

  /** Ink outside sorted ranges lies before the first, or past it and outside the others. */
  lemma InkSplits(raw: string, ranges: seq<Span>, cursor: nat)
    requires ranges != [] && Sorted(ranges, Earlier()) && forall r :: r in ranges ==> r.start <= r.end <= |raw|
    ensures InkOutside(raw, ranges, cursor) <==>
            (exists column :: cursor <= column < Min(ranges[0].start, |raw|) && !IsSpace(raw[column]))
            || InkOutside(raw, ranges[1..], Max(cursor, ranges[0].end))
  {
    hide IsSpace;
    var first, rest := ranges[0], ranges[1..];
    assert ranges == [first] + rest;
    forall at ensures Covered(ranges, at) <==> Holds(first, at) || Covered(rest, at) {
      CoveredJoin([first], rest, at);
      assert Covered([first], at) <==> Holds(first, at) by {
        assert first in [first];
      }
    }
    forall at | Covered(rest, at) ensures at >= first.start {
      var s :| s in rest && Holds(s, at);
      var k :| 0 <= k < |rest| && rest[k] == s;
      assert Earlier()(ranges[0], ranges[k + 1]);
    }
    if column :| cursor <= column < Min(first.start, |raw|) && !IsSpace(raw[column]) {
      assert !Covered(ranges, column);
    }
  }

  method HasRenderedTextOutsideComments(raw: string, ranges: Option<seq<Span>>) returns (b: bool)
    requires ranges.Some? ==> forall r :: r in ranges.value ==> r.start <= r.end <= |raw|
    ensures b <==> ranges.None? || InkOutside(raw, ranges.value, 0)
  {
    hide IsSpace, HasInk, InkOutside, Sorted, SortBy, Slice;
    if ranges.None? {
      return true;
    }
    var sorted := SortBy(ranges.value, Earlier());
    SortedRanges(raw, ranges.value);
    var cursor: nat, visible := 0, "";
    for i := 0 to |sorted|
      invariant Visible(raw, sorted, 0) == visible + Visible(raw, sorted[i..], cursor)
    {
      assert sorted[i..][1..] == sorted[i + 1..];
      VisibleNext(raw, visible, sorted[i..], cursor);
      visible := visible + Slice(raw, cursor, sorted[i].start);
      cursor := Max(cursor, sorted[i].end);
    }
    visible := visible + Slice(raw, cursor, |raw|);
    VisibleExactly(raw, sorted, 0);
    b := HasInk(visible);
  }

  lemma VisibleNext(raw: string, visible: string, ranges: seq<Span>, cursor: nat)
    requires ranges != []
    ensures visible + Visible(raw, ranges, cursor)
         == (visible + Slice(raw, cursor, ranges[0].start)) + Visible(raw, ranges[1..], Max(cursor, ranges[0].end))
  {
    hide Slice;
  }

  lemma SortedRanges(raw: string, ranges: seq<Span>)
    requires forall r :: r in ranges ==> r.start <= r.end <= |raw|
    ensures var sorted := SortBy(ranges, Earlier());
            && Sorted(sorted, Earlier()) && (forall r :: r in sorted ==> r.start <= r.end <= |raw|)
            && (InkOutside(raw, sorted, 0) <==> InkOutside(raw, ranges, 0))
  {
    hide SortBy, IsSpace;
    var sorted := SortBy(ranges, Earlier());
    EarlierIsTotal();
    SortSorts(ranges, Earlier());
    SortPermutes(ranges, Earlier());
    forall r ensures r in sorted <==> r in ranges {
      PermutedMember(sorted, ranges, r);
    }
    forall at ensures Covered(sorted, at) <==> Covered(ranges, at) {
    }
  }

  // ----- prose lines -----

  datatype ProseLine = ProseLine(index: nat, raw: string)

  /** Line `i` is outside code, and untouched by comments or with ink of its own outside all of them. */
  ghost predicate IsProse(source: string, masked: iset<int>, fenced: set<nat>, i: nat)
    requires i < |Split(source, '\n')|
  {
    var lines := Split(source, '\n');
    && i + 1 !in fenced
    && (Untouched(masked, LineStart(lines, i), |lines[i]|) || InkOfItsOwn(masked, LineStart(lines, i), lines[i]))
  }

  ghost predicate Untouched(masked: iset<int>, offset: nat, length: nat) {
    forall at :: offset <= at < offset + Max(length, 1) ==> at !in masked
  }

  ghost predicate InkOfItsOwn(masked: iset<int>, offset: nat, raw: string) {
    exists column :: 0 <= column < |raw| && !IsSpace(raw[column]) && offset + column !in masked
  }

  /** All the prose lines, in order, with their 1-based numbers. */
  ghost predicate IsProseOf(kept: seq<ProseLine>, source: string, masked: iset<int>, fenced: set<nat>) {
    && (forall l :: l in kept <==>
          && 1 <= l.index <= |Split(source, '\n')| && l.raw == Split(source, '\n')[l.index - 1]
          && IsProse(source, masked, fenced, l.index - 1))
    && (forall i, j :: 0 <= i < j < |kept| ==> kept[i].index < kept[j].index)
  }

  lemma RangesDecide(masked: iset<int>, comments: seq<Span>, offset: nat, raw: string)
    requires forall at :: Covered(comments, at) <==> at in masked
    ensures var ranges := LineRanges(comments, offset, |raw|);
            && (ranges == [] <==> Untouched(masked, offset, |raw|))
            && (InkOutside(raw, ranges, 0) <==> InkOfItsOwn(masked, offset, raw))
  {
    hide IsSpace, LineRanges, Covered;
    RangesWhenTouched(comments, offset, |raw|);
    forall column: nat | column < |raw|
      ensures Covered(LineRanges(comments, offset, |raw|), column) <==> offset + column in masked
    {
      ColumnExactly(comments, offset, |raw|, column);
    }
  }

  lemma RangesOf(ranges: map<nat, seq<Span>>, comments: seq<Span>, rawLines: seq<string>, i: nat)
    requires i < |rawLines| && RangesListed(ranges, comments, rawLines, |rawLines|)
    ensures i + 1 in ranges ==> ranges[i + 1] != []
    ensures (if i + 1 in ranges then ranges[i + 1] else [])
        == LineRanges(comments, LineStart(rawLines, i), |rawLines[i]|)
  {
    hide LineRanges;
    assert 1 <= i + 1 <= |rawLines|;
  }

  /**
   * The prose by what the program masks; and by the source's own comments, wherever the values stand in it, if nothing
   * was skipped before the end of any node's last comment.
   */
  method MarkdownProseLines(source: string, nodes: seq<HtmlNode>, fenced: set<nat>) returns (kept: seq<ProseLine>)
    ensures IsProseOf(kept, source, Masked(nodes), fenced)
    ensures forall ats :: Laid(source, nodes, ats) && AllUnbroken(nodes, ats) ==>
              && IsProseOf(kept, source, Characters(nodes, ats), fenced)
              && IsProseOf(kept, source, Extents(nodes, ats), fenced)
  {
    hide IsSpace, LineRanges, Covered, Commented, Untouched, InkOfItsOwn, InkOutside, RangesListed, Split, LineStart;
    hide AllUnbroken, Characters, Extents, Positions;
    var rawLines := Split(source, '\n');
    var comments := CollectComments(nodes);
    ghost var masked := Masked(nodes);
    var ranges := HtmlCommentRanges(comments, rawLines);
    kept := [];
    for i := 0 to |rawLines|
      invariant forall l :: l in kept <==>
                  1 <= l.index <= i && l.raw == rawLines[l.index - 1] && IsProse(source, masked, fenced, l.index - 1)
      invariant forall a, b :: 0 <= a < b < |kept| ==> kept[a].index < kept[b].index
    {
      var raw := rawLines[i];
      RangesOf(ranges, comments, rawLines, i);
      RangesDecide(masked, comments, LineStart(rawLines, i), raw);
      if i + 1 !in fenced {
        RangesFit(comments, LineStart(rawLines, i), |raw|);
        var visible := HasRenderedTextOutsideComments(raw, if i + 1 in ranges then Some(ranges[i + 1]) else None);
        if visible {
          kept := kept + [ProseLine(i + 1, raw)];
        }
      }
    }
    RightWhenUnbroken(source, nodes);
  }

  /** A comment over two lines of a block quote, of which the parsed value lacks the second line's prefix. */
  const QUOTED_LINES := ["> <!-- a", "> b -->"]

  const QUOTED_NODE := HtmlNode(2, "<!-- a\nb -->")

  const QUOTED_AT: seq<nat> := [2, 3, 4, 5, 6, 7, 8, 11, 12, 13, 14, 15]

  /** The prefix was skipped before the comment's end: all of the second line lies within it, and is taken for prose. */
  lemma QuotedCommentKept()
    ensures var source := Join(QUOTED_LINES, '\n');
            && source == "> <!-- a\n> b -->" && Split(source, '\n') == QUOTED_LINES
            && Laid(source, [QUOTED_NODE], [QUOTED_AT]) && !AllUnbroken([QUOTED_NODE], [QUOTED_AT])
            && IsProse(source, Masked([QUOTED_NODE]), {}, 1)
            && !IsProse(source, Extents([QUOTED_NODE], [QUOTED_AT]), {}, 1)
  {
    hide Commented, Split, Laid, AllUnbroken, ExtentOf, CommentSpans, IsSpace;
    var source := "> <!-- a\n> b -->";
    assert QUOTED_LINES[1..] == ["> b -->"];
    assert Join(QUOTED_LINES, '\n') == source;
    SplitJoin(QUOTED_LINES, '\n');
    assert LineStart(QUOTED_LINES, 1) == LineStart(QUOTED_LINES, 0) + 9 == 9;
    QuotedLies(source);
    QuotedSpans();
    NothingBehind(QUOTED_NODE);
    DashIsInk(QUOTED_LINES[1][5]);
    assert 9 + 5 !in Masked([QUOTED_NODE]);
    forall at | 9 <= at < 16 ensures at in Extents([QUOTED_NODE], [QUOTED_AT]) {
      QuotedExtent(at);
      assert ExtentOf([QUOTED_NODE][0], [QUOTED_AT][0], at);
    }
    assert 9 in Extents([QUOTED_NODE], [QUOTED_AT]);
  }

  lemma DashIsInk(c: char)
    requires c == '-'
    ensures !IsSpace(c)
  {
  }

  lemma QuotedSpans()
    ensures CommentSpans(QUOTED_NODE.value, 0) == [Span(0, 12)]
  {
    hide CommentSpans, CommentEnd, IndexOfText;
    var value := "<!-- a\nb -->";
    QuotedMarkers(value);
    SpansUnfold(value, 0);
    SpansUnfold(value, 12);
  }

  lemma QuotedMarkers(value: string)
    requires value == "<!-- a\nb -->"
    ensures IndexOfText(value, "<!--", 0) == 0 && IndexOfText(value, "<!--", 12) == -1 && CommentEnd(value, 0) == 12
  {
    hide IndexOfText;
    assert value[0..4] == "<!--";
    assert value[9..12] == "-->";
    assert Starts(value, "<!--", 0) && Starts(value, "-->", 9);
    var close := IndexOfText(value, "-->", 4);
    assert close <= 9 && value[close] == value[close..close + 3][0] == '-';
  }

  lemma QuotedLies(source: string)
    requires source == "> <!-- a\n> b -->"
    ensures Laid(source, [QUOTED_NODE], [QUOTED_AT]) && !AllUnbroken([QUOTED_NODE], [QUOTED_AT])
  {
    hide CommentSpans, Positions, Unbroken;
    QuotedSkips();
    QuotedPositions(source);
    assert !Unbroken([QUOTED_NODE][0], [QUOTED_AT][0]);
  }

  lemma QuotedSkips()
    ensures !Unbroken(QUOTED_NODE, QUOTED_AT)
  {
    hide CommentSpans;
    QuotedSpans();
    assert QUOTED_AT[7] == 11;
  }

  lemma QuotedPositions(source: string)
    requires source == "> <!-- a\n> b -->"
    ensures Positions(source, QUOTED_NODE, QUOTED_AT)
  {
  }

  lemma QuotedExtent(p: int)
    requires 9 <= p < 16
    ensures ExtentOf(QUOTED_NODE, QUOTED_AT, p)
  {
    hide CommentSpans;
    QuotedSpans();
    assert Span(0, 12) in CommentSpans(QUOTED_NODE.value, 0);
  }

  /** No comment of a node reaches past its value. */
  lemma NothingBehind(n: HtmlNode)
    ensures !Commented([n], n.offset + |n.value|)
  {
    hide CommentSpans, CommentsEnd;
    if Commented([n], n.offset + |n.value|) {
      CoveredEnds(n.value, |n.value|);
    }
  }
}
