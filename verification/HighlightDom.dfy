/**
 Offsets on the page: the children of the element that shows a highlighted text,
 offsetsForText (withHighlighting.js), which turns points of the page into offsets of
 the document, and the search of highlightOffsets (range.js), which goes the other way.
 */
module HighlightDom {
  import opened Sequences
  import opened Wrappers
  import Html
  import opened EntityHighlighter

  /**
   A child of the text element. A span that is no vertex mention may be any other element,
   such as a line break. Inside a span, line breaks stand before every run of newlines.
   */
  datatype DomNode =
    | TextNode(text: string)
    | Span(isVertex: bool, start: int, end: int, text: string)
  {
    predicate IsVertexSpan() { Span? && isVertex }

    /** Vertex mentions, and every other element that shows text. */
    predicate IsMention() { Span? && (isVertex || text != "") }

    /** The node a range can start in: the node itself or, for an element, its first child. */
    predicate HasContainer() { TextNode? || text != "" }

    /** The text of that node: in an element, what is in front of the first line break. */
    function ContainerText(): string { if TextNode? then text else FirstLine(text) }
  }

  function FirstLine(s: string): (r: string)
    ensures r <= s && '\n' !in r
    ensures |r| < |s| ==> s[|r|] == '\n'
  {
    if s == "" || s[0] == '\n' then ""
    else
      var rest := FirstLine(s[1..]);
      assert s == [s[0]] + s[1..];
      [s[0]] + rest
  }

  /** A point in one text node of a child, which begins after some characters of the child. */
  datatype Point = Point(child: nat, before: nat, offset: int)

  ghost predicate InChild(dom: seq<DomNode>, p: Point) {
    p.child < |dom| && (dom[p.child].TextNode? ==> p.before == 0)
  }

  function Content(dom: seq<DomNode>): string {
    if dom == [] then "" else Content(dom[..|dom| - 1]) + dom[|dom| - 1].text
  }

  /** Characters shown before the k-th child. */
  function Before(dom: seq<DomNode>, k: nat): nat
    requires k <= |dom|
  {
    |Content(dom[..k])|
  }

  /** Characters shown up to the end of the k-th child. */
  function After(dom: seq<DomNode>, k: nat): nat
    requires k < |dom|
  {
    Before(dom, k + 1)
  }

  lemma BeforeNext(dom: seq<DomNode>, k: nat)
    requires k < |dom|
    ensures Before(dom, k + 1) == Before(dom, k) + |dom[k].text|
  {
    assert dom[..k + 1][..k] == dom[..k];
  }

  lemma {:induction false} BeforeMonotone(dom: seq<DomNode>, j: nat, k: nat)
    requires j <= k <= |dom|
    ensures Before(dom, j) <= Before(dom, k)
    decreases k - j
  {
    if j == k {
    } else {
      BeforeNext(dom, j);
      BeforeMonotone(dom, j + 1, k);
    }
  }

  // ---------------------------------------------------------------- page to document

  /** The nearest vertex mention before the k-th child. */
  function PreviousVertex(dom: seq<DomNode>, k: nat): (r: Option<nat>)
    requires k <= |dom|
    ensures r.Some? ==> r.value < k && dom[r.value].IsVertexSpan()
    ensures forall i :: (if r.Some? then r.value + 1 else 0) <= i < k ==> !dom[i].IsVertexSpan()
  {
    if k == 0 then None
    else if dom[k - 1].IsVertexSpan() then Some(k - 1)
    else PreviousVertex(dom, k - 1)
  }

  /** The offset the page computes for a point. */
  function OffsetOf(dom: seq<DomNode>, p: Point, transform: int -> int): int
    requires p.child < |dom|
  {
    var node := dom[p.child];
    p.offset +
    if node.IsVertexSpan() then transform(node.start)
    else if node.Span? then Before(dom, |dom|)
    else match PreviousVertex(dom, p.child)
      case None => Before(dom, p.child)
      case Some(j) => transform(dom[j].end) + (Before(dom, p.child) - Before(dom, j + 1))
  }

  /** The number of characters in front of a point. */
  function Absolute(dom: seq<DomNode>, p: Point): int
    requires p.child < |dom|
  {
    Before(dom, p.child) + p.before + p.offset
  }

  /** A mention, with the number of characters shown before it. */
  datatype Mention = Mention(at: nat, isVertex: bool, start: int, end: int, text: string)

  function MentionIn(at: nat, span: DomNode): Mention
    requires span.Span?
  {
    Mention(at, span.isVertex, span.start, span.end, span.text)
  }

  function Mentions(dom: seq<DomNode>): seq<Mention> {
    if dom == [] then []
    else
      var front, last := dom[..|dom| - 1], dom[|dom| - 1];
      Mentions(front) + if last.IsMention() then [MentionIn(|Content(front)|, last)] else []
  }

  lemma {:induction false} MentionAt(dom: seq<DomNode>, k: nat)
    requires k < |dom| && dom[k].IsMention()
    ensures MentionIn(Before(dom, k), dom[k]) in Mentions(dom)
  {
    var n := |dom| - 1;
    if k == n {
    } else {
      MentionAt(dom[..n], k);
      assert dom[..n][..k] == dom[..k];
    }
  }

  lemma {:induction false} MentionOf(dom: seq<DomNode>, m: Mention) returns (k: nat)
    requires m in Mentions(dom)
    ensures k < |dom| && dom[k].IsMention() && m == MentionIn(Before(dom, k), dom[k])
  {
    var n := |dom| - 1;
    if dom[n].IsMention() && m == MentionIn(|Content(dom[..n])|, dom[n]) {
      k := n;
    } else {
      k := MentionOf(dom[..n], m);
      assert dom[..n][..k] == dom[..k];
    }
  }

  /** A mention carries the offsets at which it really stands, as far as anything is shown from its start, and after its end. */
  ghost predicate PlacedAmong(m: Mention, total: nat, transform: int -> int) {
    && (m.at < total ==> transform(m.start) == m.at)
    && (m.at + |m.text| < total ==> transform(m.end) == m.at + |m.text|)
  }

  /** Every vertex mention carries the offsets at which it really stands. */
  ghost predicate Anchored(dom: seq<DomNode>, transform: int -> int) {
    forall m :: m in Mentions(dom) && m.isVertex ==> PlacedAmong(m, |Content(dom)|, transform)
  }

  /** The mention from which the page counts for a point carries the right offset. */
  ghost predicate CountedFrom(dom: seq<DomNode>, p: Point, transform: int -> int)
    requires p.child < |dom|
  {
    var node := dom[p.child];
    && (node.IsVertexSpan() ==> transform(node.start) == Before(dom, p.child))
    && (node.TextNode? ==>
          match PreviousVertex(dom, p.child)
          case None => true
          case Some(j) => transform(dom[j].end) == Before(dom, j + 1))
  }

  /** On an anchored page that holds wherever anything is shown from the child on. */
  lemma {:induction false} AnchoredCounts(dom: seq<DomNode>, p: Point, transform: int -> int)
    requires Anchored(dom, transform) && p.child < |dom| && Before(dom, p.child) < |Content(dom)|
    ensures CountedFrom(dom, p, transform)
  {
    var node := dom[p.child];
    if node.IsVertexSpan() {
      MentionAt(dom, p.child);
    }
    if node.TextNode? && PreviousVertex(dom, p.child).Some? {
      var j := PreviousVertex(dom, p.child).value;
      MentionAt(dom, j);
      BeforeNext(dom, j);
      BeforeMonotone(dom, j + 1, p.child);
    }
  }

  /**
   Counting from the last mention gives the plain character count in the text of the page
   itself; in a mention, exactly up to its first line break; in any other element, whose
   nodes the walk never meets, only when nothing is shown from the point's node on.
   */
  lemma {:induction false} OffsetIsCharacterCount(dom: seq<DomNode>, p: Point, transform: int -> int)
    requires InChild(dom, p) && CountedFrom(dom, p, transform)
    ensures OffsetOf(dom, p, transform) == Absolute(dom, p)
       <==> (dom[p.child].Span? ==> if dom[p.child].isVertex then p.before == 0
                                    else Before(dom, p.child) + p.before == |Content(dom)|)
  {
    assert dom[..|dom|] == dom;
  }

  /** The page's walk for one point. */
  method OffsetForNode(dom: seq<DomNode>, p: Point, transform: int -> int) returns (r: int)
    requires p.child < |dom|
    ensures r == OffsetOf(dom, p, transform)
  {
    var node := dom[p.child];
    var offset := 0;
    if node.IsVertexSpan() {
      offset := transform(node.start);
    } else {
      // inside an element other than a vertex mention there is no sibling to count from,
      // and the walk over the children of the text element never meets the node
      var nested := node.Span?;
      var previousEntity := if nested then None else PreviousVertex(dom, p.child);
      var i: nat := 0;
      ghost var from := 0;
      if previousEntity.Some? {
        offset := transform(dom[previousEntity.value].end);
        i := previousEntity.value + 1;
      }
      ghost var first, base := i, offset;
      while i < |dom| && (nested || i != p.child)
        invariant first <= i <= |dom| && (!nested ==> i <= p.child)
        invariant offset == base + Before(dom, i) - Before(dom, first)
      {
        BeforeNext(dom, i);
        offset := offset + |dom[i].text|;
        i := i + 1;
      }
    }
    r := offset + p.offset;
  }

  // ---------------------------------------------------------------- the sort of the offsets

  /** A computed offset with the position of its point in the input. */
  datatype Indexed = Indexed(value: int, index: nat)
  {
    /** What the library's sortBy compares: the callback is given the value and its index. */
    function Key(): int { value - index }
  }

  function InsertByKey(x: Indexed, xs: seq<Indexed>): seq<Indexed> {
    if xs == [] || xs[0].Key() > x.Key() then [x] + xs else [xs[0]] + InsertByKey(x, xs[1..])
  }

  function SortByKey(xs: seq<int>): seq<Indexed> {
    if xs == [] then []
    else InsertByKey(Indexed(xs[|xs| - 1], |xs| - 1), SortByKey(xs[..|xs| - 1]))
  }

  function Values(xs: seq<Indexed>): (r: seq<int>)
    ensures |r| == |xs|
  {
    seq(|xs|, i requires 0 <= i < |xs| => xs[i].value)
  }

  ghost predicate Increasing(xs: seq<int>) {
    forall i, j :: 0 <= i < j < |xs| ==> xs[i] <= xs[j]
  }

  predicate Precedes(a: Indexed, b: Indexed) {
    a.Key() < b.Key() || (a.Key() == b.Key() && a.index < b.index)
  }

  ghost predicate ByKey(xs: seq<Indexed>) {
    forall i, j :: 0 <= i < j < |xs| ==> Precedes(xs[i], xs[j])
  }

  lemma ConsByKey(x: Indexed, xs: seq<Indexed>)
    requires ByKey(xs) && forall y :: y in xs ==> Precedes(x, y)
    ensures ByKey([x] + xs)
  {
    var r := [x] + xs;
    forall i, j | 0 <= i < j < |r| ensures Precedes(r[i], r[j]) {
      assert r[j] == xs[j - 1] && xs[j - 1] in xs;
    }
  }

  lemma {:induction false} InsertByKeyFacts(x: Indexed, xs: seq<Indexed>)
    requires ByKey(xs) && forall y :: y in xs ==> y.index < x.index
    ensures ByKey(InsertByKey(x, xs))
    ensures forall y :: y in InsertByKey(x, xs) <==> y == x || y in xs
  {
    if xs == [] {
    } else {
      var head, tail := xs[0], xs[1..];
      assert xs == [head] + tail;
      assert forall y :: y in tail ==> Precedes(head, y);
      if head.Key() > x.Key() {
        ConsByKey(x, xs);
      } else {
        InsertByKeyFacts(x, tail);
        ConsByKey(head, InsertByKey(x, tail));
      }
    }
  }

  lemma {:induction false} SortByKeyFacts(xs: seq<int>)
    ensures ByKey(SortByKey(xs))
    ensures forall y :: y in SortByKey(xs) <==> y.index < |xs| && y.value == xs[y.index]
  {
    if xs == [] {
    } else {
      SortByKeyFacts(xs[..|xs| - 1]);
      InsertByKeyFacts(Indexed(xs[|xs| - 1], |xs| - 1), SortByKey(xs[..|xs| - 1]));
    }
  }

  /** A later value exceeds an earlier one by less than the distance between them. */
  ghost predicate TooClose(xs: seq<int>, i: nat, j: nat) {
    i < j < |xs| && xs[i] < xs[j] < xs[i] + (j - i)
  }

  /** Sorting by value minus index sorts the values exactly when no later value is too close above an earlier one. */
  lemma SortedExactlyUnlessTooClose(xs: seq<int>)
    ensures Increasing(Values(SortByKey(xs))) <==> !exists i, j :: TooClose(xs, i, j)
  {
    var s := SortByKey(xs);
    SortByKeyFacts(xs);
    if i: nat, j: nat :| TooClose(xs, i, j) {
      var a, b := Indexed(xs[i], i), Indexed(xs[j], j);
      assert a in s && b in s;
      var m :| 0 <= m < |s| && s[m] == a;
      var n :| 0 <= n < |s| && s[n] == b;
      assert n < m;
      assert Values(s)[n] > Values(s)[m];
    } else {
      forall m, n | 0 <= m < n < |s| ensures Values(s)[m] <= Values(s)[n] {
        assert s[m] in s && s[n] in s && Precedes(s[m], s[n]);
        assert !TooClose(xs, s[n].index, s[m].index);
      }
    }
  }

  /** The two ends of a selection are always put in order, whichever comes first; three offsets may not be. */
  lemma SelectionIsSorted(a: int, b: int)
    ensures Values(SortByKey([a, b])) == [Min(a, b), Max(a, b)]
    ensures !Increasing(Values(SortByKey([3, 5, 4])))
  {
    var x, y := Indexed(a, 0), Indexed(b, 1);
    assert [a, b][..1] == [a] && [a][..0] == [];
    assert SortByKey([a]) == InsertByKey(x, []) == [x];
    assert InsertByKey(y, []) == [y];
    assert SortByKey([a, b]) == InsertByKey(y, [x]) == if a > b - 1 then [y, x] else [x, y];
    SortedExactlyUnlessTooClose([3, 5, 4]);
    assert TooClose([3, 5, 4], 0, 2);
  }

  /** offsetsForText: the offsets of some points, then the library's sort. */
  method OffsetsForText(dom: seq<DomNode>, points: seq<Point>, transform: int -> int) returns (r: seq<int>)
    requires forall i :: 0 <= i < |points| ==> points[i].child < |dom|
    ensures r == Values(SortByKey(seq(|points|, i requires 0 <= i < |points| => OffsetOf(dom, points[i], transform))))
  {
    var offsets := [];
    for n := 0 to |points|
      invariant |offsets| == n
      invariant forall i :: 0 <= i < n ==> offsets[i] == OffsetOf(dom, points[i], transform)
    {
      var offset := OffsetForNode(dom, points[n], transform);
      offsets := offsets + [offset];
    }
    assert offsets == seq(|points|, i requires 0 <= i < |points| => OffsetOf(dom, points[i], transform));
    r := Values(SortByKey(offsets));
  }

  // ---------------------------------------------------------------- document to page

  /** Merges adjacent text nodes and drops empty ones, as the element's normalize does. */
  function Normalize(dom: seq<DomNode>): seq<DomNode> {
    if dom == [] then []
    else
      var front, last := Normalize(dom[..|dom| - 1]), dom[|dom| - 1];
      if last.Span? then front + [last]
      else if last.text == "" then front
      else if front != [] && front[|front| - 1].TextNode?
        then front[..|front| - 1] + [TextNode(front[|front| - 1].text + last.text)]
      else front + [last]
  }

  /** The children in which highlightOffsets starts and ends its range, and the offsets local to them. */
  datatype Range = Range(start: Option<Point>, end: Option<Point>)

  /** No text node among the first n children reaches the offset. */
  ghost predicate NoStart(dom: seq<DomNode>, offset: int, n: nat)
    requires n <= |dom|
  {
    forall k :: 0 <= k < n ==> After(dom, k) < offset || !dom[k].HasContainer()
  }

  ghost predicate IsStart(dom: seq<DomNode>, offset: int, p: Option<Point>) {
    match p
    case None => NoStart(dom, offset, |dom|)
    case Some(p) =>
      && p.child < |dom| && dom[p.child].HasContainer() && p.before == 0
      && Absolute(dom, p) == offset <= After(dom, p.child)
      && NoStart(dom, offset, p.child)
  }

  /** No text node among the first n children goes beyond the offset. */
  ghost predicate NoEnd(dom: seq<DomNode>, offset: int, n: nat)
    requires n <= |dom|
  {
    forall k :: 0 <= k < n ==> After(dom, k) <= offset
  }

  ghost predicate IsEnd(dom: seq<DomNode>, offset: int, p: Option<Point>) {
    match p
    case None => NoEnd(dom, offset, |dom|)
    case Some(p) =>
      && p.child < |dom| && dom[p.child].HasContainer() && p.before == 0
      && Absolute(dom, p) == offset < After(dom, p.child)
      && NoEnd(dom, offset, p.child)
  }

  /** The state of the search for the start after i children: found at a base, or not yet. */
  ghost predicate StartState(dom: seq<DomNode>, offset: nat, i: nat, found: Option<nat>, base: nat) {
    i <= |dom| &&
    match found
    case None => base == Before(dom, i) && NoStart(dom, offset, i) && (base < offset || base == 0)
    case Some(k) => k < i && base == Before(dom, k) && IsStart(dom, offset, Some(Point(k, 0, offset - base)))
  }

  ghost predicate EndState(dom: seq<DomNode>, offset: nat, i: nat, found: Option<nat>, base: nat) {
    i <= |dom| &&
    match found
    case None => base == Before(dom, i) <= offset && NoEnd(dom, offset, i)
    case Some(k) => k < i && base == Before(dom, k) && IsEnd(dom, offset, Some(Point(k, 0, offset - base)))
  }

  lemma StartStep(dom: seq<DomNode>, offset: nat, i: nat, base: nat)
    requires StartState(dom, offset, i, None, base) && i < |dom|
    ensures var toAdd := |dom[i].text|;
            if base + toAdd < offset then StartState(dom, offset, i + 1, None, base + toAdd)
            else if dom[i].HasContainer() then StartState(dom, offset, i + 1, Some(i), base)
            else StartState(dom, offset, i + 1, None, base) && base == 0
  {
    BeforeNext(dom, i);
  }

  lemma EndStep(dom: seq<DomNode>, offset: nat, i: nat, base: nat)
    requires EndState(dom, offset, i, None, base) && i < |dom|
    ensures var toAdd := |dom[i].text|;
            if base + toAdd <= offset then EndState(dom, offset, i + 1, None, base + toAdd)
            else dom[i].HasContainer() && EndState(dom, offset, i + 1, Some(i), base)
  {
    BeforeNext(dom, i);
  }

  lemma StatesDone(
      dom: seq<DomNode>, startOffset: nat, endOffset: nat, i: nat,
      start: Option<nat>, startBase: nat, end: Option<nat>, endBase: nat)
    requires StartState(dom, startOffset, i, start, startBase) || (start.Some? && StartState(dom, startOffset, i + 1, start, startBase))
    requires EndState(dom, endOffset, i, end, endBase) || (end.Some? && EndState(dom, endOffset, i + 1, end, endBase))
    requires start.None? || end.None? ==> i == |dom|
    ensures IsStart(dom, startOffset, if start.Some? then Some(Point(start.value, 0, startOffset - startBase)) else None)
    ensures IsEnd(dom, endOffset, if end.Some? then Some(Point(end.value, 0, endOffset - endBase)) else None)
  {
  }

  /** The element whose children are the text nodes and spans. */
  class TextElement {
    var childNodes: seq<DomNode>

    constructor (childNodes: seq<DomNode>)
      ensures this.childNodes == childNodes
    {
      this.childNodes := childNodes;
    }

    /** The search of highlightOffsets: one pass that looks for both ends of the range. */
    method HighlightOffsets(startOffset: nat, endOffset: nat) returns (r: Range)
      modifies this
      ensures childNodes == Normalize(old(childNodes))
      ensures IsStart(childNodes, startOffset, r.start)
      ensures IsEnd(childNodes, endOffset, r.end)
    {
      childNodes := Normalize(childNodes);
      r := FindRange(childNodes, startOffset, endOffset);
    }
  }

  method FindRange(childNodes: seq<DomNode>, startOffset: nat, endOffset: nat) returns (r: Range)
    ensures IsStart(childNodes, startOffset, r.start)
    ensures IsEnd(childNodes, endOffset, r.end)
  {
    var startContainer: Option<nat>, endContainer: Option<nat> := None, None;
    var startBase: nat, endBase: nat := 0, 0;
    var i: nat := 0;
    while i < |childNodes|
      invariant StartState(childNodes, startOffset, i, startContainer, startBase)
      invariant EndState(childNodes, endOffset, i, endContainer, endBase)
      invariant startContainer.None? && endContainer.Some? ==> startBase > 0
    {
      var toAdd := |childNodes[i].text|;
      var node := if childNodes[i].HasContainer() then Some(i) else None;
      if startContainer.None? {
        StartStep(childNodes, startOffset, i, startBase);
        if startBase + toAdd >= startOffset {
          startContainer := node;
          if endContainer.Some? { break; }
        } else {
          startBase := startBase + toAdd;
        }
      }
      if endContainer.None? {
        EndStep(childNodes, endOffset, i, endBase);
        if endBase + toAdd > endOffset {
          endContainer := node;
          if startContainer.Some? { break; }
        } else {
          endBase := endBase + toAdd;
        }
      }
      i := i + 1;
    }
    StatesDone(childNodes, startOffset, endOffset, i, startContainer, startBase, endContainer, endBase);
    r := Range(
      if startContainer.Some? then Some(Point(startContainer.value, 0, startOffset - startBase)) else None,
      if endContainer.Some? then Some(Point(endContainer.value, 0, endOffset - endBase)) else None);
  }

  /** Both ends are found exactly when the start is on a non-empty page and the end before its last character is passed. */
  lemma {:induction false} RangeFoundExactly(dom: seq<DomNode>, startOffset: nat, endOffset: nat, r: Range)
    requires IsStart(dom, startOffset, r.start) && IsEnd(dom, endOffset, r.end)
    ensures r.end.Some? <==> endOffset < |Content(dom)|
    ensures Content(dom) != "" ==> (r.start.Some? <==> startOffset <= |Content(dom)|)
  {
    var n := |dom|;
    assert dom[..n] == dom;
    if r.end.Some? {
      BeforeMonotone(dom, r.end.value.child + 1, n);
    } else if n > 0 {
      assert After(dom, n - 1) <= endOffset;
    }
    if r.start.Some? {
      BeforeMonotone(dom, r.start.value.child + 1, n);
    } else if Content(dom) != "" {
      var k := LastShown(dom);
      assert After(dom, k) < startOffset;
    }
  }

  /** The last child that shows any text. */
  lemma {:induction false} LastShown(dom: seq<DomNode>) returns (k: nat)
    requires Content(dom) != ""
    ensures k < |dom| && dom[k].text != "" && Before(dom, k + 1) == |Content(dom)|
  {
    if dom[|dom| - 1].text != "" {
      k := |dom| - 1;
      assert dom[..k + 1] == dom;
    } else {
      var front := dom[..|dom| - 1];
      k := LastShown(front);
      assert dom[..k + 1] == front[..k + 1];
    }
  }

  /** Can a range begin or end at the point? An offset beyond the node's text is an error. */
  predicate Selectable(dom: seq<DomNode>, p: Point) {
    p.child < |dom| && 0 <= p.offset <= |dom[p.child].ContainerText()|
  }

  /** Selecting the range and reading the selection: an error when an end lies beyond its node, otherwise the sorted offsets. */
  function ReadBack(dom: seq<DomNode>, r: Range, transform: int -> int): Option<seq<int>> {
    if r.start.Some? && r.end.Some? && Selectable(dom, r.start.value) && Selectable(dom, r.end.value)
    then Some(Values(SortByKey([OffsetOf(dom, r.start.value, transform), OffsetOf(dom, r.end.value, transform)])))
    else None
  }

  /** Nodes from which the walk can count: the text of the page itself, and vertex mentions. */
  predicate Counts(node: DomNode) {
    node.TextNode? || node.isVertex
  }

  lemma {:induction false} NoStartWithin(dom: seq<DomNode>, offset: nat, n: nat)
    requires n <= |dom| && NoStart(dom, offset, n)
    ensures Before(dom, n) <= offset
  {
    if n == 0 {
    } else {
      BeforeNext(dom, n - 1);
      NoStartWithin(dom, offset, n - 1);
    }
  }

  lemma NoEndWithin(dom: seq<DomNode>, offset: nat, n: nat)
    requires n <= |dom| && NoEnd(dom, offset, n)
    ensures Before(dom, n) <= offset
  {
    assert n > 0 ==> After(dom, n - 1) <= offset;
  }

  lemma {:induction false} CountsExactly(dom: seq<DomNode>, p: Point, offset: nat, transform: int -> int)
    requires p.child < |dom| && p.before == 0 && Anchored(dom, transform)
    requires Absolute(dom, p) == offset < |Content(dom)| && Before(dom, p.child) <= offset
    ensures if Counts(dom[p.child]) then OffsetOf(dom, p, transform) == offset
            else OffsetOf(dom, p, transform) >= |Content(dom)|
  {
    AnchoredCounts(dom, p, transform);
    OffsetIsCharacterCount(dom, p, transform);
    assert dom[..|dom|] == dom;
  }

  /**
   A range of the page is read back from the selection unchanged exactly when each of its
   ends lies in the text of the page, or in a mention in front of its first line break.
   */
  lemma {:induction false} RangeRoundTripsExactly(
      dom: seq<DomNode>, startOffset: nat, endOffset: nat, r: Range, transform: int -> int)
    requires startOffset <= endOffset < |Content(dom)|
    requires IsStart(dom, startOffset, r.start) && IsEnd(dom, endOffset, r.end)
    requires Anchored(dom, transform)
    ensures r.start.Some? && r.end.Some?
    ensures ReadBack(dom, r, transform) == Some([startOffset, endOffset])
       <==> && Counts(dom[r.start.value.child]) && startOffset - Before(dom, r.start.value.child)
                                                   <= |dom[r.start.value.child].ContainerText()|
            && Counts(dom[r.end.value.child]) && endOffset - Before(dom, r.end.value.child)
                                                 <= |dom[r.end.value.child].ContainerText()|
  {
    RangeFoundExactly(dom, startOffset, endOffset, r);
    NoStartWithin(dom, startOffset, r.start.value.child);
    NoEndWithin(dom, endOffset, r.end.value.child);
    CountsExactly(dom, r.start.value, startOffset, transform);
    CountsExactly(dom, r.end.value, endOffset, transform);
    SelectionIsSorted(OffsetOf(dom, r.start.value, transform), OffsetOf(dom, r.end.value, transform));
  }

  // ---------------------------------------------------------------- normalising keeps the page

  lemma ContentSnoc(dom: seq<DomNode>, node: DomNode)
    ensures Content(dom + [node]) == Content(dom) + node.text
  {
    assert (dom + [node])[..|dom|] == dom;
  }

  lemma MentionsSnoc(dom: seq<DomNode>, node: DomNode)
    ensures Mentions(dom + [node])
         == Mentions(dom) + if node.IsMention() then [MentionIn(|Content(dom)|, node)] else []
  {
    assert (dom + [node])[..|dom|] == dom;
  }

  lemma ExtendLast(page: seq<DomNode>, more: string)
    requires page != [] && page[|page| - 1].TextNode?
    ensures var longer := page[..|page| - 1] + [TextNode(page[|page| - 1].text + more)];
            Content(longer) == Content(page) + more && Mentions(longer) == Mentions(page)
  {
    var head, last := page[..|page| - 1], page[|page| - 1];
    assert page == head + [last];
    ContentSnoc(head, last);
    MentionsSnoc(head, last);
    ContentSnoc(head, TextNode(last.text + more));
    MentionsSnoc(head, TextNode(last.text + more));
    Associative(Content(head), last.text, more);
  }

  lemma AddBreaks(page: seq<DomNode>, node: DomNode)
    requires node.TextNode?
    ensures Content(page + [LINE_BREAK, LINE_BREAK, node]) == Content(page) + node.text
    ensures Mentions(page + [LINE_BREAK, LINE_BREAK, node]) == Mentions(page)
  {
    var one := page + [LINE_BREAK];
    var two := one + [LINE_BREAK];
    assert page + [LINE_BREAK, LINE_BREAK, node] == two + [node];
    ContentSnoc(page, LINE_BREAK);
    ContentSnoc(one, LINE_BREAK);
    ContentSnoc(two, node);
    MentionsSnoc(page, LINE_BREAK);
    MentionsSnoc(one, LINE_BREAK);
    MentionsSnoc(two, node);
  }

  /** Normalising neither moves a character nor a vertex mention. */
  lemma {:induction false} NormalizeKeepsPage(dom: seq<DomNode>)
    ensures Content(Normalize(dom)) == Content(dom)
    ensures Mentions(Normalize(dom)) == Mentions(dom)
    ensures forall n :: n in Normalize(dom) && n.TextNode? ==> n.text != ""
  {
    if dom == [] {
    } else {
      var init, last := dom[..|dom| - 1], dom[|dom| - 1];
      assert dom == init + [last];
      NormalizeKeepsPage(init);
      var front := Normalize(init);
      if last.TextNode? && last.text != "" && front != [] && front[|front| - 1].TextNode? {
        ExtendLast(front, last.text);
      } else if last.Span? || last.text != "" {
        ContentSnoc(front, last);
        MentionsSnoc(front, last);
      }
    }
  }

  // ---------------------------------------------------------------- the page of a highlighted text

  /** The text as shown, a no-break space having become a space. */
  function PageText(s: string): (r: string)
    ensures |r| == |s|
  {
    seq(|s|, i requires 0 <= i < |s| => if s[i] == Html.NBSP then ' ' else s[i])
  }

  const LINE_BREAK := Span(false, 0, 0, "")

  /** One more character of a text: a run of newlines begins with two line breaks, and text grows its node. */
  function AddChar(page: seq<DomNode>, c: char, startsRun: bool): seq<DomNode> {
    var n := |page| - 1;
    if startsRun then page + [LINE_BREAK, LINE_BREAK, TextNode([c])]
    else if page != [] && page[n].TextNode? then page[..n] + [TextNode(page[n].text + [c])]
    else page + [TextNode([c])]
  }

  /** Is the last character the first of a run of newlines? */
  predicate StartsRun(s: string)
    requires s != ""
  {
    var n := |s| - 1;
    s[n] == '\n' && (n == 0 || s[n - 1] != '\n')
  }

  /** A piece of text as the page shows it: two line breaks are put in front of every run of newlines. */
  function WithBreaks(s: string): seq<DomNode> {
    var n := |s| - 1;
    if s == "" then []
    else AddChar(WithBreaks(s[..n]), s[n], StartsRun(s))
  }

  /** The children a browser builds from flat output: text with line breaks, one element per span. */
  function PageOf(ps: seq<Piece>): seq<DomNode> {
    var n := |ps|;
    if n == 0 then []
    else if ps[n - 1].Chunk? then PageOf(ps[..n - 1]) + WithBreaks(PageText(ps[n - 1].text))
    else if n >= 3 && ps[n - 1].Close? && ps[n - 2].Chunk? && ps[n - 3].Open? then
      PageOf(ps[..n - 3]) + [SpanOf(ps[n - 3].item, ps[n - 2].text)]
    else []
  }

  /** The page finds vertex mentions by the class name "vertex". */
  function SpanOf(item: OffsetItem, text: string): DomNode {
    Span("vertex" in item.cssClasses, item.rawStart, item.rawEnd, PageText(text))
  }

  /** The text of the page is what a browser reads of the text displayed. */
  lemma PageTextIsDecoded(s: string)
    ensures PageText(s) == Html.Decode(Html.DisplayText(s))
  {
    Html.DecodeAfterDisplay(s);
  }

  lemma PageTextConcat(a: string, b: string)
    ensures PageText(a + b) == PageText(a) + PageText(b)
  {
  }

  lemma {:induction false} ConcatPage(a: seq<DomNode>, b: seq<DomNode>)
    requires Mentions(b) == []
    ensures Content(a + b) == Content(a) + Content(b)
    ensures Mentions(a + b) == Mentions(a)
  {
    if b == [] {
      assert a + b == a;
    } else {
      var n := |b| - 1;
      assert b == b[..n] + [b[n]];
      MentionsSnoc(b[..n], b[n]);
      ConcatPage(a, b[..n]);
      assert a + b == (a + b[..n]) + [b[n]];
      ContentSnoc(a + b[..n], b[n]);
      MentionsSnoc(a + b[..n], b[n]);
      Associative(Content(a), Content(b[..n]), b[n].text);
    }
  }

  lemma AddCharFacts(page: seq<DomNode>, c: char, startsRun: bool)
    ensures Content(AddChar(page, c, startsRun)) == Content(page) + [c]
    ensures Mentions(AddChar(page, c, startsRun)) == Mentions(page)
  {
    if startsRun {
      AddBreaks(page, TextNode([c]));
    } else if page != [] && page[|page| - 1].TextNode? {
      ExtendLast(page, [c]);
    } else {
      ContentSnoc(page, TextNode([c]));
      MentionsSnoc(page, TextNode([c]));
    }
  }

  lemma WithBreaksNext(front: string, c: char)
    ensures Content(WithBreaks(front + [c])) == Content(WithBreaks(front)) + [c]
    ensures Mentions(WithBreaks(front + [c])) == Mentions(WithBreaks(front))
  {
    DropLast(front, c);
    AddCharFacts(WithBreaks(front), c, StartsRun(front + [c]));
  }

  /** How many line breaks stand where that many characters are shown before. */
  function BreaksAt(dom: seq<DomNode>, at: nat): nat {
    if dom == [] then 0
    else
      var front, last := dom[..|dom| - 1], dom[|dom| - 1];
      BreaksAt(front, at) + if last == Span(false, 0, 0, "") && |Content(front)| == at then 1 else 0
  }

  lemma BreaksSnoc(dom: seq<DomNode>, node: DomNode, at: nat)
    ensures BreaksAt(dom + [node], at)
         == BreaksAt(dom, at) + if node == Span(false, 0, 0, "") && |Content(dom)| == at then 1 else 0
  {
    DropLast(dom, node);
  }

  lemma AddCharBreaks(page: seq<DomNode>, c: char, startsRun: bool, at: nat)
    ensures BreaksAt(AddChar(page, c, startsRun), at)
         == BreaksAt(page, at) + if startsRun && |Content(page)| == at then 2 else 0
  {
    if startsRun {
      var one := page + [LINE_BREAK];
      var two := one + [LINE_BREAK];
      assert AddChar(page, c, startsRun) == two + [TextNode([c])];
      ContentSnoc(page, LINE_BREAK);
      ContentSnoc(one, LINE_BREAK);
      BreaksSnoc(page, LINE_BREAK, at);
      BreaksSnoc(one, LINE_BREAK, at);
      BreaksSnoc(two, TextNode([c]), at);
    } else if page != [] && page[|page| - 1].TextNode? {
      var front, last := page[..|page| - 1], page[|page| - 1];
      assert page == front + [last];
      BreaksSnoc(front, last, at);
      BreaksSnoc(front, TextNode(last.text + [c]), at);
    } else {
      BreaksSnoc(page, TextNode([c]), at);
    }
  }

  /** Two line breaks stand exactly where a run of newlines begins. */
  lemma {:induction false} BreaksBeforeRunsExactly(s: string, at: nat)
    ensures BreaksAt(WithBreaks(s), at)
         == if at < |s| && s[at] == '\n' && (at == 0 || s[at - 1] != '\n') then 2 else 0
  {
    if s == "" {
    } else {
      var front, c := s[..|s| - 1], s[|s| - 1];
      BreaksBeforeRunsExactly(front, at);
      WithBreaksFacts(front);
      AddCharBreaks(WithBreaks(front), c, StartsRun(s), at);
    }
  }

  /** Line breaks show no text and are no mentions. */
  lemma {:induction false} WithBreaksFacts(s: string)
    ensures Content(WithBreaks(s)) == s && Mentions(WithBreaks(s)) == []
  {
    if s == "" {
    } else {
      var front, c := s[..|s| - 1], s[|s| - 1];
      assert s == front + [c];
      WithBreaksFacts(front);
      WithBreaksNext(front, c);
    }
  }

  /** The mention of an item, where its clamped offsets say. */
  function MentionFor(text: string, item: OffsetItem): Mention {
    Mention(Clamp(text, item.Start()), "vertex" in item.cssClasses, item.rawStart, item.rawEnd,
            PageText(Slice(text, item.Start(), item.End())))
  }

  function ItemMentions(text: string, items: seq<OffsetItem>): seq<Mention> {
    if items == [] then []
    else
      var m := MentionFor(text, items[|items| - 1]);
      ItemMentions(text, items[..|items| - 1]) + if m.isVertex || m.text != "" then [m] else []
  }

  lemma {:induction false} ItemMentionsMembers(text: string, items: seq<OffsetItem>)
    ensures forall m :: m in ItemMentions(text, items) <==>
              (m.isVertex || m.text != "") && exists c :: c in items && m == MentionFor(text, c)
  {
    if items == [] {
    } else {
      var front, last := items[..|items| - 1], items[|items| - 1];
      ItemMentionsMembers(text, front);
      assert items == front + [last];
    }
  }

  /** The page after some items: it shows the text up to an offset, and its mentions are those of the items, in order. */
  ghost predicate PageUpTo(text: string, items: seq<OffsetItem>, page: seq<DomNode>, at: nat) {
    && at <= |text| && Content(page) == PageText(text[..at])
    && Mentions(page) == ItemMentions(text, items)
  }

  lemma AddNodes(
      text: string, items: seq<OffsetItem>, page: seq<DomNode>, at: nat, to: nat, nodes: seq<DomNode>)
    requires PageUpTo(text, items, page, at) && at <= to <= |text|
    requires Content(nodes) == PageText(text[at..to]) && Mentions(nodes) == []
    ensures PageUpTo(text, items, page + nodes, to)
  {
    ConcatPage(page, nodes);
    PageTextConcat(text[..at], text[at..to]);
    JoinSlices(text, at, to);
  }

  lemma AddText(text: string, items: seq<OffsetItem>, page: seq<DomNode>, at: nat, to: nat)
    requires PageUpTo(text, items, page, at) && at <= to <= |text|
    ensures PageUpTo(text, items, page + WithBreaks(PageText(text[at..to])), to)
  {
    var chunk := PageText(text[at..to]);
    WithBreaksFacts(chunk);
    AddNodes(text, items, page, at, to, WithBreaks(chunk));
  }

  lemma AddSpan(text: string, items: seq<OffsetItem>, page: seq<DomNode>, item: OffsetItem)
    requires InOrder(text, item) && PageUpTo(text, items, page, Clamp(text, item.Start()))
    ensures PageUpTo(text, items + [item], page + [SpanOf(item, Slice(text, item.Start(), item.End()))],
                     Clamp(text, item.End()))
  {
    var from, to := Clamp(text, item.Start()), Clamp(text, item.End());
    var span := SpanOf(item, text[from..to]);
    ContentSnoc(page, span);
    MentionsSnoc(page, span);
    PageTextConcat(text[..from], text[from..to]);
    assert text[..from] + text[from..to] == text[..to];
    DropLast(items, item);
  }

  lemma PageOfSpan(ps: seq<Piece>, a: string, item: OffsetItem, b: string)
    ensures PageOf(ps + [Chunk(a), Open(item), Chunk(b), Close])
         == PageOf(ps) + WithBreaks(PageText(a)) + [SpanOf(item, b)]
  {
    var all := ps + [Chunk(a), Open(item), Chunk(b), Close];
    assert all[..|all| - 3] == ps + [Chunk(a)];
    assert (ps + [Chunk(a)])[..|ps|] == ps;
  }

  lemma FlatPageNext(text: string, front: seq<OffsetItem>, ps: seq<Piece>, item: OffsetItem)
    requires PageUpTo(text, front, PageOf(ps), Clamp(text, LastEnd(front)))
    requires InOrder(text, item) && Clamp(text, LastEnd(front)) <= Clamp(text, item.Start())
    ensures var a, b := Slice(text, LastEnd(front), item.Start()), Slice(text, item.Start(), item.End());
            PageUpTo(text, front + [item], PageOf(ps + [Chunk(a), Open(item), Chunk(b), Close]), Clamp(text, item.End()))
  {
    var a := Slice(text, LastEnd(front), item.Start());
    AddText(text, front, PageOf(ps), Clamp(text, LastEnd(front)), Clamp(text, item.Start()));
    AddSpan(text, front, PageOf(ps) + WithBreaks(PageText(a)), item);
    PageOfSpan(ps, a, item, Slice(text, item.Start(), item.End()));
  }

  lemma {:induction false} FlatPage(text: string, items: seq<OffsetItem>)
    requires AllVertices(items) && VerticesDisjoint(items)
    requires forall i :: 0 <= i < |items| ==> InOrder(text, items[i])
    ensures PageUpTo(text, items, PageOf(FlatPieces(text, items)), Clamp(text, LastEnd(items)))
  {
    if items == [] {
      assert text[..0] == "";
    } else {
      var front, item := items[..|items| - 1], items[|items| - 1];
      DisjointFront(items);
      FlatPage(text, front);
      FlatPageNext(text, front, FlatPieces(text, front), item);
      assert front + [item] == items;
    }
  }

  /** The page built from the highlighted text. */
  function HighlightedPage(text: string, items: seq<OffsetItem>): seq<DomNode>
    requires Pieces(text, ItemsToShow(items)).Some?
  {
    PageOf(Pieces(text, ItemsToShow(items)).value)
  }

  /** The text in front of each item with line breaks, then the element of the item. */
  ghost function LaidOut(text: string, items: seq<OffsetItem>): seq<DomNode> {
    if items == [] then []
    else
      var front, item := items[..|items| - 1], items[|items| - 1];
      LaidOut(text, front)
      + WithBreaks(PageText(Slice(text, LastEnd(front), item.Start())))
      + [Span("vertex" in item.cssClasses, item.rawStart, item.rawEnd, PageText(Slice(text, item.Start(), item.End())))]
  }

  lemma {:induction false} FlatPageIsLaidOut(text: string, items: seq<OffsetItem>)
    ensures PageOf(FlatPieces(text, items)) == LaidOut(text, items)
  {
    if items == [] {
    } else {
      var front, item := items[..|items| - 1], items[|items| - 1];
      FlatPageIsLaidOut(text, front);
      PageOfSpan(FlatPieces(text, front), Slice(text, LastEnd(front), item.Start()), item,
                 Slice(text, item.Start(), item.End()));
    }
  }

  /** The page is laid out item by item, the rest of the text behind the last one. */
  lemma PageIsLaidOut(text: string, items: seq<OffsetItem>)
    requires AllVertices(items) && Pieces(text, ItemsToShow(items)).Some?
    ensures var shown := ItemsToShow(items);
            HighlightedPage(text, items) == LaidOut(text, shown) + WithBreaks(PageText(Slice(text, LastEnd(shown), |text|)))
  {
    var shown := ItemsToShow(items);
    ItemsToShowFacts(items);
    forall i | 0 <= i < |shown| ensures shown[i].isVertex {
      assert shown[i] in items;
    }
    VertexSpansAreFlat(text, shown);
    FlatPageIsLaidOut(text, shown);
    DropLast(FlatPieces(text, shown), Chunk(Slice(text, LastEnd(shown), |text|)));
  }

  /** The page shows exactly the document, and its mentions are the items shown, in order, each around its own text. */
  lemma PageShowsDocument(text: string, items: seq<OffsetItem>)
    requires AllVertices(items) && Pieces(text, ItemsToShow(items)).Some?
    ensures PageUpTo(text, ItemsToShow(items), HighlightedPage(text, items), |text|)
    ensures Content(HighlightedPage(text, items)) == PageText(text)
  {
    var shown := ItemsToShow(items);
    ItemsToShowFacts(items);
    forall i | 0 <= i < |shown| ensures shown[i].isVertex {
      assert shown[i] in items;
    }
    ThrowsExactlyOnReversedItem(text, shown);
    VertexSpansAreFlat(text, shown);
    FlatPage(text, shown);
    var ps, rest := FlatPieces(text, shown), Slice(text, LastEnd(shown), |text|);
    assert (ps + [Chunk(rest)])[..|ps|] == ps;
    AddText(text, shown, PageOf(ps), Clamp(text, LastEnd(shown)), |text|);
    assert text[..|text|] == text;
  }

  /** The page reads the raw offsets of a mention as the places where its span really starts and ends, unless nothing is shown from there on. */
  predicate PlacedRight(text: string, item: OffsetItem, transform: int -> int) {
    "vertex" in item.cssClasses ==>
      && (item.Start() < |text| ==> transform(item.rawStart) == item.Start())
      && (item.End() < |text| ==> transform(item.rawEnd) == item.End())
  }

  /**
   The mentions of the page carry the right places exactly when the transform of their raw
   offsets agrees with the twenty-bit ones, as far as these lie within the text.
   */
  lemma PageIsAnchoredExactly(text: string, items: seq<OffsetItem>, transform: int -> int)
    requires AllVertices(items) && Pieces(text, ItemsToShow(items)).Some?
    ensures Anchored(HighlightedPage(text, items), transform)
       <==> forall c :: c in ItemsToShow(items) ==> PlacedRight(text, c, transform)
  {
    var shown := ItemsToShow(items);
    var page := HighlightedPage(text, items);
    PageShowsDocument(text, items);
    ItemMentionsMembers(text, shown);
    ItemsToShowFacts(items);
    ThrowsExactlyOnReversedItem(text, shown);
    forall c | c in shown && "vertex" in c.cssClasses
      ensures PlacedAmong(MentionFor(text, c), |text|, transform) <==> PlacedRight(text, c, transform)
    {
      var i :| 0 <= i < |shown| && shown[i] == c;
      PlacedRightExactly(text, shown[i], transform);
    }
  }

  lemma PlacedRightExactly(text: string, item: OffsetItem, transform: int -> int)
    requires InOrder(text, item) && "vertex" in item.cssClasses
    ensures PlacedAmong(MentionFor(text, item), |text|, transform) <==> PlacedRight(text, item, transform)
  {
  }

  /** Is a place in a mention or child from start to end? As the start of a range (closed) it belongs to what it ends, as its end to what it begins. */
  predicate Holds(start: int, place: int, end: int, closed: bool) {
    if closed then start < place <= end || start == place == 0 < end else start <= place < end
  }

  /** The only items that hold the place are vertex mentions with no newline in front of it. */
  ghost predicate ClearTo(text: string, items: seq<OffsetItem>, place: nat, closed: bool)
    requires place < |text|
  {
    forall c :: c in items && Holds(c.Start(), place, c.End(), closed) ==>
      "vertex" in c.cssClasses && '\n' !in text[c.Start()..place]
  }

  lemma FirstLineExactly(s: string, n: nat)
    requires n <= |s|
    ensures n <= |FirstLine(s)| <==> '\n' !in s[..n]
  {
    var first := FirstLine(s);
    if n <= |first| {
      assert s[..n] == first[..n];
      assert forall c :: c in first[..n] ==> c in first;
    } else {
      assert s[..n][|first|] == '\n';
    }
  }

  lemma PageTextNewlines(s: string, n: nat)
    requires n <= |s|
    ensures '\n' in PageText(s)[..n] <==> '\n' in s[..n]
  {
    var t := PageText(s);
    assert forall i :: 0 <= i < n ==> t[..n][i] == t[i] && s[..n][i] == s[i] && (t[i] == '\n' <==> s[i] == '\n');
  }

  /** A normalised page that shows the document with its mentions. */
  ghost predicate ShowsDocument(dom: seq<DomNode>, text: string, items: seq<OffsetItem>) {
    && Content(dom) == PageText(text) && Mentions(dom) == ItemMentions(text, items)
    && (forall c :: c in items ==> InOrder(text, c))
    && (forall n :: n in dom && n.TextNode? ==> n.text != "")
  }

  /** The first line of a mention reaches a place exactly when no newline stands between. */
  lemma FirstLineReaches(text: string, c: OffsetItem, place: nat)
    requires c.Start() <= place < |text| && place <= c.End()
    ensures place - c.Start() <= |FirstLine(MentionFor(text, c).text)| <==> '\n' !in text[c.Start()..place]
  {
    var slice := Slice(text, c.Start(), c.End());
    var n := place - c.Start();
    assert slice == text[c.Start()..Clamp(text, c.End())];
    assert slice[..n] == text[c.Start()..place];
    FirstLineExactly(PageText(slice), n);
    PageTextNewlines(slice, n);
  }

  /** A child can be searched for the place, and counted from, and reaches the place with its first node. */
  predicate Reaches(dom: seq<DomNode>, k: nat, place: nat)
    requires k < |dom|
  {
    Counts(dom[k]) && place - Before(dom, k) <= |dom[k].ContainerText()|
  }

  /** The element that holds a place is an item that holds it. */
  lemma ElementIsItem(dom: seq<DomNode>, text: string, items: seq<OffsetItem>, k: nat, place: nat, closed: bool)
    returns (c: OffsetItem)
    requires ShowsDocument(dom, text, items) && k < |dom| && place < |text|
    requires dom[k].Span? && Holds(Before(dom, k), place, After(dom, k), closed)
    ensures c in items && Holds(c.Start(), place, c.End(), closed)
    ensures Reaches(dom, k, place) <==> "vertex" in c.cssClasses && '\n' !in text[c.Start()..place]
  {
    BeforeNext(dom, k);
    MentionAt(dom, k);
    ItemMentionsMembers(text, items);
    c :| c in items && MentionFor(text, c) == MentionIn(Before(dom, k), dom[k]);
    FirstLineReaches(text, c, place);
  }

  /** An item that holds a place is an element that holds it. */
  lemma ItemIsElement(dom: seq<DomNode>, text: string, items: seq<OffsetItem>, c: OffsetItem, place: nat, closed: bool)
    returns (k: nat)
    requires ShowsDocument(dom, text, items) && place < |text|
    requires c in items && Holds(c.Start(), place, c.End(), closed)
    ensures k < |dom| && Holds(Before(dom, k), place, After(dom, k), closed)
    ensures Reaches(dom, k, place) <==> "vertex" in c.cssClasses && '\n' !in text[c.Start()..place]
  {
    ItemMentionsMembers(text, items);
    assert MentionFor(text, c) in ItemMentions(text, items);
    k := MentionOf(dom, MentionFor(text, c));
    BeforeNext(dom, k);
    FirstLineReaches(text, c, place);
  }

  /** Only one child holds a place. */
  lemma HoldsOnce(dom: seq<DomNode>, j: nat, k: nat, place: nat, closed: bool)
    requires j < |dom| && k < |dom|
    requires Holds(Before(dom, j), place, After(dom, j), closed) && Holds(Before(dom, k), place, After(dom, k), closed)
    ensures j == k
  {
    if j < k {
      BeforeMonotone(dom, j + 1, k);
    } else if k < j {
      BeforeMonotone(dom, k + 1, j);
    }
  }

  /** The child that holds a place reaches it exactly when the place is clear. */
  lemma ReachesExactly(dom: seq<DomNode>, text: string, items: seq<OffsetItem>, k: nat, place: nat, closed: bool)
    requires ShowsDocument(dom, text, items) && k < |dom| && place < |text|
    requires Holds(Before(dom, k), place, After(dom, k), closed)
    ensures Reaches(dom, k, place) <==> ClearTo(text, items, place, closed)
  {
    if dom[k].Span? {
      var c := ElementIsItem(dom, text, items, k, place, closed);
    } else {
      BeforeNext(dom, k);
    }
    forall c | c in items && Holds(c.Start(), place, c.End(), closed)
      ensures Reaches(dom, k, place) ==> "vertex" in c.cssClasses && '\n' !in text[c.Start()..place]
    {
      var j := ItemIsElement(dom, text, items, c, place, closed);
      HoldsOnce(dom, j, k, place, closed);
    }
  }

  lemma {:induction false} NoStartBefore(dom: seq<DomNode>, offset: nat, n: nat)
    requires n <= |dom| && NoStart(dom, offset, n)
    ensures Before(dom, n) < offset || Before(dom, n) == 0
  {
    if n == 0 {
    } else {
      BeforeNext(dom, n - 1);
      NoStartBefore(dom, offset, n - 1);
    }
  }

  lemma StartHolds(dom: seq<DomNode>, offset: nat, p: Point)
    requires IsStart(dom, offset, Some(p)) && dom[p.child].text != ""
    ensures Holds(Before(dom, p.child), offset, After(dom, p.child), true)
  {
    NoStartBefore(dom, offset, p.child);
    BeforeNext(dom, p.child);
  }

  lemma EndHolds(dom: seq<DomNode>, offset: nat, p: Point)
    requires IsEnd(dom, offset, Some(p))
    ensures Holds(Before(dom, p.child), offset, After(dom, p.child), false)
  {
    NoEndWithin(dom, offset, p.child);
  }

  lemma ShownDocumentRoundTrip(
      dom: seq<DomNode>, text: string, items: seq<OffsetItem>, startOffset: nat, endOffset: nat, r: Range,
      transform: int -> int)
    requires ShowsDocument(dom, text, items) && Anchored(dom, transform) && startOffset <= endOffset < |text|
    requires IsStart(dom, startOffset, r.start) && IsEnd(dom, endOffset, r.end)
    ensures ReadBack(dom, r, transform) == Some([startOffset, endOffset])
       <==> ClearTo(text, items, startOffset, true) && ClearTo(text, items, endOffset, false)
  {
    RangeRoundTripsExactly(dom, startOffset, endOffset, r, transform);
    var a, b := r.start.value, r.end.value;
    assert dom[a.child] in dom;
    StartHolds(dom, startOffset, a);
    EndHolds(dom, endOffset, b);
    ReachesExactly(dom, text, items, a.child, startOffset, true);
    ReachesExactly(dom, text, items, b.child, endOffset, false);
  }

  lemma TwentyBitItem(text: string, c: OffsetItem, identity: int -> int)
    requires 0 <= c.rawStart <= c.rawEnd < OFFSET_BITS_RANGE && forall x :: identity(x) == x
    ensures InOrder(text, c) && PlacedRight(text, c, identity)
  {
    assert c.Start() == c.rawStart && c.End() == c.rawEnd;
  }

  /** Offsets of twenty bits, in order, are their own transforms and never make the highlighter throw. */
  lemma TwentyBitItems(text: string, items: seq<OffsetItem>, identity: int -> int)
    requires forall c :: c in items ==> 0 <= c.rawStart <= c.rawEnd < OFFSET_BITS_RANGE
    requires forall x :: identity(x) == x
    ensures forall c :: c in ItemsToShow(items) ==> InOrder(text, c) && PlacedRight(text, c, identity)
    ensures Pieces(text, ItemsToShow(items)).Some?
  {
    var shown := ItemsToShow(items);
    ItemsToShowFacts(items);
    forall c | c in shown ensures InOrder(text, c) && PlacedRight(text, c, identity) {
      TwentyBitItem(text, c, identity);
    }
    assert forall i :: 0 <= i < |shown| ==> shown[i] in shown;
    ThrowsExactlyOnReversedItem(text, shown);
  }

  /**
   The round trip through both programs: a range of the document, found on the page of
   the highlighted text, is read back from the selection as the same range exactly when
   any shown item that holds one of its ends has the class "vertex", and no newline stands
   between the start of that item and the end of the range.
   It holds for untransformed offsets of twenty bits, ends past the text included.
   */
  lemma DocumentRangeRoundTripsExactly(text: string, items: seq<OffsetItem>, startOffset: nat, endOffset: nat, r: Range)
    requires AllVertices(items)
    requires forall c :: c in items ==> 0 <= c.rawStart <= c.rawEnd < OFFSET_BITS_RANGE
    requires startOffset <= endOffset < |text|
    requires Pieces(text, ItemsToShow(items)).Some? ==>
               var page := Normalize(HighlightedPage(text, items));
               IsStart(page, startOffset, r.start) && IsEnd(page, endOffset, r.end)
    ensures Pieces(text, ItemsToShow(items)).Some?
    ensures var page := Normalize(HighlightedPage(text, items));
            var shown := ItemsToShow(items);
            ReadBack(page, r, x => x) == Some([startOffset, endOffset])
            <==> ClearTo(text, shown, startOffset, true) && ClearTo(text, shown, endOffset, false)
  {
    var shown := ItemsToShow(items);
    var identity := (x: int) => x;
    TwentyBitItems(text, items, identity);
    PageShowsDocument(text, items);
    PageIsAnchoredExactly(text, items, identity);
    var page := HighlightedPage(text, items);
    NormalizeKeepsPage(page);
    assert ShowsDocument(Normalize(page), text, shown);
    ShownDocumentRoundTrip(Normalize(page), text, shown, startOffset, endOffset, r, identity);
  }
}
