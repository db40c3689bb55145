/**
 Highlighting a document: EntityHighlighter.getHighlightedText and the offsets of
 OffsetItem. Term mentions are sorted, mentions of vertices that overlap an earlier
 one are removed from the caller's list, and text, "<span ...>" and "</span>" are
 interleaved with the help of a queue of the end offsets still open.
 */
module EntityHighlighter {
  import opened Wrappers
  import opened Html
  import opened Sequences

  // ---------------------------------------------------------------- items

  const OFFSET_BITS_RANGE: int := 0x10_0000

  /** The low twenty bits of a raw offset; the others hold a transcript entry. */
  function GetOffset(raw: int): nat {
    raw % OFFSET_BITS_RANGE
  }

  /** rank stands for the comparison of mention kind and resolved vertex among equal offsets. */
  datatype OffsetItem = OffsetItem(
    rawStart: int, rawEnd: int, isVertex: bool, rank: int, shouldHighlight: bool,
    cssClasses: seq<string>, title: Option<string>, info: string)
  {
    function Start(): nat { GetOffset(rawStart) }

    function End(): nat { GetOffset(rawEnd) }
  }

  predicate AtMost(a: OffsetItem, b: OffsetItem) {
    if a.Start() != b.Start() then a.Start() < b.Start()
    else if a.End() != b.End() then a.End() < b.End()
    else a.rank <= b.rank
  }

  function InsertItem(x: OffsetItem, items: seq<OffsetItem>): seq<OffsetItem> {
    if items == [] || !AtMost(items[0], x) then [x] + items
    else [items[0]] + InsertItem(x, items[1..])
  }

  /** The library's stable sort. */
  function SortItems(items: seq<OffsetItem>): seq<OffsetItem> {
    if items == [] then []
    else InsertItem(items[|items| - 1], SortItems(items[..|items| - 1]))
  }

  ghost predicate Sorted(items: seq<OffsetItem>) {
    forall i, j :: 0 <= i < j < |items| ==> AtMost(items[i], items[j])
  }

  lemma AtMostTotal(a: OffsetItem, b: OffsetItem)
    ensures AtMost(a, b) || AtMost(b, a)
  {
  }

  lemma AtMostTransitive(a: OffsetItem, b: OffsetItem, c: OffsetItem)
    requires AtMost(a, b) && AtMost(b, c)
    ensures AtMost(a, c)
  {
  }

  /** An element at most every element of a sorted list can go in front of it. */
  lemma ConsSorted(x: OffsetItem, items: seq<OffsetItem>)
    requires Sorted(items) && forall c :: c in items ==> AtMost(x, c)
    ensures Sorted([x] + items)
  {
    var r := [x] + items;
    forall i, j | 0 <= i < j < |r| ensures AtMost(r[i], r[j]) {
      assert r[j] == items[j - 1];
    }
  }

  lemma {:induction false} InsertItemSorts(x: OffsetItem, items: seq<OffsetItem>)
    requires Sorted(items)
    ensures Sorted(InsertItem(x, items))
    ensures forall c :: c in InsertItem(x, items) <==> c == x || c in items
    ensures multiset(InsertItem(x, items)) == multiset(items) + multiset{x}
  {
    if items == [] {
    } else {
      var head, tail := items[0], items[1..];
      assert items == [head] + tail;
      if !AtMost(head, x) {
        AtMostTotal(head, x);
        forall c | c in items ensures AtMost(x, c) {
          if c != head {
            AtMostTransitive(x, head, c);
          }
        }
        ConsSorted(x, items);
      } else {
        InsertItemSorts(x, tail);
        ConsSorted(head, InsertItem(x, tail));
      }
    }
  }

  /** In order of start, among equal starts of end, and among equal places of rank. */
  ghost predicate InOrderOfOffsets(a: OffsetItem, b: OffsetItem) {
    && a.Start() <= b.Start()
    && (a.Start() == b.Start() ==> a.End() <= b.End())
    && (a.Start() == b.Start() && a.End() == b.End() ==> a.rank <= b.rank)
  }

  /** The list is a permutation of what it was, in order of offsets. */
  lemma SortItemsSorts(items: seq<OffsetItem>)
    ensures Sorted(SortItems(items))
    ensures multiset(SortItems(items)) == multiset(items)
    ensures forall i, j :: 0 <= i < j < |SortItems(items)| ==> InOrderOfOffsets(SortItems(items)[i], SortItems(items)[j])
  {
    SortItemsIsSorted(items);
    var s := SortItems(items);
    forall i, j | 0 <= i < j < |s| ensures InOrderOfOffsets(s[i], s[j]) {
      assert AtMost(s[i], s[j]);
    }
  }

  lemma {:induction false} SortItemsIsSorted(items: seq<OffsetItem>)
    ensures Sorted(SortItems(items))
    ensures multiset(SortItems(items)) == multiset(items)
  {
    if items == [] {
    } else {
      var front := items[..|items| - 1];
      SortItemsIsSorted(front);
      InsertItemSorts(items[|items| - 1], SortItems(front));
      assert items == front + [items[|items| - 1]];
    }
  }

  // ---------------------------------------------------------------- removal of overlapping vertex mentions

  predicate Conflicts(earlier: OffsetItem, item: OffsetItem) {
    && earlier.isVertex && item.isVertex
    && (earlier.End() >= item.End() || earlier.End() > item.Start())
  }

  predicate ConflictsWithAny(kept: seq<OffsetItem>, item: OffsetItem) {
    exists c :: c in kept && Conflicts(c, item)
  }

  /** What the scan leaves of a sorted list. */
  function Survivors(items: seq<OffsetItem>): seq<OffsetItem> {
    if items == [] then []
    else
      var kept := Survivors(items[..|items| - 1]);
      var item := items[|items| - 1];
      if ConflictsWithAny(kept, item) then kept else kept + [item]
  }

  /** The items for which a span is written. */
  function Highlighted(items: seq<OffsetItem>): seq<OffsetItem> {
    if items == [] then []
    else
      var shown := Highlighted(items[..|items| - 1]);
      var item := items[|items| - 1];
      if item.shouldHighlight then shown + [item] else shown
  }

  ghost predicate VerticesDisjoint(items: seq<OffsetItem>) {
    forall i, j :: 0 <= i < j < |items| && items[i].isVertex && items[j].isVertex ==>
      items[i].End() <= items[j].Start() && items[i].End() < items[j].End()
  }

  /** No two surviving vertex mentions overlap, and everything else survives. */
  lemma {:induction false} SurvivorsDisjoint(items: seq<OffsetItem>)
    ensures VerticesDisjoint(Survivors(items))
    ensures forall c :: c in Survivors(items) ==> c in items
    ensures forall c :: c in items && !c.isVertex ==> c in Survivors(items)
  {
    if items == [] {
    } else {
      var front, item := items[..|items| - 1], items[|items| - 1];
      SurvivorsDisjoint(front);
      assert items == front + [item];
      var kept, s := Survivors(front), Survivors(items);
      if !ConflictsWithAny(kept, item) {
        forall i, j | 0 <= i < j < |s| && s[i].isVertex && s[j].isVertex
          ensures s[i].End() <= s[j].Start() && s[i].End() < s[j].End()
        {
          assert s[i] in kept;
          assert j == |kept| ==> !Conflicts(s[i], item);
        }
      }
    }
  }

  /** The k-th item is removed exactly when it is a vertex mention and one that stays in the final list precedes it and reaches beyond its start or to its end. */
  lemma {:induction false} RemovedOnlyForConflict(items: seq<OffsetItem>, k: nat)
    requires k < |items|
    ensures Survivors(items[..k]) <= Survivors(items)
    ensures Survivors(items[..k + 1]) <= Survivors(items)
    ensures if items[k].isVertex && exists c :: c in Survivors(items[..k]) && c.isVertex
                                               && (c.End() > items[k].Start() || c.End() >= items[k].End())
            then Survivors(items[..k + 1]) == Survivors(items[..k])
            else Survivors(items[..k + 1]) == Survivors(items[..k]) + [items[k]]
    decreases |items| - k
  {
    assert items[..k + 1][..k] == items[..k];
    ConflictsExactly(Survivors(items[..k]), items[k]);
    if k + 1 == |items| {
      assert items[..k + 1] == items;
    } else {
      RemovedOnlyForConflict(items, k + 1);
    }
  }

  lemma ConflictsExactly(kept: seq<OffsetItem>, item: OffsetItem)
    ensures ConflictsWithAny(kept, item) <==>
            item.isVertex && exists c :: c in kept && c.isVertex && (c.End() > item.Start() || c.End() >= item.End())
  {
    if c :| c in kept && c.isVertex && item.isVertex && (c.End() > item.Start() || c.End() >= item.End()) {
      assert Conflicts(c, item);
    }
  }

  ghost predicate StartsSorted(items: seq<OffsetItem>) {
    forall i, j :: 0 <= i < j < |items| ==> items[i].Start() <= items[j].Start()
  }

  lemma {:induction false} HighlightedMembers(items: seq<OffsetItem>)
    ensures forall c :: c in Highlighted(items) <==> c in items && c.shouldHighlight
  {
    if items == [] {
    } else {
      var front, item := items[..|items| - 1], items[|items| - 1];
      HighlightedMembers(front);
      assert forall c :: c in items <==> c in front || c == item;
    }
  }

  lemma {:induction false} HighlightedSorted(items: seq<OffsetItem>)
    requires StartsSorted(items)
    ensures StartsSorted(Highlighted(items))
  {
    if items == [] {
    } else {
      var front, item := items[..|items| - 1], items[|items| - 1];
      HighlightedSorted(front);
      HighlightedMembers(front);
      forall i | 0 <= i < |Highlighted(front)| ensures Highlighted(front)[i].Start() <= item.Start() {
        assert Highlighted(front)[i] in front;
      }
    }
  }

  lemma {:induction false} HighlightedDisjoint(items: seq<OffsetItem>)
    requires VerticesDisjoint(items)
    ensures VerticesDisjoint(Highlighted(items))
  {
    if items == [] {
    } else {
      var front, item := items[..|items| - 1], items[|items| - 1];
      HighlightedDisjoint(front);
      HighlightedMembers(front);
      forall i | 0 <= i < |Highlighted(front)| && Highlighted(front)[i].isVertex && item.isVertex
        ensures Highlighted(front)[i].End() <= item.Start() && Highlighted(front)[i].End() < item.End()
      {
        assert Highlighted(front)[i] in front;
      }
    }
  }

  lemma {:induction false} SurvivorsSorted(items: seq<OffsetItem>)
    requires StartsSorted(items)
    ensures StartsSorted(Survivors(items))
  {
    if items == [] {
    } else {
      var front, item := items[..|items| - 1], items[|items| - 1];
      var kept := Survivors(front);
      SurvivorsSorted(front);
      SurvivorsDisjoint(front);
      forall i | 0 <= i < |kept| ensures kept[i].Start() <= item.Start() {
        assert kept[i] in front;
      }
      SnocSorted(kept, item);
    }
  }

  lemma SnocSorted(items: seq<OffsetItem>, item: OffsetItem)
    requires StartsSorted(items) && forall i :: 0 <= i < |items| ==> items[i].Start() <= item.Start()
    ensures StartsSorted(items + [item])
  {
    var all := items + [item];
    forall i, j | 0 <= i < j < |all| ensures all[i].Start() <= all[j].Start() {
      assert all[i] == items[i];
    }
  }

  /** The items that get a span, in the order in which their spans are opened. */
  function ItemsToShow(items: seq<OffsetItem>): seq<OffsetItem> {
    Highlighted(Survivors(SortItems(items)))
  }

  lemma ItemsToShowFacts(items: seq<OffsetItem>)
    ensures StartsSorted(ItemsToShow(items)) && VerticesDisjoint(ItemsToShow(items))
    ensures forall c :: c in ItemsToShow(items) ==> c in items && c.shouldHighlight
    ensures forall c :: c in items && c.shouldHighlight && !c.isVertex ==> c in ItemsToShow(items)
  {
    var sorted := SortItems(items);
    SortedMembers(items);
    SurvivorsSorted(sorted);
    SurvivorsDisjoint(sorted);
    HighlightedMembers(Survivors(sorted));
    HighlightedSorted(Survivors(sorted));
    HighlightedDisjoint(Survivors(sorted));
  }

  /** The vertex mention c leaves no room for the item: it is not later, and reaches beyond its start or to its end. */
  ghost predicate LeavesNoRoom(c: OffsetItem, item: OffsetItem) {
    && c.isVertex && item.isVertex && c.Start() <= item.Start()
    && (c.End() > item.Start() || c.End() >= item.End())
  }

  lemma SurvivesUnlessOverlapped(items: seq<OffsetItem>, k: nat)
    requires StartsSorted(items) && k < |items|
    ensures items[k] in Survivors(items) || exists c :: c in Survivors(items) && LeavesNoRoom(c, items[k])
  {
    RemovedOnlyForConflict(items, k);
    var before, item := Survivors(items[..k]), items[k];
    if c :| c in before && c.isVertex && item.isVertex && (c.End() > item.Start() || c.End() >= item.End()) {
      SurvivorsDisjoint(items[..k]);
      assert c in items[..k] && c in Survivors(items);
      var j :| 0 <= j < k && items[j] == c;
      assert items[j].Start() <= items[k].Start();
      assert LeavesNoRoom(c, items[k]);
    } else {
      assert item in before + [item];
    }
  }

  lemma SortedMembers(items: seq<OffsetItem>)
    ensures StartsSorted(SortItems(items)) && forall c :: c in items <==> c in SortItems(items)
  {
    SortItemsSorts(items);
    assert forall c :: c in items <==> c in multiset(items);
    assert forall c :: c in SortItems(items) <==> c in multiset(SortItems(items));
  }

  /**
   From the caller's list: an item to be highlighted is shown unless it is a vertex
   mention for which another one, which is kept, leaves no room.
   */
  lemma ShownUnlessOverlapped(items: seq<OffsetItem>, item: OffsetItem)
    requires item in items && item.shouldHighlight
    ensures item in ItemsToShow(items) || exists c :: c in items && c in Survivors(SortItems(items)) && LeavesNoRoom(c, item)
  {
    var sorted := SortItems(items);
    SortedMembers(items);
    var k :| 0 <= k < |sorted| && sorted[k] == item;
    SurvivesUnlessOverlapped(sorted, k);
    HighlightedMembers(Survivors(sorted));
    SurvivorsDisjoint(sorted);
  }

  // ---------------------------------------------------------------- output

  /** One append to the result: escaped text, an opening or a closing tag. */
  datatype Piece = Chunk(text: string) | Open(item: OffsetItem) | Close

  function Join(words: seq<string>, separator: string): string {
    if words == [] then ""
    else if |words| == 1 then words[0]
    else words[0] + separator + Join(words[1..], separator)
  }

  function TitleAttribute(item: OffsetItem): string {
    if item.title.Some? then Attribute("title", Escape(item.title.value)) else ""
  }

  function OpenTag(item: OffsetItem): string {
    "<span" + Attribute("class", Join(item.cssClasses, " ")) + TitleAttribute(item)
    + Attribute("data-info", Escape(item.info)) + ">"
  }

  lemma {:induction false} JoinReadable(words: seq<string>)
    requires forall w :: w in words ==> '"' !in w && '&' !in w
    ensures '"' !in Join(words, " ") && '&' !in Join(words, " ")
  {
    if |words| <= 1 {
    } else {
      JoinReadable(words[1..]);
    }
  }

  /** The words of a class attribute. */
  function Words(s: string): seq<string>
    decreases |s|
  {
    match SplitAt(s, ' ')
    case None => [s]
    case Some((word, rest)) => [word] + Words(rest)
  }

  /** The classes of an item are the words of the attribute. */
  lemma {:induction false} WordsOfClasses(words: seq<string>)
    requires words != [] && forall w :: w in words ==> ' ' !in w
    ensures Words(Join(words, " ")) == words
  {
    var first := words[0];
    assert first in words;
    if |words| == 1 {
      assert IndexOf(first, ' ') == |first|;
      assert words == [first];
    } else {
      var rest := Join(words[1..], " ");
      SplitsAt(first, ' ', rest);
      assert Join(words, " ") == first + [' '] + rest;
      WordsOfClasses(words[1..]);
      assert words == [first] + words[1..];
    }
  }

  /** The browser reads the tag of an item as one with its classes, its title if it has one, and its data, unescaped. */
  lemma TagCarriesItem(item: OffsetItem)
    requires forall w :: w in item.cssClasses ==> '"' !in w && '&' !in w
    ensures OpenTag(item)[..5] == "<span"
    ensures ReadAttributes(OpenTag(item)[5..])
         == [("class", Join(item.cssClasses, " "))]
            + ((if item.title.Some? then [("title", item.title.value)] else []) + [("data-info", item.info)])
  {
    var classes, info := Join(item.cssClasses, " "), Escape(item.info);
    var tail := Attribute("data-info", info) + ">";
    JoinFour(Attribute("class", classes), TitleAttribute(item), Attribute("data-info", info));
    JoinReadable(item.cssClasses);
    DecodePlain(classes);
    ReadsAttribute("class", classes, TitleAttribute(item) + tail);
    ReadsTitle(item, tail);
    ReadsInfo(item.info);
  }

  lemma JoinFour(a: string, b: string, c: string)
    ensures ("<span" + a + b + c + ">")[..5] == "<span"
    ensures ("<span" + a + b + c + ">")[5..] == a + (b + (c + ">"))
  {
  }

  lemma ReadsInfo(info: string)
    ensures ReadAttributes(Attribute("data-info", Escape(info)) + ">") == [("data-info", info)]
  {
    EscapeHasNoMarkup(info);
    ReadsAttribute("data-info", Escape(info), ">");
    DecodeAfterEscape(info);
    assert ReadAttributes(">") == [];
  }

  lemma ReadsTitle(item: OffsetItem, rest: string)
    ensures ReadAttributes(TitleAttribute(item) + rest)
         == (if item.title.Some? then [("title", item.title.value)] else []) + ReadAttributes(rest)
  {
    if item.title.Some? {
      EscapeHasNoMarkup(item.title.value);
      ReadsAttribute("title", Escape(item.title.value), rest);
      DecodeAfterEscape(item.title.value);
    } else {
      assert TitleAttribute(item) + rest == rest;
    }
  }

  function PieceString(p: Piece): string {
    match p
    case Chunk(s) => Escape(s)
    case Open(item) => OpenTag(item)
    case Close => "</span>"
  }

  function Render(ps: seq<Piece>): string {
    if ps == [] then "" else Render(ps[..|ps| - 1]) + PieceString(ps[|ps| - 1])
  }

  /** The document text a sequence of appends has written so far. */
  function TextOf(ps: seq<Piece>): string {
    if ps == [] then ""
    else
      var last := ps[|ps| - 1];
      TextOf(ps[..|ps| - 1]) + if last.Chunk? then last.text else ""
  }

  /** Spans opened minus spans closed. */
  function Depth(ps: seq<Piece>): int {
    if ps == [] then 0
    else Depth(ps[..|ps| - 1]) + match ps[|ps| - 1] case Chunk(_) => 0 case Open(_) => 1 case Close => -1
  }

  /** For each character of the text, how many spans are open around it. */
  function Depths(ps: seq<Piece>): seq<int> {
    if ps == [] then []
    else
      var front, last := ps[..|ps| - 1], ps[|ps| - 1];
      Depths(front) + if last.Chunk? then seq(|last.text|, _ => Depth(front)) else []
  }

  /** No span is closed before it is opened. */
  predicate WellNested(ps: seq<Piece>) {
    ps == [] || (WellNested(ps[..|ps| - 1]) && Depth(ps) >= 0)
  }

  lemma Extend(ps: seq<Piece>, p: Piece)
    ensures TextOf(ps + [p]) == TextOf(ps) + if p.Chunk? then p.text else ""
    ensures Depth(ps + [p]) == Depth(ps) + match p case Chunk(_) => 0 case Open(_) => 1 case Close => -1
    ensures Depths(ps + [p]) == Depths(ps) + if p.Chunk? then seq(|p.text|, _ => Depth(ps)) else []
    ensures WellNested(ps + [p]) == (WellNested(ps) && Depth(ps + [p]) >= 0)
    ensures Render(ps + [p]) == Render(ps) + PieceString(p)
  {
    DropLast(ps, p);
  }

  // ---------------------------------------------------------------- the interleaving as a function

  function Clamp(text: string, offset: nat): nat {
    Min(offset, |text|)
  }

  /** safeSubstring; None is the exception thrown when the end comes before the beginning. */
  function SafeSubstring(text: string, begin: nat, end: nat): Option<string> {
    var b, e := Clamp(text, begin), Clamp(text, end);
    if b > e then None else Some(text[b..e])
  }

  /** What has been appended, the end offsets still open in increasing order, and where the text has got to. */
  datatype Progress = Progress(out: seq<Piece>, ends: seq<nat>, last: nat)

  function InsertEnd(ends: seq<nat>, end: nat): seq<nat> {
    if ends == [] || end <= ends[0] then [end] + ends
    else [ends[0]] + InsertEnd(ends[1..], end)
  }

  /** Is the offset within an optional limit? */
  predicate Within(offset: nat, limit: Option<nat>) {
    limit.None? || offset <= limit.value
  }

  /** Polls the queue while its least end offset is within the limit. */
  function ClosePending(text: string, p: Progress, limit: Option<nat>): Option<Progress>
    decreases |p.ends|
  {
    if p.ends == [] || !Within(p.ends[0], limit) then Some(p)
    else
      var s :- SafeSubstring(text, p.last, p.ends[0]);
      ClosePending(text, Progress(p.out + [Chunk(s), Close], p.ends[1..], p.ends[0]), limit)
  }

  function OpenItem(text: string, p: Progress, item: OffsetItem): Option<Progress> {
    var q :- ClosePending(text, p, Some(item.Start()));
    var s :- SafeSubstring(text, q.last, item.Start());
    Some(Progress(q.out + [Chunk(s), Open(item)], InsertEnd(q.ends, item.End()), item.Start()))
  }

  function OpenItems(text: string, items: seq<OffsetItem>): Option<Progress> {
    if items == [] then Some(Progress([], [], 0))
    else
      var p :- OpenItems(text, items[..|items| - 1]);
      OpenItem(text, p, items[|items| - 1])
  }

  /** Everything appended for the highlighted items of a sorted list, or None when an exception is thrown. */
  function Pieces(text: string, items: seq<OffsetItem>): Option<seq<Piece>> {
    var p :- OpenItems(text, items);
    var q :- ClosePending(text, p, None);
    Some(q.out + [Chunk(text[Clamp(text, q.last)..])])
  }

  // ---------------------------------------------------------------- invariant of the interleaving

  function Count(b: bool): nat {
    if b then 1 else 0
  }

  /** How many items cover the character at position q. */
  function Covering(items: seq<OffsetItem>, q: nat): nat {
    if items == [] then 0
    else
      var item := items[|items| - 1];
      Covering(items[..|items| - 1], q) + Count(item.Start() <= q < item.End())
  }

  function CountAbove(ends: seq<nat>, q: nat): nat {
    if ends == [] then 0 else Count(q < ends[0]) + CountAbove(ends[1..], q)
  }

  ghost predicate SortedEnds(ends: seq<nat>) {
    forall i, j :: 0 <= i < j < |ends| ==> ends[i] <= ends[j]
  }

  predicate InOrder(text: string, item: OffsetItem) {
    Clamp(text, item.Start()) <= Clamp(text, item.End())
  }

  /** What has been written up to a place: the text, balanced so far, at the right depths. */
  ghost predicate Written(text: string, items: seq<OffsetItem>, out: seq<Piece>, open: nat, at: nat) {
    && at <= |text| && TextOf(out) == text[..at]
    && WellNested(out) && Depth(out) == open
    && |Depths(out)| == at
    && forall q :: 0 <= q < at ==> Depths(out)[q] == Covering(items, q)
  }

  /** The open ends are sorted, not passed, and account for what is still to come. */
  ghost predicate Pending(text: string, items: seq<OffsetItem>, ends: seq<nat>, at: nat) {
    && SortedEnds(ends)
    && (forall e :: e in ends ==> at <= Clamp(text, e))
    && forall q :: at <= q < |text| ==> CountAbove(ends, q) == Covering(items, q)
  }

  ghost predicate Consistent(text: string, items: seq<OffsetItem>, p: Progress) {
    var at := Clamp(text, p.last);
    Written(text, items, p.out, |p.ends|, at) && Pending(text, items, p.ends, at)
  }

  lemma {:induction false} AllAbove(ends: seq<nat>, q: nat)
    requires forall i :: 0 <= i < |ends| ==> q < ends[i]
    ensures CountAbove(ends, q) == |ends|
  {
    if ends == [] {
    } else {
      AllAbove(ends[1..], q);
    }
  }

  lemma {:induction false} InsertEndFacts(ends: seq<nat>, end: nat)
    requires SortedEnds(ends)
    ensures SortedEnds(InsertEnd(ends, end))
    ensures |InsertEnd(ends, end)| == |ends| + 1
    ensures forall e :: e in InsertEnd(ends, end) <==> e == end || e in ends
    ensures forall q: nat :: CountAbove(InsertEnd(ends, end), q) == CountAbove(ends, q) + Count(q < end)
  {
    var r := InsertEnd(ends, end);
    if ends == [] || end <= ends[0] {
      assert r[1..] == ends;
    } else {
      var rest := InsertEnd(ends[1..], end);
      InsertEndFacts(ends[1..], end);
      assert r[1..] == rest;
      assert ends == [ends[0]] + ends[1..];
      forall i | 0 <= i < |rest| ensures ends[0] <= rest[i] {
        assert rest[i] in rest;
      }
    }
  }

  lemma CopyWritten(text: string, items: seq<OffsetItem>, out: seq<Piece>, ends: seq<nat>, at: nat, to: nat)
    requires Written(text, items, out, |ends|, at) && Pending(text, items, ends, at)
    requires at <= to <= |text| && forall e :: e in ends ==> to <= e
    ensures Written(text, items, out + [Chunk(text[at..to])], |ends|, to)
  {
    Extend(out, Chunk(text[at..to]));
    var out' := out + [Chunk(text[at..to])];
    JoinSlices(text, at, to);
    forall q | 0 <= q < to ensures Depths(out')[q] == Covering(items, q) {
      if q < at {
        assert Depths(out')[q] == Depths(out)[q];
      } else {
        assert forall i :: 0 <= i < |ends| ==> ends[i] in ends;
        AllAbove(ends, q);
        assert Depths(out')[q] == |ends| == CountAbove(ends, q);
      }
    }
  }

  /** Copying text up to a later point, before any open span ends, keeps the depth law. */
  lemma CopyText(text: string, items: seq<OffsetItem>, p: Progress, to: nat)
    requires Consistent(text, items, p)
    requires Clamp(text, p.last) <= Clamp(text, to)
    requires forall e :: e in p.ends ==> Clamp(text, to) <= Clamp(text, e)
    ensures SafeSubstring(text, p.last, to).Some?
    ensures Consistent(text, items, Progress(p.out + [Chunk(SafeSubstring(text, p.last, to).value)], p.ends, to))
  {
    CopyWritten(text, items, p.out, p.ends, Clamp(text, p.last), Clamp(text, to));
  }

  /** Closing a span where the text has just got to. */
  lemma DropEnd(text: string, items: seq<OffsetItem>, p: Progress)
    requires Consistent(text, items, p) && p.ends != [] && p.last == p.ends[0]
    ensures Consistent(text, items, Progress(p.out + [Close], p.ends[1..], p.last))
  {
    Extend(p.out, Close);
    var rest := p.ends[1..];
    assert forall f :: f in rest ==> f in p.ends;
    forall q | Clamp(text, p.last) <= q < |text|
      ensures CountAbove(rest, q) == Covering(items, q)
    {
      assert CountAbove(p.ends, q) == Covering(items, q);
    }
  }

  /** One span is closed at the least open end. */
  lemma CloseOneConsistent(text: string, items: seq<OffsetItem>, p: Progress)
    requires Consistent(text, items, p) && p.ends != []
    ensures SafeSubstring(text, p.last, p.ends[0]).Some?
    ensures var s := SafeSubstring(text, p.last, p.ends[0]).value;
            Consistent(text, items, Progress(p.out + [Chunk(s), Close], p.ends[1..], p.ends[0]))
  {
    var e := p.ends[0];
    assert e in p.ends;
    forall f | f in p.ends ensures Clamp(text, e) <= Clamp(text, f) {
      assert e <= f;
    }
    CopyText(text, items, p, e);
    var s := SafeSubstring(text, p.last, e).value;
    DropEnd(text, items, Progress(p.out + [Chunk(s)], p.ends, e));
    assert p.out + [Chunk(s)] + [Close] == p.out + [Chunk(s), Close];
  }

  lemma {:induction false} ClosePendingConsistent(text: string, items: seq<OffsetItem>, p: Progress, limit: Option<nat>)
    requires Consistent(text, items, p)
    ensures ClosePending(text, p, limit).Some?
    ensures var r := ClosePending(text, p, limit).value;
            && Consistent(text, items, r)
            && (forall e :: e in r.ends ==> !Within(e, limit))
            && (limit.None? ==> r.ends == [])
            && (Within(p.last, limit) ==> Within(r.last, limit))
    decreases |p.ends|
  {
    if p.ends == [] {
    } else if Within(p.ends[0], limit) {
      CloseOneConsistent(text, items, p);
      var s := SafeSubstring(text, p.last, p.ends[0]).value;
      ClosePendingConsistent(text, items, Progress(p.out + [Chunk(s), Close], p.ends[1..], p.ends[0]), limit);
    } else {
      assert forall e :: e in p.ends ==> p.ends[0] <= e;
    }
  }

  /** Opening a span where the text has just got to. */
  lemma AddItem(text: string, items: seq<OffsetItem>, p: Progress, item: OffsetItem)
    requires Consistent(text, items, p) && p.last == item.Start() && InOrder(text, item)
    ensures Consistent(text, items + [item],
                       Progress(p.out + [Open(item)], InsertEnd(p.ends, item.End()), p.last))
  {
    Extend(p.out, Open(item));
    InsertEndFacts(p.ends, item.End());
    DropLast(items, item);
    forall q | 0 <= q < |text|
      ensures Covering(items + [item], q) == Covering(items, q) + Count(item.Start() <= q < item.End())
    {
    }
  }

  lemma OpenItemConsistent(text: string, items: seq<OffsetItem>, p: Progress, item: OffsetItem)
    requires Consistent(text, items, p) && p.last <= item.Start() && InOrder(text, item)
    ensures OpenItem(text, p, item).Some?
    ensures Consistent(text, items + [item], OpenItem(text, p, item).value)
  {
    ClosePendingConsistent(text, items, p, Some(item.Start()));
    var q := ClosePending(text, p, Some(item.Start())).value;
    CopyText(text, items, q, item.Start());
    var s := SafeSubstring(text, q.last, item.Start()).value;
    AddItem(text, items, Progress(q.out + [Chunk(s)], q.ends, item.Start()), item);
    Associative(q.out, [Chunk(s)], [Open(item)]);
    assert [Chunk(s)] + [Open(item)] == [Chunk(s), Open(item)];
  }

  lemma OpenItemsNext(text: string, front: seq<OffsetItem>, item: OffsetItem)
    requires OpenItems(text, front).Some? && Consistent(text, front, OpenItems(text, front).value)
    requires OpenItems(text, front).value.last <= item.Start() && InOrder(text, item)
    ensures OpenItems(text, front + [item]).Some?
    ensures Consistent(text, front + [item], OpenItems(text, front + [item]).value)
    ensures OpenItems(text, front + [item]).value.last == item.Start()
  {
    OpenItemConsistent(text, front, OpenItems(text, front).value, item);
    OpenItemsExtend(text, front, item);
  }

  lemma SortedFront(items: seq<OffsetItem>)
    requires StartsSorted(items) && items != []
    ensures var n := |items| - 1;
            && StartsSorted(items[..n]) && (forall i :: 0 <= i < n ==> items[..n][i] == items[i])
            && (n > 0 ==> items[n - 1].Start() <= items[n].Start())
  {
  }

  lemma {:induction false} OpenItemsConsistent(text: string, items: seq<OffsetItem>)
    requires StartsSorted(items)
    requires forall i :: 0 <= i < |items| ==> InOrder(text, items[i])
    ensures OpenItems(text, items).Some?
    ensures Consistent(text, items, OpenItems(text, items).value)
    ensures OpenItems(text, items).value.last == if items == [] then 0 else items[|items| - 1].Start()
  {
    if items == [] {
    } else {
      var front, item := items[..|items| - 1], items[|items| - 1];
      SortedFront(items);
      OpenItemsConsistent(text, front);
      OpenItemsNext(text, front, item);
      assert front + [item] == items;
    }
  }

  // ---------------------------------------------------------------- when it throws

  lemma {:induction false} ClosePendingLeaves(text: string, p: Progress, limit: Option<nat>)
    requires SortedEnds(p.ends) && ClosePending(text, p, limit).Some?
    ensures var r := ClosePending(text, p, limit).value;
            SortedEnds(r.ends) && forall e :: e in r.ends ==> !Within(e, limit)
    decreases |p.ends|
  {
    if p.ends == [] {
    } else if Within(p.ends[0], limit) {
      var s := SafeSubstring(text, p.last, p.ends[0]).value;
      ClosePendingLeaves(text, Progress(p.out + [Chunk(s), Close], p.ends[1..], p.ends[0]), limit);
    } else {
      assert forall e :: e in p.ends ==> p.ends[0] <= e;
    }
  }

  lemma {:induction false} OpenItemsSortedEnds(text: string, items: seq<OffsetItem>)
    requires OpenItems(text, items).Some?
    ensures SortedEnds(OpenItems(text, items).value.ends)
  {
    if items == [] {
    } else {
      var front, item := items[..|items| - 1], items[|items| - 1];
      OpenItemsSortedEnds(text, front);
      var p := OpenItems(text, front).value;
      ClosePendingLeaves(text, p, Some(item.Start()));
      InsertEndFacts(ClosePending(text, p, Some(item.Start())).value.ends, item.End());
    }
  }

  /** An item whose end precedes its start within the text is the next one closed, and closing it throws. */
  lemma ReversedIsNext(text: string, items: seq<OffsetItem>, item: OffsetItem, limit: Option<nat>)
    requires OpenItems(text, items + [item]).Some?
    requires !InOrder(text, item) && Within(item.Start(), limit)
    ensures ClosePending(text, OpenItems(text, items + [item]).value, limit).None?
  {
    assert (items + [item])[..|items|] == items;
    OpenItemsSortedEnds(text, items);
    var p := OpenItems(text, items).value;
    ClosePendingLeaves(text, p, Some(item.Start()));
    var q := ClosePending(text, p, Some(item.Start())).value;
    assert q.ends != [] ==> q.ends[0] in q.ends;
    assert InsertEnd(q.ends, item.End())[0] == item.End();
  }

  lemma {:induction false} ReversedFails(text: string, items: seq<OffsetItem>, k: nat)
    requires StartsSorted(items) && k < |items| && !InOrder(text, items[k])
    ensures OpenItems(text, items).None? || k == |items| - 1
    ensures Pieces(text, items).None?
    decreases |items|
  {
    var front, item := items[..|items| - 1], items[|items| - 1];
    assert items == front + [item];
    if k == |items| - 1 {
      if OpenItems(text, items).Some? {
        ReversedIsNext(text, front, item, None);
      }
    } else {
      assert front[k] == items[k];
      ReversedFails(text, front, k);
      if OpenItems(text, front).Some? {
        var before := front[..k];
        assert front == before + [front[k]];
        ReversedIsNext(text, before, front[k], Some(item.Start()));
      }
    }
  }

  // ---------------------------------------------------------------- main results about the output

  /** The highlighter throws exactly when some highlighted item ends before it starts within the text. */
  lemma ThrowsExactlyOnReversedItem(text: string, items: seq<OffsetItem>)
    requires StartsSorted(items)
    ensures Pieces(text, items).None? <==> exists i :: 0 <= i < |items| && !InOrder(text, items[i])
  {
    if i :| 0 <= i < |items| && !InOrder(text, items[i]) {
      ReversedFails(text, items, i);
    } else {
      OpenItemsConsistent(text, items);
      ClosePendingConsistent(text, items, OpenItems(text, items).value, None);
    }
  }

  /**
   Conservation and the depth law: whatever the items do to each other, the text
   written is the whole document, spans balance, and each character is enclosed by
   as many spans as there are items that cover it.
   */
  lemma SpansCoverTheirItems(text: string, items: seq<OffsetItem>)
    requires StartsSorted(items) && Pieces(text, items).Some?
    ensures var ps := Pieces(text, items).value;
            && TextOf(ps) == text
            && WellNested(ps) && Depth(ps) == 0
            && |Depths(ps)| == |text|
            && forall q :: 0 <= q < |text| ==> Depths(ps)[q] == Covering(items, q)
  {
    ThrowsExactlyOnReversedItem(text, items);
    OpenItemsConsistent(text, items);
    var p := OpenItems(text, items).value;
    ClosePendingConsistent(text, items, p, None);
    var q := ClosePending(text, p, None).value;
    CopyText(text, items, q, |text|);
    assert text[Clamp(text, q.last)..] == text[Clamp(text, q.last)..|text|];
    assert text[..|text|] == text;
  }

  // ---------------------------------------------------------------- the string

  predicate PlainClasses(item: OffsetItem) {
    forall c :: c in item.cssClasses ==> '>' !in c
  }

  lemma {:induction false} JoinPlain(words: seq<string>, separator: string)
    requires '>' !in separator && forall c :: c in words ==> '>' !in c
    ensures '>' !in Join(words, separator)
  {
    if |words| <= 1 {
    } else {
      JoinPlain(words[1..], separator);
    }
  }

  lemma PlainConcat(a: string, b: string)
    requires '>' !in a && '>' !in b
    ensures '>' !in a + b
  {
  }

  /** An attribute whose escaped value holds no '>'. */
  lemma PlainAttribute(name: string, value: string)
    requires '>' !in name && '>' !in value
    ensures '>' !in Attribute(name, value)
  {
  }

  lemma TagFromBody(body: string)
    requires body != "" && body[0] == '<' && '>' !in body
    ensures IsTag(body + ">")
  {
    ConsEndsTag(body, ">");
  }

  lemma OpenTagIsTag(item: OffsetItem)
    requires PlainClasses(item)
    ensures IsTag(OpenTag(item))
  {
    var classes, info := Attribute("class", Join(item.cssClasses, " ")), Attribute("data-info", Escape(item.info));
    var title := TitleAttribute(item);
    JoinPlain(item.cssClasses, " ");
    PlainAttribute("class", Join(item.cssClasses, " "));
    if item.title.Some? {
      EscapeHasNoMarkup(item.title.value);
      PlainAttribute("title", Escape(item.title.value));
    }
    EscapeHasNoMarkup(item.info);
    PlainAttribute("data-info", Escape(item.info));
    PlainConcat("<span", classes);
    PlainConcat("<span" + classes, title);
    PlainConcat("<span" + classes + title, info);
    TagFromBody("<span" + classes + title + info);
  }

  ghost predicate PlainPieces(ps: seq<Piece>) {
    forall i :: 0 <= i < |ps| && ps[i].Open? ==> PlainClasses(ps[i].item)
  }

  /** The string after "&nbsp;" has been replaced, piece by piece. */
  function Shown(ps: seq<Piece>): string {
    if ps == [] then ""
    else
      var last := ps[|ps| - 1];
      Shown(ps[..|ps| - 1]) + if last.Chunk? then DisplayText(last.text) else ReplaceNbsp(PieceString(last))
  }

  lemma PieceIsTag(p: Piece)
    requires !p.Chunk? && (p.Open? ==> PlainClasses(p.item))
    ensures IsTag(PieceString(p))
  {
    if p.Open? {
      OpenTagIsTag(p.item);
    }
  }

  lemma {:induction false} ReplacePieces(ps: seq<Piece>, rest: string)
    requires PlainPieces(ps)
    ensures ReplaceNbsp(Render(ps) + rest) == Shown(ps) + ReplaceNbsp(rest)
  {
    if ps == [] {
      assert Render(ps) + rest == rest;
    } else {
      var front, last := ps[..|ps| - 1], ps[|ps| - 1];
      ReplacePieces(front, PieceString(last) + rest);
      Associative(Render(front), PieceString(last), rest);
      var shown := if last.Chunk? then DisplayText(last.text) else ReplaceNbsp(PieceString(last));
      if last.Chunk? {
        ReplaceAfterEscape(last.text, rest);
      } else {
        PieceIsTag(last);
        ReplacedTagIsTag(PieceString(last), rest);
      }
      Associative(Shown(front), shown, ReplaceNbsp(rest));
    }
  }

  lemma {:induction false} ErasePiece(p: Piece, rest: string)
    requires p.Open? ==> PlainClasses(p.item)
    ensures EraseTags((if p.Chunk? then DisplayText(p.text) else ReplaceNbsp(PieceString(p))) + rest)
         == DisplayText(if p.Chunk? then p.text else "") + EraseTags(rest)
  {
    if p.Chunk? {
      DisplayHasNoMarkup(p.text);
      EraseKeepsPlain(DisplayText(p.text), rest);
    } else {
      PieceIsTag(p);
      ReplacedTagIsTag(PieceString(p), "");
      EraseTag(ReplaceNbsp(PieceString(p)), rest);
    }
  }

  lemma {:induction false} ErasePieces(ps: seq<Piece>, rest: string)
    requires PlainPieces(ps)
    ensures EraseTags(Shown(ps) + rest) == DisplayText(TextOf(ps)) + EraseTags(rest)
  {
    if ps == [] {
      assert Shown(ps) + rest == rest;
    } else {
      var front, last := ps[..|ps| - 1], ps[|ps| - 1];
      var shown := if last.Chunk? then DisplayText(last.text) else ReplaceNbsp(PieceString(last));
      var text := if last.Chunk? then last.text else "";
      Associative(Shown(front), shown, rest);
      ErasePieces(front, shown + rest);
      ErasePiece(last, rest);
      DisplayConcat(TextOf(front), text);
      Associative(DisplayText(TextOf(front)), DisplayText(text), EraseTags(rest));
    }
  }

  /** Erasing the tags of the highlighted string leaves the escape of the document, a no-break space shown as a space. */
  lemma ErasingTagsRestoresText(text: string, items: seq<OffsetItem>)
    requires StartsSorted(items) && Pieces(text, items).Some?
    requires forall i :: 0 <= i < |items| ==> PlainClasses(items[i])
    ensures EraseTags(ReplaceNbsp(Render(Pieces(text, items).value))) == DisplayText(text)
  {
    var ps := Pieces(text, items).value;
    SpansCoverTheirItems(text, items);
    OpensTheItems(text, items);
    assert PlainPieces(ps) by {
      forall i | 0 <= i < |ps| && ps[i].Open? ensures PlainClasses(ps[i].item) {
        OpenedMember(ps, i);
        assert ps[i].item in items;
      }
    }
    assert Render(ps) + "" == Render(ps);
    ReplacePieces(ps, "");
    ErasePieces(ps, "");
    assert Shown(ps) + "" == Shown(ps);
    assert DisplayText(text) + "" == DisplayText(text);
  }

  /** The items whose spans are opened, in order. */
  function Opened(ps: seq<Piece>): seq<OffsetItem> {
    if ps == [] then []
    else
      var last := ps[|ps| - 1];
      Opened(ps[..|ps| - 1]) + if last.Open? then [last.item] else []
  }

  lemma OpenedSnoc(ps: seq<Piece>, p: Piece)
    ensures Opened(ps + [p]) == Opened(ps) + if p.Open? then [p.item] else []
  {
    DropLast(ps, p);
  }

  lemma OpenedPair(ps: seq<Piece>, chunk: string, p: Piece)
    ensures Opened(ps + [Chunk(chunk), p]) == Opened(ps) + if p.Open? then [p.item] else []
  {
    assert ps + [Chunk(chunk), p] == ps + [Chunk(chunk)] + [p];
    OpenedSnoc(ps, Chunk(chunk));
    OpenedSnoc(ps + [Chunk(chunk)], p);
  }

  lemma {:induction false} ClosePendingOpensNone(text: string, p: Progress, limit: Option<nat>)
    requires ClosePending(text, p, limit).Some?
    ensures Opened(ClosePending(text, p, limit).value.out) == Opened(p.out)
    decreases |p.ends|
  {
    if p.ends == [] || !Within(p.ends[0], limit) {
    } else {
      var s := SafeSubstring(text, p.last, p.ends[0]).value;
      OpenedPair(p.out, s, Close);
      ClosePendingOpensNone(text, Progress(p.out + [Chunk(s), Close], p.ends[1..], p.ends[0]), limit);
    }
  }

  lemma {:induction false} OpenItemsOpens(text: string, items: seq<OffsetItem>)
    requires OpenItems(text, items).Some?
    ensures Opened(OpenItems(text, items).value.out) == items
  {
    if items == [] {
    } else {
      var front, item := items[..|items| - 1], items[|items| - 1];
      OpenItemsOpens(text, front);
      var p := OpenItems(text, front).value;
      ClosePendingOpensNone(text, p, Some(item.Start()));
      var q := ClosePending(text, p, Some(item.Start())).value;
      OpenedPair(q.out, SafeSubstring(text, q.last, item.Start()).value, Open(item));
      assert OpenItems(text, items) == OpenItem(text, p, item);
      assert front + [item] == items;
    }
  }

  /** The spans of the output are those of the items, each opened once, in order. */
  lemma OpensTheItems(text: string, items: seq<OffsetItem>)
    requires Pieces(text, items).Some?
    ensures Opened(Pieces(text, items).value) == items
  {
    OpenItemsOpens(text, items);
    var p := OpenItems(text, items).value;
    ClosePendingOpensNone(text, p, None);
    var q := ClosePending(text, p, None).value;
    OpenedSnoc(q.out, Chunk(text[Clamp(text, q.last)..]));
  }

  lemma {:induction false} OpenedMember(ps: seq<Piece>, i: nat)
    requires i < |ps| && ps[i].Open?
    ensures ps[i].item in Opened(ps)
  {
    if i == |ps| - 1 {
    } else {
      OpenedMember(ps[..|ps| - 1], i);
    }
  }

  /**
   The laws for an arbitrary list of items, from the caller's list to the string: items
   that do not end before they start never make the highlighter throw, and then tags
   balance, each character is enclosed by the items shown that cover it, and erasing
   the tags gives the document back.
   */
  lemma HighlighterLaws(text: string, items: seq<OffsetItem>)
    requires forall c :: c in items ==> c.Start() <= c.End() && PlainClasses(c)
    ensures Pieces(text, ItemsToShow(items)).Some?
    ensures var ps := Pieces(text, ItemsToShow(items)).value;
            && EraseTags(ReplaceNbsp(Render(ps))) == DisplayText(text)
            && Opened(ps) == ItemsToShow(items)
            && WellNested(ps) && Depth(ps) == 0
            && |Depths(ps)| == |text|
            && forall q :: 0 <= q < |text| ==> Depths(ps)[q] == Covering(ItemsToShow(items), q)
  {
    var shown := ItemsToShow(items);
    ItemsToShowFacts(items);
    assert forall i :: 0 <= i < |shown| ==> shown[i] in items;
    ThrowsExactlyOnReversedItem(text, shown);
    SpansCoverTheirItems(text, shown);
    OpensTheItems(text, shown);
    ErasingTagsRestoresText(text, shown);
  }

  /** What the browser shows of the highlighted text, tags aside, is the document with a space for every no-break space. */
  lemma BrowserShowsDocument(text: string, items: seq<OffsetItem>)
    requires StartsSorted(items) && Pieces(text, items).Some?
    requires forall i :: 0 <= i < |items| ==> PlainClasses(items[i])
    ensures var shown := Decode(EraseTags(ReplaceNbsp(Render(Pieces(text, items).value))));
            |shown| == |text| && forall i :: 0 <= i < |text| ==> shown[i] == if text[i] == '\U{00A0}' then ' ' else text[i]
  {
    ErasingTagsRestoresText(text, items);
    DecodeAfterDisplay(text);
  }

  // ---------------------------------------------------------------- flat output for vertex mentions

  ghost predicate AllVertices(items: seq<OffsetItem>) {
    forall i :: 0 <= i < |items| ==> items[i].isVertex
  }

  /** Text between two offsets of the document, both cut off at its end. */
  function Slice(text: string, begin: nat, end: nat): string {
    var b, e := Clamp(text, begin), Clamp(text, end);
    if b <= e then text[b..e] else ""
  }

  function LastEnd(items: seq<OffsetItem>): nat {
    if items == [] then 0 else items[|items| - 1].End()
  }

  /** Spans one after the other, each around exactly the text of its item. */
  function FlatPieces(text: string, items: seq<OffsetItem>): seq<Piece> {
    if items == [] then []
    else
      var front, item := items[..|items| - 1], items[|items| - 1];
      FlatPieces(text, front)
      + [Chunk(Slice(text, LastEnd(front), item.Start())), Open(item),
         Chunk(Slice(text, item.Start(), item.End())), Close]
  }

  /** A queue of one end within the limit is emptied. */
  lemma CloseLast(text: string, p: Progress, limit: Option<nat>)
    requires |p.ends| == 1 && Within(p.ends[0], limit)
    requires Clamp(text, p.last) <= Clamp(text, p.ends[0])
    ensures ClosePending(text, p, limit)
         == Some(Progress(p.out + [Chunk(Slice(text, p.last, p.ends[0])), Close], [], p.ends[0]))
  {
    var s := SafeSubstring(text, p.last, p.ends[0]).value;
    var q := Progress(p.out + [Chunk(s), Close], p.ends[1..], p.ends[0]);
    assert p.ends[1..] == [];
    assert ClosePending(text, q, limit) == Some(q);
  }

  /** The progress after items whose spans follow each other: the last span is open, or nothing is written yet. */
  ghost predicate FlatSoFar(text: string, items: seq<OffsetItem>, p: Progress) {
    if items == [] then p == Progress([], [], 0)
    else
      && p.ends == [LastEnd(items)] && p.last == items[|items| - 1].Start()
      && p.out + [Chunk(Slice(text, p.last, LastEnd(items))), Close] == FlatPieces(text, items)
  }

  /** Closing the last span, if there is one, completes the flat output so far. */
  lemma FlatClose(text: string, items: seq<OffsetItem>, p: Progress, limit: Option<nat>)
    requires FlatSoFar(text, items, p) && Within(LastEnd(items), limit)
    requires items != [] ==> InOrder(text, items[|items| - 1])
    ensures ClosePending(text, p, limit) == Some(Progress(FlatPieces(text, items), [], LastEnd(items)))
  {
    if items != [] {
      CloseLast(text, p, limit);
    }
  }

  lemma FlatOpen(text: string, items: seq<OffsetItem>, p: Progress, item: OffsetItem)
    requires FlatSoFar(text, items, p) && LastEnd(items) <= item.Start()
    requires items != [] ==> InOrder(text, items[|items| - 1])
    ensures OpenItem(text, p, item).Some?
    ensures FlatSoFar(text, items + [item], OpenItem(text, p, item).value)
  {
    FlatClose(text, items, p, Some(item.Start()));
    var done := FlatPieces(text, items);
    var begin, inner := Slice(text, LastEnd(items), item.Start()), Slice(text, item.Start(), item.End());
    assert SafeSubstring(text, LastEnd(items), item.Start()) == Some(begin);
    assert InsertEnd([], item.End()) == [item.End()];
    DropLast(items, item);
    assert done + [Chunk(begin), Open(item)] + [Chunk(inner), Close]
        == done + [Chunk(begin), Open(item), Chunk(inner), Close];
  }

  lemma FlatNext(text: string, front: seq<OffsetItem>, item: OffsetItem)
    requires OpenItems(text, front).Some? && FlatSoFar(text, front, OpenItems(text, front).value)
    requires LastEnd(front) <= item.Start() && (front != [] ==> InOrder(text, front[|front| - 1]))
    ensures OpenItems(text, front + [item]).Some?
    ensures FlatSoFar(text, front + [item], OpenItems(text, front + [item]).value)
  {
    FlatOpen(text, front, OpenItems(text, front).value, item);
    OpenItemsExtend(text, front, item);
  }

  lemma DisjointFront(items: seq<OffsetItem>)
    requires AllVertices(items) && VerticesDisjoint(items) && items != []
    ensures var n := |items| - 1;
            && AllVertices(items[..n]) && VerticesDisjoint(items[..n])
            && LastEnd(items[..n]) <= items[n].Start()
            && forall i :: 0 <= i < n ==> items[..n][i] == items[i]
  {
    var n := |items| - 1;
    assert forall i :: 0 <= i < n ==> items[..n][i] == items[i];
    if n > 0 {
      assert items[n - 1].End() <= items[n].Start();
    }
  }

  lemma {:induction false} FlatProgress(text: string, items: seq<OffsetItem>)
    requires AllVertices(items) && VerticesDisjoint(items)
    requires forall i :: 0 <= i < |items| ==> InOrder(text, items[i])
    ensures OpenItems(text, items).Some? && FlatSoFar(text, items, OpenItems(text, items).value)
  {
    if items == [] {
    } else {
      var front, item := items[..|items| - 1], items[|items| - 1];
      DisjointFront(items);
      FlatProgress(text, front);
      FlatNext(text, front, item);
      assert front + [item] == items;
    }
  }

  lemma {:induction false} FlatPiecesInOrder(text: string, items: seq<OffsetItem>)
    requires AllVertices(items) && VerticesDisjoint(items)
    requires forall i :: 0 <= i < |items| ==> InOrder(text, items[i])
    ensures Pieces(text, items)
         == Some(FlatPieces(text, items) + [Chunk(Slice(text, LastEnd(items), |text|))])
  {
    FlatProgress(text, items);
    var p := OpenItems(text, items).value;
    FlatClose(text, items, p, None);
    assert text[Clamp(text, LastEnd(items))..] == Slice(text, LastEnd(items), |text|);
  }

  /** With vertex mentions only, no span is nested and each encloses exactly the text of its mention. */
  lemma {:induction false} VertexSpansAreFlat(text: string, items: seq<OffsetItem>)
    requires AllVertices(items) && VerticesDisjoint(items) && StartsSorted(items)
    requires Pieces(text, items).Some?
    ensures Pieces(text, items).value
         == FlatPieces(text, items) + [Chunk(Slice(text, LastEnd(items), |text|))]
  {
    ThrowsExactlyOnReversedItem(text, items);
    FlatPiecesInOrder(text, items);
  }

  // ---------------------------------------------------------------- the method

  datatype Error = StringIndexOutOfBounds

  /** The caller's mutable list of items. */
  class OffsetItems {
    var items: seq<OffsetItem>

    constructor (items: seq<OffsetItem>)
      ensures this.items == items
    {
      this.items := items;
    }
  }

  /** Closes, in the result, the spans whose end is within the limit. */
  method AppendClosing(text: string, result: string, ends: seq<nat>, last: nat, limit: Option<nat>, ghost p: Progress)
    returns (r: Result<string, Error>, ends': seq<nat>, last': nat)
    requires result == Render(p.out) && ends == p.ends && last == p.last
    ensures match ClosePending(text, p, limit)
            case None => r.Failure?
            case Some(q) => r == Success(Render(q.out)) && ends' == q.ends && last' == q.last
  {
    ghost var q := p;
    var s := result;
    ends', last' := ends, last;
    while ends' != [] && Within(ends'[0], limit)
      invariant q.ends == ends' && q.last == last' && s == Render(q.out)
      invariant ClosePending(text, p, limit) == ClosePending(text, q, limit)
      decreases |ends'|
    {
      var end := ends'[0];
      var chunk := SafeSubstring(text, last', end);
      if chunk.None? {
        return Failure(StringIndexOutOfBounds), ends', last';
      }
      Extend(q.out, Chunk(chunk.value));
      Extend(q.out + [Chunk(chunk.value)], Close);
      assert q.out + [Chunk(chunk.value)] + [Close] == q.out + [Chunk(chunk.value), Close];
      q := Progress(q.out + [Chunk(chunk.value), Close], q.ends[1..], end);
      s := s + Escape(chunk.value);
      s := s + "</span>";
      ends', last' := ends'[1..], end;
    }
    r := Success(s);
  }

  /** Appends the text up to an item and its opening tag. */
  method AppendOpening(text: string, result: string, ends: seq<nat>, last: nat, item: OffsetItem, ghost p: Progress)
    returns (r: Result<string, Error>, ends': seq<nat>, last': nat)
    requires result == Render(p.out) && ends == p.ends && last == p.last
    ensures match OpenItem(text, p, item)
            case None => r.Failure?
            case Some(q) => r == Success(Render(q.out)) && ends' == q.ends && last' == q.last
  {
    r, ends', last' := AppendClosing(text, result, ends, last, Some(item.Start()), p);
    if r.Failure? {
      return;
    }
    ghost var q := ClosePending(text, p, Some(item.Start())).value;
    var chunk := SafeSubstring(text, last', item.Start());
    if chunk.None? {
      return Failure(StringIndexOutOfBounds), ends', last';
    }
    Extend(q.out, Chunk(chunk.value));
    Extend(q.out + [Chunk(chunk.value)], Open(item));
    assert q.out + [Chunk(chunk.value)] + [Open(item)] == q.out + [Chunk(chunk.value), Open(item)];
    r := Success(r.value + Escape(chunk.value) + OpenTag(item));
    ends', last' := InsertEnd(ends', item.End()), item.Start();
  }

  /** Closes every span still open and appends the rest of the text. */
  method AppendRest(text: string, result: string, ends: seq<nat>, last: nat, ghost p: Progress)
    returns (r: Result<string, Error>)
    requires result == Render(p.out) && ends == p.ends && last == p.last
    ensures match ClosePending(text, p, None)
            case None => r.Failure?
            case Some(q) => r == Success(Render(q.out + [Chunk(text[Clamp(text, q.last)..])]))
  {
    var ends', last';
    r, ends', last' := AppendClosing(text, result, ends, last, None, p);
    if r.Success? {
      ghost var q := ClosePending(text, p, None).value;
      Extend(q.out, Chunk(text[Clamp(text, q.last)..]));
      r := Success(r.value + Escape(text[Clamp(text, last')..]));
    }
  }

  /** The surviving prefix, then what the scan has not reached. */
  ghost predicate Scanned(items: seq<OffsetItem>, sorted: seq<OffsetItem>, k: nat, i: nat)
  {
    && k <= |sorted|
    && i == |Survivors(sorted[..k])|
    && items == Survivors(sorted[..k]) + sorted[k..]
  }

  ghost predicate PartlyScanned(items: seq<OffsetItem>, sorted: seq<OffsetItem>) {
    exists k, i :: Scanned(items, sorted, k, i)
  }

  lemma ScanNext(items: seq<OffsetItem>, sorted: seq<OffsetItem>, k: nat, i: nat)
    requires Scanned(items, sorted, k, i) && k < |sorted|
    ensures i < |items| && items[i] == sorted[k] && items[..i] == Survivors(sorted[..k])
    ensures if ConflictsWithAny(items[..i], items[i])
            then Scanned(items[..i] + items[i + 1..], sorted, k + 1, i)
                 && Highlighted(Survivors(sorted[..k + 1])) == Highlighted(items[..i])
            else Scanned(items, sorted, k + 1, i + 1)
                 && Survivors(sorted[..k + 1]) == items[..i] + [items[i]]
  {
    assert sorted[..k + 1][..k] == sorted[..k];
    assert sorted[k..] == [sorted[k]] + sorted[k + 1..];
    assert items[..i] == Survivors(sorted[..k]);
    assert items[i + 1..] == sorted[k + 1..];
  }

  lemma HighlightedExtend(kept: seq<OffsetItem>, item: OffsetItem)
    ensures Highlighted(kept + [item]) == Highlighted(kept) + if item.shouldHighlight then [item] else []
  {
    assert (kept + [item])[..|kept|] == kept;
  }

  lemma {:induction false} OpenItemsPrefixFails(text: string, items: seq<OffsetItem>, k: nat)
    requires k <= |items| && OpenItems(text, items[..k]).None?
    ensures OpenItems(text, items).None?
    decreases |items|
  {
    if k == |items| {
      assert items[..k] == items;
    } else {
      assert items[..|items| - 1][..k] == items[..k];
      OpenItemsPrefixFails(text, items[..|items| - 1], k);
    }
  }

  lemma {:induction false} HighlightedPrefix(a: seq<OffsetItem>, b: seq<OffsetItem>)
    requires a <= b
    ensures Highlighted(a) <= Highlighted(b)
    decreases |b|
  {
    if |a| < |b| {
      assert a <= b[..|b| - 1];
      HighlightedPrefix(a, b[..|b| - 1]);
    } else {
      assert a == b;
    }
  }

  /** A failure while the k-th item is handled is a failure of the whole. */
  lemma FailureSpreads(text: string, sorted: seq<OffsetItem>, k: nat)
    requires k <= |sorted| && OpenItems(text, Highlighted(Survivors(sorted[..k]))).None?
    ensures OpenItems(text, Highlighted(Survivors(sorted))).None?
  {
    if k < |sorted| {
      RemovedOnlyForConflict(sorted, k);
    } else {
      assert sorted[..k] == sorted;
    }
    var a, b := Highlighted(Survivors(sorted[..k])), Highlighted(Survivors(sorted));
    HighlightedPrefix(Survivors(sorted[..k]), Survivors(sorted));
    assert b[..|a|] == a;
    OpenItemsPrefixFails(text, b, |a|);
  }

  /** Is the i-th item a vertex mention that overlaps an earlier one? */
  method OverlapsPrevious(items: seq<OffsetItem>, i: nat) returns (overlaps: bool)
    requires i < |items|
    ensures overlaps <==>
            items[i].isVertex && exists j :: 0 <= j < i && items[j].isVertex
                                             && (items[j].End() > items[i].Start() || items[j].End() >= items[i].End())
  {
    overlaps := false;
    if items[i].isVertex {
      for j := 0 to i
        invariant forall m :: 0 <= m < j && items[m].isVertex ==>
          items[m].End() <= items[i].Start() && items[m].End() < items[i].End()
      {
        var compareItem := items[j];
        if compareItem.isVertex
           && (compareItem.End() >= items[i].End() || compareItem.End() > items[i].Start())
        {
          overlaps := true;
          return;
        }
      }
    }
  }

  lemma OverlapsIsConflict(items: seq<OffsetItem>, i: nat)
    requires i < |items|
    ensures ConflictsWithAny(items[..i], items[i]) <==>
            items[i].isVertex && exists j :: 0 <= j < i && items[j].isVertex
                                             && (items[j].End() > items[i].Start() || items[j].End() >= items[i].End())
  {
    ConflictsExactly(items[..i], items[i]);
    assert forall j :: 0 <= j < i ==> items[j] in items[..i];
  }

  /** One turn of the scan: an overlapping item is removed from the list, any other is stepped over. */
  method ScanItem(offsetItems: OffsetItems, i: nat, ghost sorted: seq<OffsetItem>, ghost k: nat)
    returns (next: nat, kept: Option<OffsetItem>)
    requires Scanned(offsetItems.items, sorted, k, i) && i < |offsetItems.items| && k < |sorted|
    modifies offsetItems
    ensures Scanned(offsetItems.items, sorted, k + 1, next)
    ensures kept == if ConflictsWithAny(Survivors(sorted[..k]), sorted[k]) then None else Some(sorted[k])
    ensures Highlighted(Survivors(sorted[..k + 1]))
         == if kept.Some? && kept.value.shouldHighlight then Highlighted(Survivors(sorted[..k])) + [kept.value]
            else Highlighted(Survivors(sorted[..k]))
  {
    ScanNext(offsetItems.items, sorted, k, i);
    var offsetItem := offsetItems.items[i];
    var overlapsPreviousItem := OverlapsPrevious(offsetItems.items, i);
    HighlightedExtend(offsetItems.items[..i], offsetItem);
    OverlapsIsConflict(offsetItems.items, i);
    if overlapsPreviousItem {
      offsetItems.items := offsetItems.items[..i] + offsetItems.items[i + 1..];
      next, kept := i, None;
    } else {
      next, kept := i + 1, Some(offsetItem);
    }
  }

  lemma ScanBounds(items: seq<OffsetItem>, sorted: seq<OffsetItem>, k: nat, i: nat)
    requires Scanned(items, sorted, k, i)
    ensures i <= |items| && (i < |items| <==> k < |sorted|)
  {
  }

  lemma ScanEnd(items: seq<OffsetItem>, sorted: seq<OffsetItem>, k: nat, i: nat)
    requires Scanned(items, sorted, k, i) && i >= |items|
    ensures sorted[..k] == sorted && items == Survivors(sorted)
  {
    ScanBounds(items, sorted, k, i);
  }

  lemma OpenItemsExtend(text: string, shown: seq<OffsetItem>, item: OffsetItem)
    requires OpenItems(text, shown).Some?
    ensures OpenItems(text, shown + [item]) == OpenItem(text, OpenItems(text, shown).value, item)
  {
    assert (shown + [item])[..|shown|] == shown;
  }

  /** The variables of the loop hold what opening the items shown so far gives. */
  ghost predicate ShownSoFar(
      text: string, shown: seq<OffsetItem>, p: Progress, result: string, ends: seq<nat>, last: nat)
  {
    OpenItems(text, shown) == Some(p) && p.ends == ends && p.last == last && result == Render(p.out)
  }

  /** The state of the loop when it has looked at k of the sorted items. */
  ghost predicate Looped(
      text: string, items: seq<OffsetItem>, sorted: seq<OffsetItem>, k: nat, i: nat,
      p: Progress, result: string, ends: seq<nat>, last: nat)
  {
    Scanned(items, sorted, k, i) && ShownSoFar(text, Highlighted(Survivors(sorted[..k])), p, result, ends, last)
  }

  lemma LoopStart(text: string, sorted: seq<OffsetItem>)
    ensures Looped(text, sorted, sorted, 0, 0, Progress([], [], 0), "", [], 0)
  {
    assert sorted[..0] == [];
  }

  /** One turn of the loop: the scan, then the span of the item if it is kept and to be highlighted. */
  method ShowItem(
      text: string, offsetItems: OffsetItems, i: nat, result: string, ends: seq<nat>, last: nat,
      ghost sorted: seq<OffsetItem>, ghost k: nat, ghost p: Progress)
    returns (next: nat, r: Result<string, Error>, ends': seq<nat>, last': nat, ghost p': Progress)
    requires Looped(text, offsetItems.items, sorted, k, i, p, result, ends, last) && i < |offsetItems.items|
    modifies offsetItems
    ensures k < |sorted|
    ensures r.Failure? ==> OpenItems(text, Highlighted(Survivors(sorted))).None?
                           && PartlyScanned(offsetItems.items, sorted)
    ensures r.Success? ==> Looped(text, offsetItems.items, sorted, k + 1, next, p', r.value, ends', last')
  {
    ghost var shown := Highlighted(Survivors(sorted[..k]));
    ScanBounds(offsetItems.items, sorted, k, i);
    var kept;
    next, kept := ScanItem(offsetItems, i, sorted, k);
    r, ends', last', p' := Success(result), ends, last, p;
    if kept.Some? && kept.value.shouldHighlight {
      OpenItemsExtend(text, shown, kept.value);
      r, ends', last' := AppendOpening(text, result, ends, last, kept.value, p);
      if r.Success? {
        p' := OpenItem(text, p, kept.value).value;
      } else {
        FailureSpreads(text, sorted, k + 1);
      }
    }
  }

  /** The loop over the items, which is left early when it throws. */
  method ShowItems(text: string, offsetItems: OffsetItems)
    returns (r: Result<string, Error>, ends: seq<nat>, last: nat, ghost p: Progress)
    modifies offsetItems
    ensures var sorted := old(offsetItems.items);
            && (r.Failure? ==> OpenItems(text, Highlighted(Survivors(sorted))).None?
                               && PartlyScanned(offsetItems.items, sorted))
            && (r.Success? ==> ShownSoFar(text, Highlighted(Survivors(sorted)), p, r.value, ends, last)
                               && offsetItems.items == Survivors(sorted))
  {
    ghost var sorted := offsetItems.items;
    r, ends, last, p := Success(""), [], 0, Progress([], [], 0);
    ghost var k: nat := 0;
    var i: nat := 0;
    LoopStart(text, sorted);
    while i < |offsetItems.items|
      invariant r.Success? && Looped(text, offsetItems.items, sorted, k, i, p, r.value, ends, last)
      decreases |sorted| - k
    {
      i, r, ends, last, p := ShowItem(text, offsetItems, i, r.value, ends, last, sorted, k, p);
      k := k + 1;
      if r.Failure? {
        return;
      }
    }
    ScanEnd(offsetItems.items, sorted, k, i);
  }

  /**
   Sorts the caller's list, removes overlapping vertex mentions from it in place, and
   returns the highlighted text, or fails as the source does when a substring is reversed.
   */
  method GetHighlightedText(text: string, offsetItems: OffsetItems) returns (r: Result<string, Error>)
    modifies offsetItems
    ensures var sorted := SortItems(old(offsetItems.items));
            match Pieces(text, ItemsToShow(old(offsetItems.items)))
            case None => r.Failure? && PartlyScanned(offsetItems.items, sorted)
            case Some(ps) => r == Success(ReplaceNbsp(Render(ps))) && offsetItems.items == Survivors(sorted)
  {
    offsetItems.items := SortItems(offsetItems.items);
    var endOffsets, lastStart;
    ghost var p;
    r, endOffsets, lastStart, p := ShowItems(text, offsetItems);
    if r.Failure? {
      return;
    }
    WholeIsScanned(offsetItems.items, SortItems(old(offsetItems.items)));
    r := AppendRest(text, r.value, endOffsets, lastStart, p);
    if r.Success? {
      r := Success(ReplaceNbsp(r.value));
    }
  }

  lemma WholeIsScanned(items: seq<OffsetItem>, sorted: seq<OffsetItem>)
    requires items == Survivors(sorted)
    ensures PartlyScanned(items, sorted)
  {
    assert sorted[..|sorted|] == sorted && items + sorted[|sorted|..] == items;
    assert Scanned(items, sorted, |sorted|, |items|);
  }
}
