/**
 Making room for a pane: the compression loop of triggerPaneResized in app.js. Panes are
 narrowed in order, each down to its minimum, until the missing pixels are found.
 */
module PaneResize {
  import opened Wrappers

  datatype Pane = Pane(width: int, minWidth: int)

  function Narrowed(p: Pane, needed: int): Pane {
    p.(width := Max(p.minWidth, p.width - needed))
  }

  /** The panes after the loop, and the pixels still needed. */
  function Compress(panes: seq<Pane>, needed: int): (seq<Pane>, int) {
    if panes == [] then ([], needed)
    else
      var (front, left) := Compress(panes[..|panes| - 1], needed);
      var p := panes[|panes| - 1];
      if left <= 0 then (front + [p], left)
      else (front + [Narrowed(p, left)], left - (p.width - Narrowed(p, left).width))
  }

  function Total(panes: seq<Pane>): int {
    if panes == [] then 0 else Total(panes[..|panes| - 1]) + panes[|panes| - 1].width
  }

  function Minimum(panes: seq<Pane>): int {
    if panes == [] then 0 else Minimum(panes[..|panes| - 1]) + panes[|panes| - 1].minWidth
  }

  ghost predicate AboveMinimum(panes: seq<Pane>) {
    forall i :: 0 <= i < |panes| ==> panes[i].minWidth <= panes[i].width
  }

  /** The pixels found are exactly those the panes have lost, even if a pane below its minimum is widened. */
  lemma {:induction false} CompressConserves(panes: seq<Pane>, needed: int)
    ensures var (r, left) := Compress(panes, needed);
            |r| == |panes| && Total(panes) - Total(r) == needed - left
  {
    if panes == [] {
    } else {
      CompressConserves(panes[..|panes| - 1], needed);
      var (r, left) := Compress(panes, needed);
      var (front, _) := Compress(panes[..|panes| - 1], needed);
      assert r[..|r| - 1] == front;
    }
  }

  /** Panes above their minimum give exactly what is needed, or all they have, and the earlier ones give first. */
  lemma {:induction false} CompressExactly(panes: seq<Pane>, needed: nat)
    requires AboveMinimum(panes)
    ensures var (r, left) := Compress(panes, needed);
            && |r| == |panes| && left == Max(0, needed - (Total(panes) - Minimum(panes)))
            && (forall i :: 0 <= i < |r| ==> r[i].minWidth == panes[i].minWidth <= r[i].width <= panes[i].width)
            && (forall i, j :: 0 <= i < j < |r| && r[j].width < panes[j].width ==> r[i].width == r[i].minWidth)
            && (left > 0 ==> forall i :: 0 <= i < |r| ==> r[i].width == r[i].minWidth)
    ensures Minimum(panes) <= Total(panes)
  {
    if panes == [] {
    } else {
      var front := panes[..|panes| - 1];
      assert forall i :: 0 <= i < |front| ==> front[i] == panes[i];
      CompressExactly(front, needed);
      var (f, left) := Compress(front, needed);
      var (r, _) := Compress(panes, needed);
      assert forall i :: 0 <= i < |f| ==> r[i] == f[i];
    }
  }

  /** A pane is left as it is once the pixels are found in those before it, and otherwise gives what is missing down to its minimum. */
  lemma {:induction false} CompressStops(panes: seq<Pane>, needed: int, i: nat)
    requires i < |panes|
    ensures |Compress(panes, needed).0| == |panes|
    ensures var (r, left) := (Compress(panes, needed).0, Compress(panes[..i], needed).1);
            && r[i].minWidth == panes[i].minWidth
            && r[i].width == if left <= 0 then panes[i].width
                             else if panes[i].width - left < panes[i].minWidth then panes[i].minWidth
                             else panes[i].width - left
    decreases |panes|
  {
    var n := |panes| - 1;
    CompressConserves(panes[..n], needed);
    if i == n {
    } else {
      CompressStops(panes[..n], needed, i);
      assert panes[..n][..i] == panes[..i];
    }
  }

  /** The loop, narrowing panes in place. */
  method CompressPanes(panes: array<Pane>, needed: int) returns (left: int)
    modifies panes
    ensures (panes[..], left) == Compress(old(panes[..]), needed)
  {
    left := needed;
    ghost var before := panes[..];
    for i := 0 to panes.Length
      invariant (panes[..i], left) == Compress(before[..i], needed)
      invariant forall k :: i <= k < panes.Length ==> panes[k] == before[k]
    {
      assert before[..i + 1][..i] == before[..i] && panes[i] == before[i];
      ghost var done := panes[..i];
      if left > 0 {
        var newWidth := Max(panes[i].minWidth, panes[i].width - left);
        left := left - (panes[i].width - newWidth);
        panes[i] := panes[i].(width := newWidth);
      }
      assert panes[..i + 1] == done + [panes[i]];
    }
    assert before[..panes.Length] == before && panes[..panes.Length] == panes[..];
  }
}
