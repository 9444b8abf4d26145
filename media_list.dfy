/**
 * src/components/MediaList.ts: the keyboard navigation of the media list
 * and the meta label of its items.
 *
 * Every helper computes a target index and hands it to `selectAndScrollTo`,
 * which takes it only when it is a position of the list. The selection is
 * `number | null`, modelled as `Option<int>`; scrolling is left out. The
 * `selectAndView*` helpers also report the index they pass to
 * `onActivation`.
 */
module MediaList {
  import opened Wrappers
  import opened Text
  import Serializers

  /** `selectAndScrollTo(index)`: the new selection. */
  function SelectAndScrollTo(len: nat, selected: Option<int>, index: int): (r: Option<int>)
    ensures 0 <= index < len ==> r == Some(index)
    ensures !(0 <= index < len) ==> r == selected
  {
    if len > 0 && index >= 0 && index < len then Some(index) else selected
  }

  function Max(a: int, b: int): int { if a >= b then a else b }
  function Min(a: int, b: int): int { if a <= b then a else b }

  /** A selection that is absent or names an item of the list. */
  predicate InList(len: nat, selected: Option<int>) {
    selected.None? || 0 <= selected.value < len
  }

  /** The navigation shortcuts of the list that only move the selection. */
  datatype Move = Up | Down | Prev | Next | PageBack | PageForward | First | Last

  /**
   * The target `selectPageForward` computes: three rows on, capped at the
   * length itself, one past the last item.
   */
  function PageForwardAsWritten(len: nat, s: int, itemsPerRow: int): (r: int)
    ensures r <= len
    ensures s + itemsPerRow * 3 < len ==> r == s + itemsPerRow * 3
    ensures s + itemsPerRow * 3 >= len ==> r == len
  {
    Min(s + itemsPerRow * 3, len)
  }

  /** The page-forward target capped at the last item, as `selectDown` caps its own. */
  function PageForwardTarget(len: nat, s: int, itemsPerRow: int): (r: int)
    ensures r <= len - 1
    ensures s + itemsPerRow * 3 < len ==> r == s + itemsPerRow * 3
    ensures s + itemsPerRow * 3 >= len ==> r == len - 1
  {
    Min(s + itemsPerRow * 3, len - 1)
  }

  /** The index a move hands to `selectAndScrollTo`; None when a relative move has no selection to start from. */
  function MoveTarget(m: Move, len: nat, selected: Option<int>, itemsPerRow: int): (r: Option<int>)
    ensures m.First? ==> r == Some(0)
    ensures m.Last? ==> r == Some(len - 1)
    ensures !m.First? && !m.Last? ==> (r.None? <==> selected.None?)
  {
    match m
    case First => Some(0)
    case Last => Some(len - 1)
    case _ =>
      if selected.None? then None
      else
        var s := selected.value;
        Some(match m
             case Up => Max(s - itemsPerRow, 0)
             case Down => Min(s + itemsPerRow, len - 1)
             case Prev => Max(s - 1, 0)
             case Next => Min(s + 1, len - 1)
             case PageBack => Max(s - itemsPerRow * 3, 0)
             case PageForward => PageForwardAsWritten(len, s, itemsPerRow))
  }

  /** The targets with page forward capped at the last item. */
  function CorrectedMoveTarget(m: Move, len: nat, selected: Option<int>, itemsPerRow: int): (r: Option<int>)
    ensures !m.PageForward? ==> r == MoveTarget(m, len, selected, itemsPerRow)
    ensures m.PageForward? ==> (r.None? <==> selected.None?)
  {
    if m.PageForward? && selected.Some? then Some(PageForwardTarget(len, selected.value, itemsPerRow))
    else MoveTarget(m, len, selected, itemsPerRow)
  }

  /** The selection once `selectAndScrollTo` has been handed a target, if there is one. */
  function TakeTarget(len: nat, selected: Option<int>, target: Option<int>): (r: Option<int>)
    ensures InList(len, selected) ==> InList(len, r)
    ensures r != selected ==> r.Some? && 0 <= r.value < len
  {
    match target
    case None => selected
    case Some(t) => SelectAndScrollTo(len, selected, t)
  }

  /** The selection after a move, as the shortcuts compute it. */
  function Select(m: Move, len: nat, selected: Option<int>, itemsPerRow: int): (r: Option<int>)
    ensures InList(len, selected) ==> InList(len, r)
    ensures r != selected ==> r.Some? && 0 <= r.value < len
  {
    TakeTarget(len, selected, MoveTarget(m, len, selected, itemsPerRow))
  }

  /** The selection after a move, with page forward corrected. */
  function SelectCorrected(m: Move, len: nat, selected: Option<int>, itemsPerRow: int): (r: Option<int>)
    ensures InList(len, selected) ==> InList(len, r)
    ensures r != selected ==> r.Some? && 0 <= r.value < len
    ensures !m.PageForward? ==> r == Select(m, len, selected, itemsPerRow)
  {
    TakeTarget(len, selected, CorrectedMoveTarget(m, len, selected, itemsPerRow))
  }

  /** Without a selection only First and Last move; on an empty list nothing moves. */
  lemma RelativeMovesNeedSelection(m: Move, len: nat, itemsPerRow: int)
    ensures !m.First? && !m.Last? ==> Select(m, len, None, itemsPerRow) == None
    ensures forall s :: Select(m, 0, s, itemsPerRow) == s
  {
  }

  /**
   * From an item of the list, with a non-negative row width, the moves land
   * on their target clamped into the list: up and down by a row, back and
   * forth by one.
   */
  lemma MovesClamp(len: nat, s: int, itemsPerRow: int)
    requires 0 <= s < len && itemsPerRow >= 0
    ensures Select(Up, len, Some(s), itemsPerRow) == Some(Max(s - itemsPerRow, 0))
    ensures Select(Down, len, Some(s), itemsPerRow) == Some(Min(s + itemsPerRow, len - 1))
    ensures Select(Prev, len, Some(s), itemsPerRow) == Some(Max(s - 1, 0))
    ensures Select(Next, len, Some(s), itemsPerRow) == Some(Min(s + 1, len - 1))
  {
  }

  /**
   * From an item of the list, with a non-negative row width, page back lands
   * three rows back clamped at the first item, and First and Last on the ends.
   */
  lemma PagesClamp(len: nat, s: int, itemsPerRow: int)
    requires 0 <= s < len && itemsPerRow >= 0
    ensures Select(PageBack, len, Some(s), itemsPerRow) == Some(Max(s - 3 * itemsPerRow, 0))
    ensures Select(First, len, Some(s), itemsPerRow) == Some(0)
    ensures Select(Last, len, Some(s), itemsPerRow) == Some(len - 1)
  {
  }

  /** As written, a page forward moves only when the page stays before the end; otherwise nothing moves. */
  lemma PageForwardAsWrittenRefused(len: nat, s: int, itemsPerRow: int)
    requires 0 <= s < len && itemsPerRow >= 0
    ensures Select(PageForward, len, Some(s), itemsPerRow) ==
            if s + 3 * itemsPerRow < len then Some(s + 3 * itemsPerRow) else Some(s)
  {
  }

  /** With the correction, a page forward lands three rows on clamped at the last item. */
  lemma CorrectedPageForwardClamps(len: nat, s: int, itemsPerRow: int)
    requires 0 <= s < len && itemsPerRow >= 0
    ensures SelectCorrected(PageForward, len, Some(s), itemsPerRow) == Some(Min(s + 3 * itemsPerRow, len - 1))
  {
  }

  /**
   * As written, a page forward that would pass the end selects nothing new:
   * with ten items and one per row, from item 8 the target is 10 and the
   * selection stays on 8; corrected, it reaches item 9.
   */
  lemma PageForwardStallsNearEnd()
    ensures Select(PageForward, 10, Some(8), 1) == Some(8)
    ensures SelectCorrected(PageForward, 10, Some(8), 1) == Some(9)
  {
  }

  /** The `selectAndView*` shortcuts: a move and an activation. */
  datatype ViewMove = ViewUp | ViewDown | ViewPrev | ViewNext

  /** The plain move a view move repeats. */
  function PlainMove(v: ViewMove): Move {
    match v
    case ViewUp => Up
    case ViewDown => Down
    case ViewPrev => Prev
    case ViewNext => Next
  }

  /**
   * A view move: the new selection and the argument passed to `onActivation`,
   * which is called whenever there is a selection, with the target index
   * even where `selectAndScrollTo` refused it.
   */
  function SelectAndView(v: ViewMove, len: nat, selected: Option<int>, itemsPerRow: int): (r: (Option<int>, Option<int>))
    ensures r.0 == Select(PlainMove(v), len, selected, itemsPerRow)
    ensures r.1.None? <==> selected.None?
    ensures selected.Some? ==> r.1 == MoveTarget(PlainMove(v), len, selected, itemsPerRow)
  {
    if selected.None? then (None, None)
    else
      var index := MoveTarget(PlainMove(v), len, selected, itemsPerRow).value;
      (SelectAndScrollTo(len, selected, index), Some(index))
  }

  /** From an item of the list, a view move activates exactly the item it selects. */
  lemma ViewActivatesSelection(v: ViewMove, len: nat, s: int, itemsPerRow: int)
    requires 0 <= s < len && itemsPerRow >= 0
    ensures SelectAndView(v, len, Some(s), itemsPerRow).1 == SelectAndView(v, len, Some(s), itemsPerRow).0
  {
  }

  /** On an empty list a stale selection still activates an index no item has. */
  lemma ViewOnEmptyList()
    ensures SelectAndView(ViewNext, 0, Some(0), 1) == (Some(0), Some(-1))
  {
  }

  /** `toggleViewSelectedItem`: the argument passed to `onActivation`. */
  function ToggleView(selected: Option<int>, active: Option<int>): (r: Option<int>)
    ensures r.None? <==> (selected == active || selected.None?)
    ensures r.Some? ==> r == selected
  {
    if selected == active then None else selected
  }

  /** Toggling twice with the activation applied in between comes back to no activation. */
  lemma ToggleTwice(selected: Option<int>, active: Option<int>)
    ensures ToggleView(selected, ToggleView(selected, active)) == (if selected == active then selected else None)
  {
  }

  /** JavaScript truthiness of an optional number: present and non-zero. */
  predicate TruthyNumber(n: Option<int>) {
    n.Some? && n.value != 0
  }

  /** `metaStr`: the size, the dimensions `W×H`, or both joined by a comma; None when falsy. */
  function MetaLabel(size: Option<string>, width: Option<int>, height: Option<int>): (r: Option<string>)
    ensures r.Some? <==> Truthy(size) || (TruthyNumber(width) && TruthyNumber(height))
    ensures r.Some? ==> r.value != ""
    ensures !(TruthyNumber(width) && TruthyNumber(height)) ==> (r.Some? ==> r == size)
  {
    if TruthyNumber(width) && TruthyNumber(height) then
      var dimensions := IntToString(width.value) + "×" + IntToString(height.value);
      Some(if Truthy(size) then size.value + ", " + dimensions else dimensions)
    else if Truthy(size) then size
    else None
  }

  /** A truthy size and two non-zero dimensions: `size, W×H`. */
  lemma MetaLabelOfAll(size: string, w: int, h: int)
    requires size != "" && w != 0 && h != 0
    ensures MetaLabel(Some(size), Some(w), Some(h)) == Some(size + ", " + (IntToString(w) + "×" + IntToString(h)))
  {
  }

  /** A falsy size and two non-zero dimensions: `W×H` alone. */
  lemma MetaLabelOfDimensions(size: Option<string>, w: int, h: int)
    requires !Truthy(size) && w != 0 && h != 0
    ensures MetaLabel(size, Some(w), Some(h)) == Some(IntToString(w) + "×" + IntToString(h))
  {
  }

  /** A missing or zero dimension drops both: the label is the size, if truthy. */
  lemma MetaLabelWithoutDimensions(size: Option<string>, width: Option<int>, height: Option<int>)
    requires !TruthyNumber(width) || !TruthyNumber(height)
    ensures MetaLabel(size, width, height) == if Truthy(size) then size else None
  {
  }

  /**
   * An item whose meta text was `size, WxH` is labelled with the same size
   * and dimensions, the `x` shown as `×`.
   */
  lemma MetaLabelOfMetaText(size: string, w: nat, h: nat)
    requires size != "" && ',' !in size && Trim(size) == size && w > 0 && h > 0
    ensures var parts := Serializers.SizeAndDimensions(Some(Serializers.MetaText(size, w, h)));
            var dims := Serializers.WidthAndHeight(parts.1);
            MetaLabel(parts.0, dims.0, dims.1) == Some(size + ", " + (IntToString(w) + "×" + IntToString(h)))
  {
    Serializers.MetaTextReadsBack(size, w, h);
    MetaLabelOfAll(size, w, h);
  }
}
