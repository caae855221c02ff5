/**
 The overlay of the bracket-reference suggestion list: its `layout` state, the
 effect that places the panel below the caret anchor or flips it above when it
 would run past the bottom of the viewport, what is rendered from that state,
 and what a click on a suggestion does.

 Pixel values are integers; the measured panel height and the viewport height
 are inputs of the effect.
 */
module OverlayPositioner {
  import CandidateFilter

  datatype Option<T> = None | Some(value: T)

  /** Caret-relative screen point the host wants the panel at. */
  datatype Anchor = Anchor(top: int, left: int)

  /** The CSS `display` value of the panel: "none" or "block". */
  datatype Display = DisplayNone | DisplayBlock

  /** The `layout` state: where the panel is drawn and whether it is displayed. */
  datatype Layout = Layout(top: int, left: int, display: Display)

  /** The coordinate that keeps the panel off-screen before it is first placed. */
  const OffScreen: int := -9999

  /** The inputs of one completed placement. */
  datatype Placement = Placement(anchor: Anchor, height: nat, viewportHeight: int)

  /** The panel would overflow the bottom of the viewport but fits above the anchor. */
  function ShouldDisplayAbove(anchor: Anchor, height: nat, viewportHeight: int): (b: bool)
    // flipping happens only when the panel overflows below and a flipped panel starts below the viewport top
    ensures b ==> anchor.top + height > viewportHeight && anchor.top - height > 0
    // a panel that overflows below and whose flipped top would be strictly positive is flipped
    ensures anchor.top + height > viewportHeight && anchor.top - height > 0 ==> b
  {
    anchor.top + height > viewportHeight && anchor.top > height
  }

  /**
   The placement rule: below the anchor by default, flipped above it when it
   overflows below and fits above.
   */
  function PlacePanel(anchor: Anchor, height: nat, viewportHeight: int): (r: Layout)
    ensures r.display == DisplayBlock && r.left == anchor.left
    // flipped: the panel's bottom edge sits on the anchor, strictly below the viewport top
    ensures ShouldDisplayAbove(anchor, height, viewportHeight) ==> r.top + height == anchor.top && r.top > 0
    ensures !ShouldDisplayAbove(anchor, height, viewportHeight) ==> r.top == anchor.top
    // a panel that fits below the anchor is never flipped
    ensures anchor.top + height <= viewportHeight ==> r.top == anchor.top
    // whenever the panel fits below or above an anchor inside the viewport, it is drawn inside the viewport
    ensures 0 <= anchor.top <= viewportHeight && (anchor.top + height <= viewportHeight || anchor.top > height)
      ==> 0 <= r.top && r.top + height <= viewportHeight
  {
    var top := if ShouldDisplayAbove(anchor, height, viewportHeight) then anchor.top - height else anchor.top;
    Layout(top, anchor.left, DisplayBlock)
  }

  /** What the component returns when it renders something. */
  datatype Panel = Panel(left: int, top: int, display: Display, items: seq<string>)

  /** The panel is on screen. */
  predicate Visible(p: Option<Panel>)
  {
    p.Some? && p.value.display == DisplayBlock
  }

  /**
   A click on the `index`-th rendered item: the arguments `onSelect` is called
   with (none when the host gave no `onSelect`).
   */
  function Click(items: seq<string>, index: nat, hasOnSelect: bool): (calls: seq<string>)
    requires index < |items|
    ensures hasOnSelect ==> calls == [items[index]]
    ensures !hasOnSelect ==> calls == []
  {
    if hasOnSelect then [items[index]] else []
  }

  /** One mounted suggestion overlay and its `layout` state. */
  class SuggestionsOverlay {
    var layout: Layout
    /** The inputs of the latest placement, if the panel has been placed at all. */
    ghost var lastPlacement: Option<Placement>

    /** The layout is the off-screen initial one until placed, then the placement of the latest inputs. */
    ghost predicate Valid()
      reads this
    {
      match lastPlacement
      case None => layout == Layout(OffScreen, OffScreen, DisplayNone)
      case Some(p) => layout == PlacePanel(p.anchor, p.height, p.viewportHeight)
    }

    /** Mounting: the panel starts off-screen and hidden. */
    constructor ()
      ensures Valid() && lastPlacement == None
      ensures layout == Layout(OffScreen, OffScreen, DisplayNone)
    {
      layout := Layout(OffScreen, OffScreen, DisplayNone);
      lastPlacement := None;
    }

    /**
     The layout effect, run after a commit. `position` is the host's anchor,
     `filtered` the current suggestions, `panelHeight` the measured height of the
     rendered panel (None when there is no panel node) and `viewportHeight` the
     window's inner height.
     */
    method RunLayoutEffect(position: Option<Anchor>, filtered: seq<string>, panelHeight: Option<nat>, viewportHeight: int)
      requires Valid()
      modifies this
      ensures Valid()
      ensures position.None? || |filtered| == 0 || panelHeight.None? ==>
        layout == old(layout) && lastPlacement == old(lastPlacement)
      ensures position.Some? && |filtered| > 0 && panelHeight.Some? ==>
        layout == PlacePanel(position.value, panelHeight.value, viewportHeight)
        && lastPlacement == Some(Placement(position.value, panelHeight.value, viewportHeight))
      // once displayed, the panel is never hidden again by this effect
      ensures old(layout).display == DisplayBlock ==> layout.display == DisplayBlock
      // the layout is hidden exactly while no placement has happened
      ensures layout.display == DisplayNone <==> lastPlacement.None?
    {
      if position.None? || |filtered| == 0 || panelHeight.None? {
        return;
      }
      var anchor := position.value;
      var height := panelHeight.value;
      var shouldDisplayAbove := anchor.top + height > viewportHeight && anchor.top > height;
      layout := Layout(if shouldDisplayAbove then anchor.top - height else anchor.top, anchor.left, DisplayBlock);
      lastPlacement := Some(Placement(anchor, height, viewportHeight));
    }

    /**
     What the component renders from the current layout: nothing when there is
     no suggestion; otherwise the list at the layout's position, with the
     horizontal offset dropped outside an editor. The component's `isInEditor`
     property defaults to true; the caller passes that default here explicitly.
     */
    function Render(filtered: seq<string>, isInEditor: bool): (r: Option<Panel>)
      reads this
      ensures r.None? <==> |filtered| == 0
      ensures r.Some? ==> r.value.items == filtered && r.value.top == layout.top && r.value.display == layout.display
      ensures r.Some? && !isInEditor ==> r.value.left == 0
      ensures r.Some? && isInEditor ==> r.value.left == layout.left
    {
      if |filtered| == 0 then None
      else Some(Panel(if isInEditor then layout.left else 0, layout.top, layout.display, filtered))
    }
  }

  /** The layout is hidden exactly until the first placement. */
  lemma HiddenIffNeverPlaced(o: SuggestionsOverlay)
    requires o.Valid()
    ensures o.layout.display == DisplayNone <==> o.lastPlacement.None?
    ensures o.layout.display == DisplayNone ==> o.layout.top == OffScreen && o.layout.left == OffScreen
  {
  }

  /**
   A visible panel has suggestions to show and stands where the latest placement
   put it; with no suggestions nothing is visible, whatever the layout.
   */
  lemma VisibleOnlyWhenPlaced(o: SuggestionsOverlay, filtered: seq<string>, isInEditor: bool)
    requires o.Valid()
    ensures Visible(o.Render(filtered, isInEditor)) ==> |filtered| > 0 && o.lastPlacement.Some?
    ensures |filtered| == 0 ==> !Visible(o.Render(filtered, isInEditor))
  {
  }

  /**
   Clicking a suggestion calls `onSelect` exactly once, with the displayed
   (extension-stripped) text of a candidate that matches the query.
   */
  lemma ClickSelectsStrippedMatch(query: string, candidates: seq<string>, strip: string -> string, index: nat)
    requires index < |CandidateFilter.Filtered(query, candidates, strip)|
    ensures var calls := Click(CandidateFilter.Filtered(query, candidates, strip), index, true);
      |calls| == 1
      && exists j :: (0 <= j < |candidates| && CandidateFilter.IsMatch(CandidateFilter.ToLower(query), candidates[j])
                      && calls[0] == strip(candidates[j]))
  {
    CandidateFilter.FilteredSound(query, candidates, strip, index);
  }

  /**
   A panel measured with height 0 (as a panel drawn with display "none" is)
   is placed exactly at the anchor.
   */
  lemma ZeroHeightStaysAtAnchor(anchor: Anchor, viewportHeight: int)
    ensures PlacePanel(anchor, 0, viewportHeight) == Layout(anchor.top, anchor.left, DisplayBlock)
  {
  }

  /** Anchor (500, 100), panel 80 high, viewport 550: the panel flips to top 420. */
  lemma FlipAboveExample()
    ensures PlacePanel(Anchor(500, 100), 80, 550) == Layout(420, 100, DisplayBlock)
  {
  }

  /** Anchor (50, 20), panel 200 high, viewport 800: the panel stays below at top 50. */
  lemma StayBelowExample()
    ensures PlacePanel(Anchor(50, 20), 200, 800) == Layout(50, 20, DisplayBlock)
  {
  }
}
