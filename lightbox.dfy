/**
 * The lightbox viewer of lightbox.js as transitions of one page state: the
 * page's elements and the tabindex store, the body's inline overflow, the
 * overlay (present or not) with its image, caption, buttons, background-click
 * handlers and animation queue, the document's `keydown.lightbox` handlers, and
 * the figure whose anchor last received focus. Galleries are the figures of
 * each `.wp-block-lightbox-gallery-gallery` in document order; a figure's
 * previous and next siblings are its neighbours in that order.
 *
 * The fades are a queue of pending animations: a step completes the first one.
 * A completed fade-out removes the overlay together with its queue, so later
 * queued fade-outs never complete.
 */
module Lightbox {
  import opened Wrappers
  import Strings
  import opened FocusTrap

  /** One `.wp-block-image` figure: its img `src` and `alt` attributes (absent or not), its figcaption text, and whether it holds an anchor. */
  datatype Figure = Figure(src: Option<string>, alt: Option<string>, caption: string, hasAnchor: bool)

  type Galleries = seq<seq<Figure>>

  /** A figure by gallery and position within it. */
  datatype FigureRef = FigureRef(gallery: nat, index: nat)

  predicate ValidRef(gs: Galleries, f: FigureRef) {
    f.gallery < |gs| && f.index < |gs[f.gallery]|
  }

  function FigureAt(gs: Galleries, f: FigureRef): Figure
    requires ValidRef(gs, f)
  {
    gs[f.gallery][f.index]
  }

  /** `$figure.prev()`: the previous sibling figure, absent for the first. */
  function PrevOf(gs: Galleries, f: FigureRef): (r: Option<FigureRef>)
    requires ValidRef(gs, f)
    ensures r.Some? ==> ValidRef(gs, r.value)
  {
    if f.index > 0 then Some(FigureRef(f.gallery, f.index - 1)) else None
  }

  /** `$figure.next()`: the next sibling figure, absent for the last. */
  function NextOf(gs: Galleries, f: FigureRef): (r: Option<FigureRef>)
    requires ValidRef(gs, f)
    ensures r.Some? ==> ValidRef(gs, r.value)
  {
    if f.index + 1 < |gs[f.gallery]| then Some(FigureRef(f.gallery, f.index + 1)) else None
  }

  /** What a handler does: call `closeLightbox` or `setSlide` with the figure it captured. */
  datatype Action = CloseAt(target: FigureRef) | Show(target: FigureRef)

  datatype ButtonKind = CloseButton | PrevButton | NextButton

  /** A button appended to the overlay with its click handler. */
  datatype Control = Control(kind: ButtonKind, action: Action)

  datatype Key = Escape | ArrowLeft | ArrowRight | OtherKey(name: string)

  /** A `keydown.lightbox` handler on the document that acts on one key. */
  datatype KeyBinding = KeyBinding(key: Key, action: Action)

  /** A pending animation of the overlay; a fade-out carries `closeLightbox`'s completion callback. */
  datatype Fx = FadeIn | FadeOut(target: FigureRef)

  /** The overlay element: image attributes, caption text, `top` offset, buttons, click handlers, animation queue. */
  datatype Overlay = Overlay(
    src: Option<string>,
    alt: string,
    caption: string,
    top: Option<int>,
    controls: seq<Control>,
    backgroundClicks: seq<FigureRef>,
    fx: seq<Fx>)

  datatype Page = Page(
    elements: seq<Element>,
    store: Store,
    bodyOverflow: string,
    overlay: Option<Overlay>,
    keyBindings: seq<KeyBinding>,
    focused: Option<FigureRef>)

  /** The result of a handler: the new page, and whether it stopped with a thrown TypeError. */
  datatype Step = Step(page: Page, thrown: bool)

  /** The overlay `openLightbox` appends: an img with empty alt and no src, an empty figcaption. */
  const FreshOverlay: Overlay := Overlay(None, "", "", None, [], [], [])

  const ViewImageMarker: string := "View image: "

  /** The alt text shown: the figure's alt with the first "View image: " removed. */
  function ShownAlt(alt: string): string {
    Strings.RemoveFirst(alt, ViewImageMarker)
  }

  /** The buttons `setSlide` appends: close, then prev and next where a sibling exists. */
  function SlideControls(gs: Galleries, f: FigureRef): seq<Control>
    requires ValidRef(gs, f)
  {
    [Control(CloseButton, CloseAt(f))]
    + (match PrevOf(gs, f) case Some(p) => [Control(PrevButton, Show(p))] case None => [])
    + (match NextOf(gs, f) case Some(n) => [Control(NextButton, Show(n))] case None => [])
  }

  /** The key handlers `setSlide` binds: Escape, then ArrowLeft and ArrowRight where a sibling exists. */
  function SlideKeys(gs: Galleries, f: FigureRef): seq<KeyBinding>
    requires ValidRef(gs, f)
  {
    [KeyBinding(Escape, CloseAt(f))]
    + (match PrevOf(gs, f) case Some(p) => [KeyBinding(ArrowLeft, Show(p))] case None => [])
    + (match NextOf(gs, f) case Some(n) => [KeyBinding(ArrowRight, Show(n))] case None => [])
  }

  function CountKind(cs: seq<Control>, k: ButtonKind): nat {
    if cs == [] then 0 else (if cs[0].kind == k then 1 else 0) + CountKind(cs[1..], k)
  }

  /** The action of the first handler bound to `key`, if any. */
  function Lookup(kbs: seq<KeyBinding>, key: Key): (r: Option<Action>)
    ensures r.Some? ==> exists i :: 0 <= i < |kbs| && kbs[i] == KeyBinding(key, r.value)
    ensures r.None? ==> forall i :: 0 <= i < |kbs| ==> kbs[i].key != key
  {
    if kbs == [] then None
    else if kbs[0].key == key then Some(kbs[0].action)
    else
      var r := Lookup(kbs[1..], key);
      assert forall i :: 1 <= i < |kbs| ==> kbs[i] == kbs[1..][i - 1];
      r
  }

  ghost predicate ActionValid(gs: Galleries, a: Action) {
    ValidRef(gs, a.target)
  }

  ghost predicate KeysDistinct(kbs: seq<KeyBinding>) {
    forall i, j :: 0 <= i < j < |kbs| ==> kbs[i].key != kbs[j].key
  }

  ghost predicate OverlayValid(gs: Galleries, o: Overlay) {
    && (forall i :: 0 <= i < |o.controls| ==> ActionValid(gs, o.controls[i].action))
    && (forall i :: 0 <= i < |o.backgroundClicks| ==> ValidRef(gs, o.backgroundClicks[i]))
    && (forall i :: 0 <= i < |o.fx| ==> (o.fx[i].FadeOut? ==> ValidRef(gs, o.fx[i].target)))
  }

  /**
   * The invariant every reachable page keeps: stored elements are out of the tab
   * order, the store is empty whenever no overlay exists, handlers name figures of
   * the page, at most one key handler exists per key, and once a fade-out is queued
   * the store is empty.
   */
  ghost predicate PageValid(gs: Galleries, p: Page) {
    && Consistent(p.elements, p.store)
    && (p.overlay.None? ==> p.store == map[])
    && (forall i :: 0 <= i < |p.keyBindings| ==> ActionValid(gs, p.keyBindings[i].action))
    && KeysDistinct(p.keyBindings)
    && (p.overlay.Some? ==> OverlayValid(gs, p.overlay.value))
    && (p.overlay.Some? ==> forall i :: 0 <= i < |p.overlay.value.fx| && p.overlay.value.fx[i].FadeOut? ==> p.store == map[])
    && (p.focused.Some? ==> ValidRef(gs, p.focused.value))
  }

  /** `updateOverlayOffset`: the overlay's top set to the admin bar's bottom, skipped when either is missing. */
  function AfterOffset(p: Page, adminBarBottom: Option<int>): (r: Page)
    ensures adminBarBottom.None? || p.overlay.None? ==> r == p
    ensures r.overlay.Some? <==> p.overlay.Some?
    ensures adminBarBottom.Some? && p.overlay.Some? ==> r.overlay.value.top == adminBarBottom
    ensures r.overlay.Some? ==> r.overlay.value == p.overlay.value.(top := r.overlay.value.top)
    ensures r == p.(overlay := r.overlay)
  {
    if adminBarBottom.None? || p.overlay.None? then p
    else p.(overlay := Some(p.overlay.value.(top := adminBarBottom)))
  }

  /** `trapFocus` on the page. */
  function AfterTrap(p: Page): (r: Page)
    ensures Restored(r.elements, r.store) == Restored(p.elements, p.store)
    ensures Consistent(p.elements, p.store) ==> Consistent(r.elements, r.store)
    ensures r == p.(elements := r.elements, store := r.store)
  {
    TrapKeepsRestoreTarget(p.elements, p.store);
    TrapKeepsConsistent(p.elements, p.store);
    p.(elements := Trapped(p.elements, p.store), store := TrappedStore(p.elements, p.store))
  }

  /** `restoreFocus` on the page: every saved tabindex back, the store emptied. */
  function AfterRestore(p: Page): (r: Page)
    ensures r.store == map[]
    ensures r.elements == Restored(p.elements, p.store)
    ensures Consistent(r.elements, r.store)
  {
    p.(elements := Restored(p.elements, p.store), store := map[])
  }

  /** The overlay after `setSlide(f)` copied the figure in and rebuilt the buttons; the background handler is added, never replaced. */
  function Rendered(gs: Galleries, o: Overlay, f: FigureRef): Overlay
    requires ValidRef(gs, f) && FigureAt(gs, f).alt.Some?
  {
    var fig := FigureAt(gs, f);
    o.(src := if fig.src.Some? then fig.src else o.src,
       alt := ShownAlt(fig.alt.value),
       caption := Strings.Trim(fig.caption),
       controls := SlideControls(gs, f),
       backgroundClicks := o.backgroundClicks + [f])
  }

  /**
   * `setSlide(f)`. A figure whose img has no alt attribute makes `.replace` throw
   * before anything changes. Otherwise the overlay (when present) shows the figure
   * and holds exactly the new buttons, and the key handlers are replaced by the
   * figure's own, whether or not an overlay exists.
   */
  function AfterSetSlide(gs: Galleries, p: Page, f: FigureRef): (r: Step)
    requires ValidRef(gs, f)
    ensures r.thrown <==> FigureAt(gs, f).alt.None?
    ensures r.thrown ==> r.page == p
    ensures !r.thrown ==> r.page.keyBindings == SlideKeys(gs, f)
    ensures r.page.overlay.Some? <==> p.overlay.Some?
    ensures !r.thrown && p.overlay.Some? ==> r.page.overlay == Some(Rendered(gs, p.overlay.value, f))
    ensures r.page.elements == p.elements && r.page.store == p.store
    ensures r.page.bodyOverflow == p.bodyOverflow && r.page.focused == p.focused
  {
    if FigureAt(gs, f).alt.None? then Step(p, true)
    else
      Step(p.(overlay := if p.overlay.None? then None else Some(Rendered(gs, p.overlay.value, f)),
              keyBindings := SlideKeys(gs, f)),
           false)
  }

  /**
   * `openLightbox(f)`: lock scrolling, append a fresh overlay, place it, trap focus,
   * set the slide, then queue the fade-in (not reached when `setSlide` throws).
   */
  function AfterOpen(gs: Galleries, p: Page, f: FigureRef, adminBarBottom: Option<int>): (r: Step)
    requires ValidRef(gs, f)
    ensures r.page.bodyOverflow == "hidden"
    ensures r.page.elements == Trapped(p.elements, p.store)
    ensures r.page.store == TrappedStore(p.elements, p.store)
    ensures r.thrown <==> FigureAt(gs, f).alt.None?
    ensures r.thrown ==> r.page.overlay == Some(FreshOverlay.(top := adminBarBottom))
    ensures r.thrown ==> r.page.keyBindings == p.keyBindings
    ensures !r.thrown ==> r.page.overlay == Some(Rendered(gs, FreshOverlay.(top := adminBarBottom), f).(fx := [FadeIn]))
    ensures !r.thrown ==> r.page.keyBindings == SlideKeys(gs, f)
    ensures r.page.focused == p.focused
  {
    var appended := p.(bodyOverflow := "hidden", overlay := Some(FreshOverlay));
    var placed := AfterOffset(appended, adminBarBottom);
    var trapped := AfterTrap(placed);
    var s := AfterSetSlide(gs, trapped, f);
    assert placed.overlay == Some(FreshOverlay.(top := adminBarBottom));
    assert trapped.overlay == placed.overlay;
    if s.thrown then s
    else
      var o := Rendered(gs, FreshOverlay.(top := adminBarBottom), f);
      assert s.page.overlay == Some(o) && o.fx == [];
      assert o.fx + [FadeIn] == [FadeIn];
      Step(s.page.(overlay := Some(s.page.overlay.value.(fx := s.page.overlay.value.fx + [FadeIn]))), false)
  }

  /**
   * `closeLightbox(f)`: restore focus and clear the body's overflow at once; the
   * overlay only gets a fade-out queued, so it stays and focus does not move yet.
   */
  function AfterClose(gs: Galleries, p: Page, f: FigureRef): (r: Page)
    ensures r.store == map[] && r.elements == Restored(p.elements, p.store)
    ensures r.bodyOverflow == ""
    ensures r.overlay.Some? <==> p.overlay.Some?
    ensures p.overlay.Some? ==> r.overlay.value == p.overlay.value.(fx := p.overlay.value.fx + [FadeOut(f)])
    ensures r.focused == p.focused && r.keyBindings == p.keyBindings
  {
    var restored := AfterRestore(p).(bodyOverflow := "");
    if restored.overlay.None? then restored
    else restored.(overlay := Some(restored.overlay.value.(fx := restored.overlay.value.fx + [FadeOut(f)])))
  }

  /**
   * The first queued animation completes. A fade-in leaves the page as it is; a
   * fade-out runs `closeLightbox`'s callback: the overlay (and with it its queue,
   * buttons and click handlers) is removed and the figure's anchor gets focus.
   */
  function AfterAnimation(gs: Galleries, p: Page): (r: Page)
    requires PageValid(gs, p)
    requires p.overlay.Some? && p.overlay.value.fx != []
    ensures p.overlay.value.fx[0].FadeIn? ==> r == p.(overlay := Some(p.overlay.value.(fx := p.overlay.value.fx[1..])))
    ensures p.overlay.value.fx[0].FadeOut? ==> r.overlay.None?
    ensures p.overlay.value.fx[0].FadeOut? ==>
              r.focused == (var t := p.overlay.value.fx[0].target; if FigureAt(gs, t).hasAnchor then Some(t) else p.focused)
    ensures r.elements == p.elements && r.store == p.store && r.bodyOverflow == p.bodyOverflow
    ensures r.keyBindings == p.keyBindings
  {
    var o := p.overlay.value;
    match o.fx[0]
    case FadeIn => p.(overlay := Some(o.(fx := o.fx[1..])))
    case FadeOut(t) =>
      assert o.fx[0].FadeOut? && ValidRef(gs, o.fx[0].target);
      p.(overlay := None, focused := if FigureAt(gs, t).hasAnchor then Some(t) else p.focused)
  }

  /** Running one handler's action. */
  function AfterAction(gs: Galleries, p: Page, a: Action): (r: Step)
    requires ActionValid(gs, a)
  {
    match a
    case CloseAt(f) => Step(AfterClose(gs, p, f), false)
    case Show(f) => AfterSetSlide(gs, p, f)
  }

  /** A keydown on the document: the `keydown.lightbox` handler for that key runs, if there is one. */
  function AfterKey(gs: Galleries, p: Page, key: Key): (r: Step)
    requires PageValid(gs, p)
    ensures Lookup(p.keyBindings, key).None? ==> r == Step(p, false)
  {
    match Lookup(p.keyBindings, key)
    case None => Step(p, false)
    case Some(a) => AfterAction(gs, p, a)
  }

  /** A click on the overlay's `k`-th button. It bubbles to the overlay but is inside a button, so no background handler acts. */
  function AfterControlClick(gs: Galleries, p: Page, k: nat): (r: Step)
    requires PageValid(gs, p)
    requires p.overlay.Some? && k < |p.overlay.value.controls|
  {
    AfterAction(gs, p, p.overlay.value.controls[k].action)
  }

  /** `closeLightbox` for each figure in turn. */
  function CloseEach(gs: Galleries, p: Page, fs: seq<FigureRef>): (r: Page)
    decreases |fs|
  {
    if fs == [] then p else CloseEach(gs, AfterClose(gs, p, fs[0]), fs[1..])
  }

  /** A click on the overlay outside the image, caption and buttons: every background handler, in binding order, closes with its figure. */
  function AfterBackgroundClick(gs: Galleries, p: Page): (r: Page)
    requires p.overlay.Some?
  {
    CloseEach(gs, p, p.overlay.value.backgroundClicks)
  }
}
