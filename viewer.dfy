/**
 * lightbox.js as the script runs it: the module-level tabindex store and the
 * page it mutates are fields of one `Viewer`, and each function of the script is
 * a method that changes those fields in place. Every method is proved to produce
 * the page state the corresponding transition of module Lightbox describes, and
 * to keep `Valid()`: the page invariant, and the fact that restoring now would
 * give back the page's own tab order (`pristine`).
 */
module LightboxScript {
  import opened Wrappers
  import Strings
  import opened FocusTrap
  import opened Lightbox
  import opened LightboxProperties

  class Viewer {
    const galleries: Galleries
    /** The tab order of the page as its author wrote it. */
    ghost const pristine: seq<Element>
    var elements: seq<Element>
    /** `tabindexStore`. */
    var store: Store
    /** The body's inline `overflow` style. */
    var bodyOverflow: string
    var overlay: Option<Overlay>
    /** The document's `keydown.lightbox` handlers, in binding order. */
    var keyBindings: seq<KeyBinding>
    var focused: Option<FigureRef>

    function State(): Page
      reads this
    {
      Page(elements, store, bodyOverflow, overlay, keyBindings, focused)
    }

    ghost predicate Valid()
      reads this
    {
      PageValid(galleries, State()) && Restored(elements, store) == pristine
    }

    /** The page when the script loads: no overlay, nothing stored, no handler bound. */
    constructor (galleries: Galleries, elements: seq<Element>, bodyOverflow: string)
      ensures Valid()
      ensures this.galleries == galleries && pristine == elements
      ensures State() == Page(elements, map[], bodyOverflow, None, [], None)
    {
      this.galleries := galleries;
      this.pristine := elements;
      this.elements := elements;
      this.store := map[];
      this.bodyOverflow := bodyOverflow;
      this.overlay := None;
      this.keyBindings := [];
      this.focused := None;
      new;
      RestoreEmpty(elements);
    }

    /** `updateOverlayOffset`, also run on every window resize. */
    method UpdateOverlayOffset(adminBarBottom: Option<int>)
      requires Valid()
      modifies this`overlay
      ensures Valid()
      ensures State() == AfterOffset(old(State()), adminBarBottom)
    {
      if adminBarBottom.None? || overlay.None? {
        return;
      }
      overlay := Some(overlay.value.(top := adminBarBottom));
    }

    /** `trapFocus`: one pass over the page's elements, recording and disabling the trappable ones. */
    method TrapFocus()
      requires Valid() && overlay.Some?
      requires forall i :: 0 <= i < |overlay.value.fx| ==> !overlay.value.fx[i].FadeOut?
      modifies this`elements, this`store
      ensures Valid()
      ensures State() == AfterTrap(old(State()))
    {
      ghost var els0, st0 := elements, store;
      var i := 0;
      while i < |elements|
        invariant 0 <= i <= |elements| == |els0|
        invariant forall k :: 0 <= k < |els0| ==>
                    elements[k] == (if k < i && RecordsNow(els0, st0, k) then els0[k].(tabindex := Untabbable) else els0[k])
        invariant forall k: nat :: k in store <==> k in st0 || (k < i && RecordsNow(els0, st0, k))
        invariant forall k :: k in store ==> store[k] == (if k in st0 then st0[k] else els0[k].tabindex)
      {
        assert elements[i] == els0[i] && (i in store <==> i in st0);
        if i !in store && Trappable(elements[i]) {
          store := store[i := elements[i].tabindex];
          elements := elements[i := elements[i].(tabindex := Untabbable)];
        }
        i := i + 1;
      }
      assert elements == Trapped(els0, st0);
      assert store == TrappedStore(els0, st0) by {
        forall k: nat ensures k in store <==> k in TrappedStore(els0, st0) {
          TrapRecords(els0, st0, k);
        }
      }
      assert State() == AfterTrap(old(State()));
    }

    /** `restoreFocus`: every stored element gets its saved tabindex back, then the store is cleared. */
    method RestoreFocus()
      requires Valid()
      modifies this`elements, this`store
      ensures Valid()
      ensures State() == AfterRestore(old(State()))
      ensures elements == pristine
    {
      ghost var els0 := elements;
      var keys := store.Keys;
      while keys != {}
        invariant keys <= store.Keys && store == old(store)
        invariant |elements| == |els0|
        invariant forall k :: 0 <= k < |els0| ==>
                    elements[k] == (if k in store && k !in keys then els0[k].(tabindex := store[k]) else els0[k])
        decreases keys
      {
        var k :| k in keys;
        elements := elements[k := elements[k].(tabindex := store[k])];
        keys := keys - {k};
      }
      assert elements == Restored(els0, store);
      store := map[];
      RestoreEmpty(elements);
    }

    /** `setSlide(f)`: show the figure, replace the buttons and key handlers, add a background handler. */
    method SetSlide(f: FigureRef) returns (thrown: bool)
      requires Valid() && ValidRef(galleries, f)
      modifies this`overlay, this`keyBindings
      ensures Valid()
      ensures Step(State(), thrown) == AfterSetSlide(galleries, old(State()), f)
    {
      SetSlideKeepsValid(galleries, State(), f);
      var fig := FigureAt(galleries, f);
      if fig.alt.None? {
        // `$img.attr('alt')` is undefined, so `.replace` throws before anything changes.
        return true;
      }
      var prev, next := PrevOf(galleries, f), NextOf(galleries, f);
      var controls := [Control(CloseButton, CloseAt(f))];
      var keys := [KeyBinding(Escape, CloseAt(f))];
      if prev.Some? {
        controls := controls + [Control(PrevButton, Show(prev.value))];
        keys := keys + [KeyBinding(ArrowLeft, Show(prev.value))];
      }
      if next.Some? {
        controls := controls + [Control(NextButton, Show(next.value))];
        keys := keys + [KeyBinding(ArrowRight, Show(next.value))];
      }
      if overlay.Some? {
        var o := overlay.value;
        overlay := Some(o.(src := if fig.src.Some? then fig.src else o.src,
                           alt := ShownAlt(fig.alt.value),
                           caption := Strings.Trim(fig.caption),
                           controls := controls,
                           backgroundClicks := o.backgroundClicks + [f]));
      }
      assert controls == SlideControls(galleries, f) && keys == SlideKeys(galleries, f) by {
        match prev
        case None =>
        case Some(_) =>
      }
      keyBindings := keys;
      thrown := false;
    }

    /** `openLightbox(f)`, as the click on a figure's anchor calls it; modelled only from a page with no overlay. */
    method OpenLightbox(f: FigureRef, adminBarBottom: Option<int>) returns (thrown: bool)
      requires Valid() && ValidRef(galleries, f) && overlay.None?
      modifies this`bodyOverflow, this`overlay, this`elements, this`store, this`keyBindings
      ensures Valid()
      ensures Step(State(), thrown) == AfterOpen(galleries, old(State()), f, adminBarBottom)
    {
      OpenKeepsValid(galleries, State(), f, adminBarBottom);
      RestoreEmpty(elements);
      bodyOverflow := "hidden";
      overlay := Some(FreshOverlay);
      UpdateOverlayOffset(adminBarBottom);
      TrapFocus();
      thrown := SetSlide(f);
      if !thrown {
        overlay := Some(overlay.value.(fx := overlay.value.fx + [FadeIn]));
      }
    }

    /** `closeLightbox(f)`: the tab order and scrolling come back now; removal and focus wait for the fade-out. */
    method CloseLightbox(f: FigureRef)
      requires Valid() && ValidRef(galleries, f)
      modifies this`elements, this`store, this`bodyOverflow, this`overlay
      ensures Valid()
      ensures State() == AfterClose(galleries, old(State()), f)
      ensures elements == pristine
    {
      CloseKeepsValid(galleries, State(), f);
      RestoreFocus();
      bodyOverflow := "";
      if overlay.Some? {
        overlay := Some(overlay.value.(fx := overlay.value.fx + [FadeOut(f)]));
      }
    }

    /** The first queued fade completes; a fade-out runs its callback: remove the overlay, focus the anchor. */
    method CompleteAnimation()
      requires Valid() && overlay.Some? && overlay.value.fx != []
      modifies this`overlay, this`focused
      ensures Valid()
      ensures State() == AfterAnimation(galleries, old(State()))
    {
      AnimationKeepsValid(galleries, State());
      var o := overlay.value;
      match o.fx[0]
      case FadeIn =>
        overlay := Some(o.(fx := o.fx[1..]));
      case FadeOut(t) =>
        assert o.fx[0].FadeOut?;
        overlay := None;
        if FigureAt(galleries, t).hasAnchor {
          focused := Some(t);
        }
    }

    method RunAction(a: Action) returns (thrown: bool)
      requires Valid() && ActionValid(galleries, a)
      modifies this`elements, this`store, this`bodyOverflow, this`overlay, this`keyBindings
      ensures Valid()
      ensures Step(State(), thrown) == AfterAction(galleries, old(State()), a)
    {
      match a
      case CloseAt(f) =>
        CloseLightbox(f);
        thrown := false;
      case Show(f) =>
        thrown := SetSlide(f);
    }

    /** A keydown on the document reaches the `keydown.lightbox` handler for its key. */
    method KeyDown(key: Key) returns (thrown: bool)
      requires Valid()
      modifies this`elements, this`store, this`bodyOverflow, this`overlay, this`keyBindings
      ensures Valid()
      ensures Step(State(), thrown) == AfterKey(galleries, old(State()), key)
    {
      var a := Lookup(keyBindings, key);
      if a.None? {
        return false;
      }
      ghost var i :| 0 <= i < |keyBindings| && keyBindings[i] == KeyBinding(key, a.value);
      assert ActionValid(galleries, keyBindings[i].action);
      thrown := RunAction(a.value);
    }

    /** A click on the overlay's `k`-th button. */
    method ClickControl(k: nat) returns (thrown: bool)
      requires Valid() && overlay.Some? && k < |overlay.value.controls|
      modifies this`elements, this`store, this`bodyOverflow, this`overlay, this`keyBindings
      ensures Valid()
      ensures Step(State(), thrown) == AfterControlClick(galleries, old(State()), k)
    {
      assert ActionValid(galleries, overlay.value.controls[k].action);
      thrown := RunAction(overlay.value.controls[k].action);
    }

    /** A click on the overlay background: the handlers bound so far run one after another. */
    method ClickBackground()
      requires Valid() && overlay.Some?
      modifies this`elements, this`store, this`bodyOverflow, this`overlay
      ensures Valid()
      ensures State() == AfterBackgroundClick(galleries, old(State()))
    {
      var handlers := overlay.value.backgroundClicks;
      var n := 0;
      while n < |handlers|
        invariant 0 <= n <= |handlers|
        invariant Valid() && overlay.Some? && overlay.value.backgroundClicks == handlers
        invariant CloseEach(galleries, State(), handlers[n..]) == AfterBackgroundClick(galleries, old(State()))
      {
        assert handlers[n..][1..] == handlers[n + 1..];
        CloseLightbox(handlers[n]);
        n := n + 1;
      }
    }
  }

  /** Document order of figures. */
  predicate Before(a: FigureRef, b: FigureRef) {
    a.gallery < b.gallery || (a.gallery == b.gallery && a.index < b.index)
  }

  /**
   * The script's start: for each gallery, for each figure, a click handler on
   * the figure's anchor that opens the lightbox at that figure. The handlers
   * cover exactly the figures that hold an anchor, each once, in document order.
   */
  method BindGalleryLinks(gs: Galleries) returns (links: seq<FigureRef>)
    ensures forall i :: 0 <= i < |links| ==> ValidRef(gs, links[i]) && FigureAt(gs, links[i]).hasAnchor
    ensures forall f :: ValidRef(gs, f) && FigureAt(gs, f).hasAnchor ==> f in links
    ensures forall i, j :: 0 <= i < j < |links| ==> Before(links[i], links[j])
  {
    links := [];
    var g := 0;
    while g < |gs|
      invariant 0 <= g <= |gs|
      invariant forall i :: 0 <= i < |links| ==> ValidRef(gs, links[i]) && FigureAt(gs, links[i]).hasAnchor
      invariant forall i :: 0 <= i < |links| ==> links[i].gallery < g
      invariant forall f :: ValidRef(gs, f) && FigureAt(gs, f).hasAnchor && f.gallery < g ==> f in links
      invariant forall i, j :: 0 <= i < j < |links| ==> Before(links[i], links[j])
    {
      var j := 0;
      while j < |gs[g]|
        invariant 0 <= j <= |gs[g]|
        invariant forall i :: 0 <= i < |links| ==> ValidRef(gs, links[i]) && FigureAt(gs, links[i]).hasAnchor
        invariant forall i :: 0 <= i < |links| ==> Before(links[i], FigureRef(g, j))
        invariant forall f :: ValidRef(gs, f) && FigureAt(gs, f).hasAnchor && (f.gallery < g || (f.gallery == g && f.index < j)) ==> f in links
        invariant forall i, j' :: 0 <= i < j' < |links| ==> Before(links[i], links[j'])
      {
        if gs[g][j].hasAnchor {
          links := links + [FigureRef(g, j)];
        }
        j := j + 1;
      }
      g := g + 1;
    }
  }
}
