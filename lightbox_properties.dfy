/**
 * What the lightbox promises, proved about the transitions of module Lightbox:
 * the buttons and keys each slide offers, navigation without wraparound, the
 * invariant every handler keeps, the two phases of closing, and how the
 * background-click handlers that accumulate across slides behave.
 */
module LightboxProperties {
  import opened Wrappers
  import Strings
  import opened FocusTrap
  import opened Lightbox

  lemma {:induction false} CountKindAppend(a: seq<Control>, b: seq<Control>, k: ButtonKind)
    ensures CountKind(a + b, k) == CountKind(a, k) + CountKind(b, k)
  {
    if a != [] {
      assert (a + b)[0] == a[0];
      assert (a + b)[1..] == a[1..] + b;
      CountKindAppend(a[1..], b, k);
    } else {
      assert a + b == b;
    }
  }

  lemma CountKindSingle(x: Control, k: ButtonKind)
    ensures CountKind([x], k) == (if x.kind == k then 1 else 0)
  {
    assert [x][1..] == [];
  }

  /** Every handler `setSlide(f)` creates names a figure of the page. */
  lemma SlideHandlersValid(gs: Galleries, f: FigureRef)
    requires ValidRef(gs, f)
    ensures forall i :: 0 <= i < |SlideKeys(gs, f)| ==> ActionValid(gs, SlideKeys(gs, f)[i].action)
    ensures forall i :: 0 <= i < |SlideControls(gs, f)| ==> ActionValid(gs, SlideControls(gs, f)[i].action)
  {
  }

  /**
   * After `setSlide(f)` there is exactly one close button and Escape closes at f;
   * a prev button and an ArrowLeft handler exist iff f has a previous sibling, a
   * next button and an ArrowRight handler iff it has a next one.
   */
  lemma SlideAffordances(gs: Galleries, f: FigureRef)
    requires ValidRef(gs, f)
    ensures CountKind(SlideControls(gs, f), CloseButton) == 1
    ensures CountKind(SlideControls(gs, f), PrevButton) == (if f.index > 0 then 1 else 0)
    ensures CountKind(SlideControls(gs, f), NextButton) == (if f.index + 1 < |gs[f.gallery]| then 1 else 0)
    ensures Lookup(SlideKeys(gs, f), Escape) == Some(CloseAt(f))
    ensures Lookup(SlideKeys(gs, f), ArrowLeft) == (if f.index > 0 then Some(Show(FigureRef(f.gallery, f.index - 1))) else None)
    ensures Lookup(SlideKeys(gs, f), ArrowRight) ==
              (if f.index + 1 < |gs[f.gallery]| then Some(Show(FigureRef(f.gallery, f.index + 1))) else None)
    ensures KeysDistinct(SlideKeys(gs, f))
  {
    var c := [Control(CloseButton, CloseAt(f))];
    var pv := match PrevOf(gs, f) case Some(p) => [Control(PrevButton, Show(p))] case None => [];
    var nx := match NextOf(gs, f) case Some(n) => [Control(NextButton, Show(n))] case None => [];
    assert SlideControls(gs, f) == c + pv + nx;
    forall k: ButtonKind ensures CountKind(SlideControls(gs, f), k) == CountKind(c, k) + CountKind(pv, k) + CountKind(nx, k) {
      CountKindAppend(c + pv, nx, k);
      CountKindAppend(c, pv, k);
    }
    CountKindSingle(c[0], CloseButton);
    CountKindSingle(c[0], PrevButton);
    CountKindSingle(c[0], NextButton);
    if pv != [] {
      assert pv == [pv[0]];
      CountKindSingle(pv[0], CloseButton);
      CountKindSingle(pv[0], PrevButton);
      CountKindSingle(pv[0], NextButton);
    }
    if nx != [] {
      assert nx == [nx[0]];
      CountKindSingle(nx[0], CloseButton);
      CountKindSingle(nx[0], PrevButton);
      CountKindSingle(nx[0], NextButton);
    }
    var keys := SlideKeys(gs, f);
    if f.index > 0 {
      assert keys[1] == KeyBinding(ArrowLeft, Show(FigureRef(f.gallery, f.index - 1)));
    }
    if f.index + 1 < |gs[f.gallery]| {
      assert keys[|keys| - 1] == KeyBinding(ArrowRight, Show(FigureRef(f.gallery, f.index + 1)));
    }
  }

  /** A slide of a one-figure gallery offers only the close button and Escape. */
  lemma SingleFigureHasNoNavigation(gs: Galleries, f: FigureRef)
    requires ValidRef(gs, f) && |gs[f.gallery]| == 1
    ensures SlideControls(gs, f) == [Control(CloseButton, CloseAt(f))]
    ensures SlideKeys(gs, f) == [KeyBinding(Escape, CloseAt(f))]
  {
  }

  /** Navigation never leaves the gallery and never wraps: siblings are immediate neighbours. */
  lemma SiblingsAreAdjacent(gs: Galleries, f: FigureRef)
    requires ValidRef(gs, f)
    ensures PrevOf(gs, f).Some? ==> NextOf(gs, PrevOf(gs, f).value) == Some(f)
    ensures NextOf(gs, f).Some? ==> PrevOf(gs, NextOf(gs, f).value) == Some(f)
    ensures PrevOf(gs, f).None? <==> f.index == 0
    ensures NextOf(gs, f).None? <==> f.index == |gs[f.gallery]| - 1
  {
  }

  /** The overlay and key handlers show figure f: what `setSlide(f)` leaves behind. */
  ghost predicate Displays(gs: Galleries, p: Page, f: FigureRef) {
    && ValidRef(gs, f)
    && FigureAt(gs, f).alt.Some?
    && p.overlay.Some?
    && p.overlay.value.controls == SlideControls(gs, f)
    && p.overlay.value.alt == ShownAlt(FigureAt(gs, f).alt.value)
    && p.overlay.value.caption == Strings.Trim(FigureAt(gs, f).caption)
    && (FigureAt(gs, f).src.Some? ==> p.overlay.value.src == FigureAt(gs, f).src)
    && p.keyBindings == SlideKeys(gs, f)
  }

  /** The overlay `setSlide` renders names only figures of the page, and its background handlers grow by one. */
  lemma RenderedValid(gs: Galleries, o: Overlay, f: FigureRef)
    requires OverlayValid(gs, o) && ValidRef(gs, f) && FigureAt(gs, f).alt.Some?
    ensures OverlayValid(gs, Rendered(gs, o, f))
    ensures Rendered(gs, o, f).fx == o.fx
    ensures Rendered(gs, o, f).backgroundClicks == o.backgroundClicks + [f]
  {
    SlideHandlersValid(gs, f);
    var o' := Rendered(gs, o, f);
    assert o'.backgroundClicks == o.backgroundClicks + [f];
  }

  /** `setSlide` keeps the invariant and, on an overlay, leaves figure f displayed. */
  lemma SetSlideKeepsValid(gs: Galleries, p: Page, f: FigureRef)
    requires PageValid(gs, p) && ValidRef(gs, f)
    ensures PageValid(gs, AfterSetSlide(gs, p, f).page)
    ensures !AfterSetSlide(gs, p, f).thrown && p.overlay.Some? ==> Displays(gs, AfterSetSlide(gs, p, f).page, f)
  {
    if FigureAt(gs, f).alt.Some? {
      var o := if p.overlay.None? then None else Some(Rendered(gs, p.overlay.value, f));
      var r := p.(overlay := o, keyBindings := SlideKeys(gs, f));
      assert AfterSetSlide(gs, p, f).page == r;
      assert p.overlay.Some? ==> OverlayValid(gs, o.value) && o.value.fx == p.overlay.value.fx by {
        if p.overlay.Some? {
          RenderedValid(gs, p.overlay.value, f);
        }
      }
      assert forall i :: 0 <= i < |r.keyBindings| ==> ActionValid(gs, r.keyBindings[i].action) by {
        SlideHandlersValid(gs, f);
      }
      SlideAffordances(gs, f);
    }
  }

  /** `closeLightbox` keeps the invariant. */
  lemma CloseKeepsValid(gs: Galleries, p: Page, f: FigureRef)
    requires PageValid(gs, p) && ValidRef(gs, f)
    ensures PageValid(gs, AfterClose(gs, p, f))
  {
    var r := AfterClose(gs, p, f);
    if p.overlay.Some? {
      var o := r.overlay.value;
      assert forall i :: 0 <= i < |o.fx| ==> (o.fx[i].FadeOut? ==> ValidRef(gs, o.fx[i].target)) by {
        assert o.fx == p.overlay.value.fx + [FadeOut(f)];
      }
    }
  }

  /** Running a handler keeps the invariant; only a close changes the tab order, and then to the restored one. */
  lemma ActionKeepsValid(gs: Galleries, p: Page, a: Action)
    requires PageValid(gs, p) && ActionValid(gs, a)
    ensures PageValid(gs, AfterAction(gs, p, a).page)
    ensures Restored(AfterAction(gs, p, a).page.elements, AfterAction(gs, p, a).page.store) == Restored(p.elements, p.store)
  {
    match a
    case CloseAt(f) => CloseKeepsValid(gs, p, f);
    case Show(f) => SetSlideKeepsValid(gs, p, f);
  }

  /** A keydown keeps the invariant. */
  lemma KeyKeepsValid(gs: Galleries, p: Page, key: Key)
    requires PageValid(gs, p)
    ensures PageValid(gs, AfterKey(gs, p, key).page)
    ensures Restored(AfterKey(gs, p, key).page.elements, AfterKey(gs, p, key).page.store) == Restored(p.elements, p.store)
  {
    match Lookup(p.keyBindings, key)
    case None =>
    case Some(a) =>
      var i :| 0 <= i < |p.keyBindings| && p.keyBindings[i] == KeyBinding(key, a);
      assert ActionValid(gs, p.keyBindings[i].action);
      ActionKeepsValid(gs, p, a);
  }

  /** A button click keeps the invariant. */
  lemma ControlClickKeepsValid(gs: Galleries, p: Page, k: nat)
    requires PageValid(gs, p) && p.overlay.Some? && k < |p.overlay.value.controls|
    ensures PageValid(gs, AfterControlClick(gs, p, k).page)
    ensures Restored(AfterControlClick(gs, p, k).page.elements, AfterControlClick(gs, p, k).page.store) == Restored(p.elements, p.store)
  {
    ActionKeepsValid(gs, p, p.overlay.value.controls[k].action);
  }

  /** A completed animation keeps the invariant. */
  lemma AnimationKeepsValid(gs: Galleries, p: Page)
    requires PageValid(gs, p) && p.overlay.Some? && p.overlay.value.fx != []
    ensures PageValid(gs, AfterAnimation(gs, p))
  {
    var o := p.overlay.value;
    if o.fx[0].FadeIn? {
      var q := o.fx[1..];
      assert forall i :: 0 <= i < |q| ==> q[i] == o.fx[i + 1];
    }
  }

  /** `updateOverlayOffset` keeps the invariant. */
  lemma OffsetKeepsValid(gs: Galleries, p: Page, adminBarBottom: Option<int>)
    requires PageValid(gs, p)
    ensures PageValid(gs, AfterOffset(p, adminBarBottom))
  {
  }

  /**
   * `openLightbox` from a page with no overlay keeps the invariant; the page then
   * shows f unless `setSlide` threw, the overlay sits below the admin bar, and the
   * tab order a restore would bring back is the page's own.
   */
  lemma OpenKeepsValid(gs: Galleries, p: Page, f: FigureRef, adminBarBottom: Option<int>)
    requires PageValid(gs, p) && p.overlay.None? && ValidRef(gs, f)
    ensures PageValid(gs, AfterOpen(gs, p, f, adminBarBottom).page)
    ensures Restored(AfterOpen(gs, p, f, adminBarBottom).page.elements, AfterOpen(gs, p, f, adminBarBottom).page.store) == p.elements
    ensures !AfterOpen(gs, p, f, adminBarBottom).thrown ==> Displays(gs, AfterOpen(gs, p, f, adminBarBottom).page, f)
    ensures AfterOpen(gs, p, f, adminBarBottom).page.overlay.value.top == adminBarBottom
  {
    var appended := p.(bodyOverflow := "hidden", overlay := Some(FreshOverlay));
    var placed := AfterOffset(appended, adminBarBottom);
    var trapped := AfterTrap(placed);
    var s := AfterSetSlide(gs, trapped, f);
    assert PageValid(gs, trapped);
    SetSlideKeepsValid(gs, trapped, f);
    var r := AfterOpen(gs, p, f, adminBarBottom);
    assert Restored(r.page.elements, r.page.store) == p.elements by {
      TrapKeepsRestoreTarget(p.elements, p.store);
      RestoreEmpty(p.elements);
    }
    if r.thrown {
      assert r == s;
    } else {
      assert s.page.overlay.value.fx == [];
      assert r.page == s.page.(overlay := Some(s.page.overlay.value.(fx := [FadeIn])));
      FadeInKeepsValid(gs, s.page, f);
    }
  }

  /** Queueing the fade-in on an idle overlay keeps the invariant and what it displays. */
  lemma FadeInKeepsValid(gs: Galleries, p: Page, f: FigureRef)
    requires PageValid(gs, p) && p.overlay.Some? && p.overlay.value.fx == []
    ensures PageValid(gs, p.(overlay := Some(p.overlay.value.(fx := [FadeIn]))))
    ensures Displays(gs, p, f) ==> Displays(gs, p.(overlay := Some(p.overlay.value.(fx := [FadeIn]))), f)
  {
  }

  /** The invariant and restore target kept by closing at each figure in turn. */
  lemma {:induction false} CloseEachEffect(gs: Galleries, p: Page, fs: seq<FigureRef>)
    requires PageValid(gs, p)
    requires forall i :: 0 <= i < |fs| ==> ValidRef(gs, fs[i])
    decreases |fs|
    ensures var r := CloseEach(gs, p, fs);
            && PageValid(gs, r)
            && r.elements == (if fs == [] then p.elements else Restored(p.elements, p.store))
            && r.store == (if fs == [] then p.store else map[])
            && r.bodyOverflow == (if fs == [] then p.bodyOverflow else "")
            && (r.overlay.Some? <==> p.overlay.Some?)
            && (p.overlay.Some? ==> r.overlay.value == p.overlay.value.(fx := p.overlay.value.fx + FadeOuts(fs)))
            && r.focused == p.focused && r.keyBindings == p.keyBindings
  {
    if fs != [] {
      var q := AfterClose(gs, p, fs[0]);
      assert CloseEach(gs, p, fs) == CloseEach(gs, q, fs[1..]);
      CloseKeepsValid(gs, p, fs[0]);
      CloseEachEffect(gs, q, fs[1..]);
      assert Restored(q.elements, q.store) == q.elements by {
        RestoreEmpty(q.elements);
      }
      if p.overlay.Some? {
        assert [FadeOut(fs[0])] + FadeOuts(fs[1..]) == FadeOuts(fs);
        assert p.overlay.value.fx + [FadeOut(fs[0])] + FadeOuts(fs[1..]) == p.overlay.value.fx + FadeOuts(fs);
      }
    }
  }

  function FadeOuts(fs: seq<FigureRef>): seq<Fx> {
    if fs == [] then [] else [FadeOut(fs[0])] + FadeOuts(fs[1..])
  }

  /** A background click keeps the invariant. */
  lemma BackgroundClickKeepsValid(gs: Galleries, p: Page)
    requires PageValid(gs, p) && p.overlay.Some?
    ensures PageValid(gs, AfterBackgroundClick(gs, p))
  {
    CloseEachEffect(gs, p, p.overlay.value.backgroundClicks);
  }

  /**
   * Each way of pressing a button does what the matching key does: the close button
   * acts as Escape, the prev button as ArrowLeft, the next button as ArrowRight.
   */
  lemma ButtonsMatchKeys(gs: Galleries, p: Page, f: FigureRef)
    requires PageValid(gs, p) && Displays(gs, p, f)
    ensures AfterControlClick(gs, p, 0) == AfterKey(gs, p, Escape)
    ensures f.index > 0 ==> AfterControlClick(gs, p, 1) == AfterKey(gs, p, ArrowLeft)
    ensures f.index + 1 < |gs[f.gallery]| ==>
              var k := if f.index > 0 then 2 else 1;
              k < |p.overlay.value.controls| && AfterControlClick(gs, p, k) == AfterKey(gs, p, ArrowRight)
  {
    SlideAffordances(gs, f);
  }

  /** From a slide with a previous sibling, ArrowLeft then ArrowRight shows the same slide again with the same buttons and keys. */
  lemma PrevThenNextReturns(gs: Galleries, p: Page, f: FigureRef)
    requires PageValid(gs, p) && Displays(gs, p, f) && f.index > 0
    requires FigureAt(gs, FigureRef(f.gallery, f.index - 1)).alt.Some?
    ensures PageValid(gs, AfterKey(gs, p, ArrowLeft).page)
    ensures Displays(gs, AfterKey(gs, p, ArrowLeft).page, FigureRef(f.gallery, f.index - 1))
    ensures var back := AfterKey(gs, AfterKey(gs, p, ArrowLeft).page, ArrowRight).page;
            && Displays(gs, back, f)
            && back.keyBindings == p.keyBindings
            && back.overlay.value.controls == p.overlay.value.controls
            && back.overlay.value.alt == p.overlay.value.alt
            && back.overlay.value.caption == p.overlay.value.caption
  {
    var q := FigureRef(f.gallery, f.index - 1);
    assert AfterKey(gs, p, ArrowLeft) == AfterSetSlide(gs, p, q) by {
      SlideAffordances(gs, f);
    }
    SetSlideKeepsValid(gs, p, q);
    var p1 := AfterSetSlide(gs, p, q).page;
    assert AfterKey(gs, p1, ArrowRight) == AfterSetSlide(gs, p1, f) by {
      SlideAffordances(gs, q);
    }
    SetSlideKeepsValid(gs, p1, f);
  }

  /** From a slide with a next sibling, ArrowRight then ArrowLeft shows the same slide again with the same buttons and keys. */
  lemma NextThenPrevReturns(gs: Galleries, p: Page, f: FigureRef)
    requires PageValid(gs, p) && Displays(gs, p, f) && f.index + 1 < |gs[f.gallery]|
    requires FigureAt(gs, FigureRef(f.gallery, f.index + 1)).alt.Some?
    ensures PageValid(gs, AfterKey(gs, p, ArrowRight).page)
    ensures Displays(gs, AfterKey(gs, p, ArrowRight).page, FigureRef(f.gallery, f.index + 1))
    ensures var back := AfterKey(gs, AfterKey(gs, p, ArrowRight).page, ArrowLeft).page;
            && Displays(gs, back, f)
            && back.keyBindings == p.keyBindings
            && back.overlay.value.controls == p.overlay.value.controls
            && back.overlay.value.alt == p.overlay.value.alt
            && back.overlay.value.caption == p.overlay.value.caption
  {
    var q := FigureRef(f.gallery, f.index + 1);
    assert AfterKey(gs, p, ArrowRight) == AfterSetSlide(gs, p, q) by {
      SlideAffordances(gs, f);
    }
    SetSlideKeepsValid(gs, p, q);
    var p1 := AfterSetSlide(gs, p, q).page;
    assert AfterKey(gs, p1, ArrowLeft) == AfterSetSlide(gs, p1, f) by {
      SlideAffordances(gs, q);
    }
    SetSlideKeepsValid(gs, p1, f);
  }

  /**
   * Closing is two-phase: right after `closeLightbox` the tab order is restored and
   * scrolling unlocked while the overlay stays and focus has not moved; once the
   * fade-out completes the overlay is gone and f's anchor has focus.
   */
  lemma CloseCompletesOnFadeOut(gs: Galleries, p: Page, f: FigureRef)
    requires PageValid(gs, p) && ValidRef(gs, f) && p.overlay.Some? && p.overlay.value.fx == []
    ensures var c := AfterClose(gs, p, f);
            && c.overlay.Some? && c.focused == p.focused
            && c.store == map[] && c.elements == Restored(p.elements, p.store) && c.bodyOverflow == ""
    ensures PageValid(gs, AfterClose(gs, p, f))
    ensures var done := AfterAnimation(gs, AfterClose(gs, p, f));
            && done.overlay.None?
            && done.focused == (if FigureAt(gs, f).hasAnchor then Some(f) else p.focused)
  {
    CloseKeepsValid(gs, p, f);
  }

  /** Closing during the fade-in waits for it: the first completion only ends the fade-in, the second removes the overlay. */
  lemma CloseDuringFadeInWaits(gs: Galleries, p: Page, f: FigureRef)
    requires PageValid(gs, p) && ValidRef(gs, f) && p.overlay.Some? && p.overlay.value.fx == [FadeIn]
    ensures PageValid(gs, AfterClose(gs, p, f))
    ensures var once := AfterAnimation(gs, AfterClose(gs, p, f));
            && once.overlay.Some? && once.overlay.value.fx == [FadeOut(f)] && once.focused == p.focused
    ensures PageValid(gs, AfterAnimation(gs, AfterClose(gs, p, f)))
    ensures var twice := AfterAnimation(gs, AfterAnimation(gs, AfterClose(gs, p, f)));
            twice.overlay.None? && twice.focused == (if FigureAt(gs, f).hasAnchor then Some(f) else p.focused)
  {
    CloseKeepsValid(gs, p, f);
    var c := AfterClose(gs, p, f);
    assert c.overlay.value.fx == [FadeIn, FadeOut(f)];
    AnimationKeepsValid(gs, c);
  }

  /** A whole session, from a page without overlay: opening and then closing leaves every element's tabindex as it was. */
  lemma SessionRestoresTabOrder(gs: Galleries, p: Page, f: FigureRef, g: FigureRef, adminBarBottom: Option<int>)
    requires PageValid(gs, p) && p.overlay.None? && ValidRef(gs, f) && ValidRef(gs, g)
    ensures AfterClose(gs, AfterOpen(gs, p, f, adminBarBottom).page, g).elements == p.elements
    ensures AfterClose(gs, AfterOpen(gs, p, f, adminBarBottom).page, g).store == map[]
  {
    OpenKeepsValid(gs, p, f, adminBarBottom);
  }

  /**
   * A background click closes once per slide shown since the overlay was created,
   * in that order. Once the first fade-out completes the overlay is removed with the
   * rest of the queue, so focus goes to the anchor of the FIRST slide shown.
   */
  lemma BackgroundClickFocusesFirstShown(gs: Galleries, p: Page)
    requires PageValid(gs, p) && p.overlay.Some? && p.overlay.value.fx == []
    requires p.overlay.value.backgroundClicks != []
    ensures var b := AfterBackgroundClick(gs, p);
            && PageValid(gs, b) && b.overlay.Some?
            && b.overlay.value.fx == FadeOuts(p.overlay.value.backgroundClicks)
            && b.store == map[] && b.bodyOverflow == "" && b.focused == p.focused
    ensures var first := p.overlay.value.backgroundClicks[0];
            var done := AfterAnimation(gs, AfterBackgroundClick(gs, p));
            && done.overlay.None?
            && done.focused == (if FigureAt(gs, first).hasAnchor then Some(first) else p.focused)
  {
    CloseEachEffect(gs, p, p.overlay.value.backgroundClicks);
  }

  /** Escape always closes at the slide on display. */
  lemma EscapeFocusesCurrent(gs: Galleries, p: Page, f: FigureRef)
    requires PageValid(gs, p) && Displays(gs, p, f) && p.overlay.value.fx == []
    ensures PageValid(gs, AfterKey(gs, p, Escape).page)
    ensures AfterKey(gs, p, Escape).page.overlay.value.fx == [FadeOut(f)]
    ensures var done := AfterAnimation(gs, AfterKey(gs, p, Escape).page);
            done.overlay.None? && done.focused == (if FigureAt(gs, f).hasAnchor then Some(f) else p.focused)
  {
    SlideAffordances(gs, f);
    KeyKeepsValid(gs, p, Escape);
  }

  /**
   * Hence, once the viewer moved on from the opened figure, a background click and
   * Escape end with focus on different anchors.
   */
  lemma BackgroundClickDiffersFromEscape(gs: Galleries, p: Page, f: FigureRef)
    requires PageValid(gs, p) && Displays(gs, p, f) && p.overlay.value.fx == []
    requires p.overlay.value.backgroundClicks != [] && p.overlay.value.backgroundClicks[0] != f
    requires FigureAt(gs, f).hasAnchor && FigureAt(gs, p.overlay.value.backgroundClicks[0]).hasAnchor
    ensures PageValid(gs, AfterBackgroundClick(gs, p)) && PageValid(gs, AfterKey(gs, p, Escape).page)
    ensures AfterKey(gs, p, Escape).page.overlay.Some? && AfterKey(gs, p, Escape).page.overlay.value.fx != []
    ensures AfterBackgroundClick(gs, p).overlay.Some? && AfterBackgroundClick(gs, p).overlay.value.fx != []
    ensures AfterAnimation(gs, AfterBackgroundClick(gs, p)).focused != AfterAnimation(gs, AfterKey(gs, p, Escape).page).focused
  {
    BackgroundClickFocusesFirstShown(gs, p);
    EscapeFocusesCurrent(gs, p, f);
  }

  /**
   * Opening a figure whose img has no alt attribute stops in `setSlide`: scrolling
   * stays locked, the page stays trapped, and the overlay has no button and no
   * background handler. On the page's first open no key handler is bound either,
   * so no key or click closes it.
   */
  lemma OpenWithoutAltStrandsPage(gs: Galleries, p: Page, f: FigureRef, adminBarBottom: Option<int>, key: Key)
    requires PageValid(gs, p) && p.overlay.None? && p.keyBindings == [] && ValidRef(gs, f)
    requires FigureAt(gs, f).alt.None?
    ensures var s := AfterOpen(gs, p, f, adminBarBottom);
            && s.thrown && s.page.bodyOverflow == "hidden"
            && s.page.elements == Trapped(p.elements, map[])
            && s.page.overlay.Some? && s.page.overlay.value.controls == []
            && s.page.overlay.value.backgroundClicks == [] && s.page.overlay.value.fx == []
    ensures PageValid(gs, AfterOpen(gs, p, f, adminBarBottom).page)
    ensures var s := AfterOpen(gs, p, f, adminBarBottom).page;
            AfterKey(gs, s, key) == Step(s, false) && AfterBackgroundClick(gs, s) == s
  {
    OpenKeepsValid(gs, p, f, adminBarBottom);
  }

  /**
   * The stranded overlay of a later open is not stuck: the Escape handler an
   * earlier slide f left bound still runs `closeLightbox` for f, which unlocks
   * scrolling, undoes the focus trap and queues the fade-out that removes it.
   */
  lemma StaleEscapeClosesStrandedPage(gs: Galleries, p: Page, f: FigureRef, g: FigureRef, adminBarBottom: Option<int>)
    requires PageValid(gs, p) && p.overlay.None? && ValidRef(gs, f) && ValidRef(gs, g)
    requires p.keyBindings == SlideKeys(gs, f) && FigureAt(gs, g).alt.None?
    ensures AfterOpen(gs, p, g, adminBarBottom).thrown
    ensures PageValid(gs, AfterOpen(gs, p, g, adminBarBottom).page)
    ensures var r := AfterKey(gs, AfterOpen(gs, p, g, adminBarBottom).page, Escape);
            && !r.thrown && r.page.bodyOverflow == "" && r.page.elements == p.elements
            && r.page.overlay.Some? && r.page.overlay.value.fx == [FadeOut(f)]
  {
    OpenKeepsValid(gs, p, g, adminBarBottom);
    SlideAffordances(gs, f);
  }

  /**
   * The `keydown.lightbox` handlers survive `closeLightbox`. Once the overlay is gone
   * they are inert: a key rebinds handlers at most, and changes nothing visible.
   */
  lemma StaleKeysAreInert(gs: Galleries, p: Page, key: Key)
    requires PageValid(gs, p) && p.overlay.None? && p.bodyOverflow == ""
    ensures var r := AfterKey(gs, p, key).page;
            && r.overlay.None? && r.elements == p.elements && r.store == p.store
            && r.bodyOverflow == p.bodyOverflow && r.focused == p.focused
  {
    RestoreEmpty(p.elements);
  }
}
