/**
 * The focus trap of lightbox.js: which page elements the focusable selector
 * matches, what `trapFocus` records in the tabindex store and sets to -1, and
 * what `restoreFocus` puts back. An element is identified by its position in
 * the page; the store maps positions to the saved attribute (`None` for the
 * `null` the source saves when the element had no tabindex attribute).
 */
module FocusTrap {
  import opened Wrappers

  datatype Tag = Anchor | ButtonTag | InputTag | SelectTag | TextareaTag | SummaryTag | OtherTag

  /**
   * A page element as the selector sees it. `ariaHidden` is `aria-hidden="true"`,
   * `disabled` is the `:disabled` pseudo-class (which only buttons, inputs, selects
   * and textareas can have, so a summary ignores it), `inOverlay` and `inAdminBar` say
   * whether the element lies inside the lightbox overlay or the admin bar.
   */
  datatype Element = Element(
    tag: Tag,
    hasHref: bool,
    tabindex: Option<string>,
    ariaHidden: bool,
    disabled: bool,
    inOverlay: bool,
    inAdminBar: bool)

  type Store = map<nat, Option<string>>

  const Untabbable: Option<string> := Some("-1")

  predicate IsFormControl(t: Tag) {
    t == ButtonTag || t == InputTag || t == SelectTag || t == TextareaTag
  }

  /**
   * The focusable selector: links with an href, enabled form controls and summaries,
   * and any element with a tabindex attribute, all without tabindex="-1" and
   * without aria-hidden="true". A disabled control is still matched through the
   * `[tabindex]` alternative when it carries a tabindex other than "-1".
   */
  function MatchesFocusable(e: Element): (r: bool)
    ensures e.tabindex == Untabbable ==> !r
    ensures e.ariaHidden ==> !r
    ensures e.disabled && e.tabindex.None? && e.tag != Anchor && e.tag != SummaryTag ==> !r
    ensures e.tag == SummaryTag && e.tabindex != Untabbable && !e.ariaHidden ==> r
    ensures e.tag == OtherTag && e.tabindex.None? ==> !r
    ensures e.tabindex.Some? && e.tabindex != Untabbable && !e.ariaHidden ==> r
    ensures e.tag == Anchor && e.hasHref && e.tabindex != Untabbable && !e.ariaHidden ==> r
    ensures IsFormControl(e.tag) && !e.disabled && e.tabindex != Untabbable && !e.ariaHidden ==> r
    ensures e.tag == Anchor && !e.hasHref && e.tabindex.None? ==> !r
  {
    && e.tabindex != Untabbable
    && !e.ariaHidden
    && ((e.tag == Anchor && e.hasHref) || (IsFormControl(e.tag) && !e.disabled) || e.tag == SummaryTag || e.tabindex.Some?)
  }

  /** An element `trapFocus` may take out of the tab order: matched, and outside the overlay and the admin bar. */
  predicate Trappable(e: Element) {
    MatchesFocusable(e) && !e.inOverlay && !e.inAdminBar
  }

  /** `trapFocus` records element `i` now: it is trappable and not already in the store. */
  predicate RecordsNow(els: seq<Element>, store: Store, i: nat) {
    i < |els| && i !in store && Trappable(els[i])
  }

  /** The page after `trapFocus`: every element it records gets tabindex "-1". */
  function Trapped(els: seq<Element>, store: Store): (r: seq<Element>)
    ensures |r| == |els|
  {
    seq(|els|, i requires 0 <= i < |els| =>
      if RecordsNow(els, store, i) then els[i].(tabindex := Untabbable) else els[i])
  }

  /** The store after `trapFocus`: old entries kept, each newly recorded element mapped to its original tabindex. */
  function TrappedStore(els: seq<Element>, store: Store): (r: Store)
  {
    store + map i | 0 <= i < |els| && RecordsNow(els, store, i) :: els[i].tabindex
  }

  /** The page after `restoreFocus`: each stored element gets its saved tabindex back (removed when `None`). */
  function Restored(els: seq<Element>, store: Store): (r: seq<Element>)
    ensures |r| == |els|
  {
    seq(|els|, i requires 0 <= i < |els| =>
      if i in store then els[i].(tabindex := store[i]) else els[i])
  }

  /** Every stored element is currently out of the tab order. */
  ghost predicate Consistent(els: seq<Element>, store: Store) {
    forall i :: i in store ==> i < |els| && els[i].tabindex == Untabbable
  }

  /**
   * What `trapFocus` records: exactly the old entries plus the trappable elements
   * not yet stored, each with its original tabindex; old entries keep their value.
   */
  lemma TrapRecords(els: seq<Element>, store: Store, i: nat)
    ensures i in TrappedStore(els, store) <==> i in store || RecordsNow(els, store, i)
    ensures i in store ==> TrappedStore(els, store)[i] == store[i]
    ensures RecordsNow(els, store, i) ==> TrappedStore(els, store)[i] == els[i].tabindex
  {
  }

  /** Elements with tabindex "-1", aria-hidden, or inside the overlay or admin bar are never recorded. */
  lemma TrapSkipsExcluded(els: seq<Element>, store: Store, i: nat)
    requires i < |els| && i !in store
    requires els[i].tabindex == Untabbable || els[i].ariaHidden || els[i].inOverlay || els[i].inAdminBar
    ensures i !in TrappedStore(els, store)
    ensures Trapped(els, store)[i] == els[i]
  {
  }

  /** The elements newly recorded are exactly the elements whose tabindex was changed. */
  lemma {:induction false} RecordedExactlyChanged(els: seq<Element>, store: Store, i: nat)
    requires i < |els| && i !in store
    ensures i in TrappedStore(els, store) <==> Trapped(els, store)[i] != els[i]
  {
    if RecordsNow(els, store, i) {
      assert Trapped(els, store)[i].tabindex == Untabbable != els[i].tabindex;
    }
  }

  /** After `trapFocus` from a consistent state, no element outside the overlay and admin bar is matched any more. */
  lemma TrapLeavesNothingTrappable(els: seq<Element>, store: Store)
    requires Consistent(els, store)
    ensures forall i :: 0 <= i < |els| ==> !Trappable(Trapped(els, store)[i])
  {
  }

  /** Trapping keeps every stored element out of the tab order. */
  lemma TrapKeepsConsistent(els: seq<Element>, store: Store)
    ensures Consistent(els, store) ==> Consistent(Trapped(els, store), TrappedStore(els, store))
  {
  }

  /** A second `trapFocus` changes nothing: recorded elements are skipped, so no saved value is overwritten. */
  lemma TrapIdempotent(els: seq<Element>, store: Store)
    requires Consistent(els, store)
    ensures Trapped(Trapped(els, store), TrappedStore(els, store)) == Trapped(els, store)
    ensures TrappedStore(Trapped(els, store), TrappedStore(els, store)) == TrappedStore(els, store)
  {
    var e1, s1 := Trapped(els, store), TrappedStore(els, store);
    TrapLeavesNothingTrappable(els, store);
    TrapKeepsConsistent(els, store);
    assert forall i :: 0 <= i < |e1| ==> !RecordsNow(e1, s1, i);
    assert TrappedStore(e1, s1) == s1;
  }

  /** Trapping keeps what a restore would produce: the tab order to come back to is unchanged. */
  lemma TrapKeepsRestoreTarget(els: seq<Element>, store: Store)
    ensures Restored(Trapped(els, store), TrappedStore(els, store)) == Restored(els, store)
  {
    var lhs := Restored(Trapped(els, store), TrappedStore(els, store));
    forall i | 0 <= i < |els| ensures lhs[i] == Restored(els, store)[i] {
      TrapRecords(els, store, i);
    }
  }

  /** Trap followed by restore, from an empty store, leaves every element as it was. */
  lemma TrapRestoreRoundTrip(els: seq<Element>)
    ensures Restored(Trapped(els, map[]), TrappedStore(els, map[])) == els
  {
    TrapKeepsRestoreTarget(els, map[]);
    assert Restored(els, map[]) == els;
  }

  /** Restoring with an empty store changes nothing. */
  lemma RestoreEmpty(els: seq<Element>)
    ensures Restored(els, map[]) == els
  {
  }
}
