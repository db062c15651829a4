/**
 * The block-selection listener of index.js: on every store change it compares
 * the selected block with the one it saw last, and when a newly selected image
 * block lies inside a lightbox gallery it hides the duotone toolbar group.
 * Hiding is an event here; the DOM query it performs, and its repetition on the
 * next animation frame, are not modelled.
 */
module SelectionWatch {
  import opened Wrappers

  const ImageBlockName := "core/image"
  const GalleryBlockName := "lightbox-gallery/gallery"

  /**
   * The selected block as the listener reads it: its client id, its block name,
   * and for each ancestor the name of the block `getBlock` returns (`None` when it returns null).
   */
  datatype Selected = Selected(clientId: string, name: string, ancestors: seq<Option<string>>)

  /** Some ancestor is a lightbox gallery (`parentIds.some(...)`). */
  predicate InLightboxGallery(ancestors: seq<Option<string>>) {
    exists i | 0 <= i < |ancestors| :: ancestors[i] == Some(GalleryBlockName)
  }

  /** An image block inside a lightbox gallery. */
  predicate GalleryImage(s: Selected) {
    s.name == ImageBlockName && InLightboxGallery(s.ancestors)
  }

  /** The listener's new `previousSelectedBlockClientId`, and whether it hides the duotone group. */
  datatype Reaction = Reaction(previous: Option<string>, hides: bool)

  predicate IsNewSelection(previous: Option<string>, selected: Option<Selected>) {
    selected.Some? && previous != Some(selected.value.clientId)
  }

  /**
   * One notification: a deselection forgets the previous id; the block seen last
   * is ignored; any other selected block becomes the previous one, and it triggers
   * the hide when it is an image block inside a lightbox gallery.
   */
  function React(previous: Option<string>, selected: Option<Selected>): (r: Reaction)
    ensures selected.None? ==> r == Reaction(None, false)
    ensures !IsNewSelection(previous, selected) && selected.Some? ==> r == Reaction(previous, false)
    ensures selected.Some? ==> r.previous == Some(selected.value.clientId)
    ensures r.hides ==> IsNewSelection(previous, selected) && selected.value.name == ImageBlockName
  {
    if selected.None? then Reaction(None, false)
    else if Some(selected.value.clientId) == previous then Reaction(previous, false)
    else
      Reaction(Some(selected.value.clientId), GalleryImage(selected.value))
  }

  /** The listener's closure, with `previousSelectedBlockClientId` as its one field. */
  class SelectionTracker {
    var previous: Option<string>

    constructor ()
      ensures previous.None?
    {
      previous := None;
    }

    /** The `subscribe` callback: reads the current selection, updates the field, reports whether it hides. */
    method OnChange(selected: Option<Selected>) returns (hides: bool)
      modifies this
      ensures previous == React(old(previous), selected).previous
      ensures hides == React(old(previous), selected).hides
    {
      if selected.None? || Some(selected.value.clientId) == previous {
        if selected.None? {
          previous := None;
        }
        return false;
      }
      previous := Some(selected.value.clientId);
      hides := selected.value.name == ImageBlockName && InLightboxGallery(selected.value.ancestors);
    }
  }

  /** A sequence of notifications: the final previous id and how many of them hid the duotone group. */
  function Run(previous: Option<string>, events: seq<Option<Selected>>): (r: (Option<string>, nat))
    ensures r.1 <= |events|
    decreases |events|
  {
    if events == [] then (previous, 0)
    else
      var first := React(previous, events[0]);
      var rest := Run(first.previous, events[1..]);
      (rest.0, rest.1 + (if first.hides then 1 else 0))
  }

  /** The duotone group is hidden exactly for a newly selected image block with a lightbox-gallery ancestor. */
  lemma HidesExactlyForNewGalleryImage(previous: Option<string>, selected: Option<Selected>)
    ensures React(previous, selected).hides <==> IsNewSelection(previous, selected) && GalleryImage(selected.value)
  {
  }

  /** Once a block is seen, further notifications about the same block change nothing and hide nothing. */
  lemma {:induction false} RepeatsAreIgnored(id: string, events: seq<Option<Selected>>)
    requires forall i :: 0 <= i < |events| ==> events[i].Some? && events[i].value.clientId == id
    ensures Run(Some(id), events) == (Some(id), 0)
    decreases |events|
  {
    if events != [] {
      RepeatsAreIgnored(id, events[1..]);
    }
  }

  /** While the same block stays selected, the listener hides the duotone group at most once. */
  lemma {:induction false} SteadySelectionHidesAtMostOnce(previous: Option<string>, id: string, events: seq<Option<Selected>>)
    requires forall i :: 0 <= i < |events| ==> events[i].Some? && events[i].value.clientId == id
    ensures Run(previous, events).1 <= 1
    ensures events != [] ==> Run(previous, events).0 == Some(id)
  {
    if events != [] {
      RepeatsAreIgnored(id, events[1..]);
    }
  }

  /** A deselection resets the listener: reselecting the block seen last is handled as a new selection. */
  lemma {:induction false} DeselectResets(s: Selected)
    ensures Run(Some(s.clientId), [None, Some(s)]) == (Some(s.clientId), if GalleryImage(s) then 1 else 0)
  {
    var events: seq<Option<Selected>> := [None, Some(s)];
    assert events[1..] == [Some(s)];
    assert events[1..][1..] == [];
    assert Run(None, [Some(s)]) == (Some(s.clientId), if GalleryImage(s) then 1 else 0);
  }
}
