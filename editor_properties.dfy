/** What `onSelectImages`, `onAddImages`, the preselection id list and the attribute effects guarantee. */
module GalleryEditorProperties {
  import opened Wrappers
  import opened StableSort
  import opened GalleryEditor

  /** The ids of a selection, in order. */
  function Ids(images: seq<Image>): (r: seq<int>)
    ensures |r| == |images|
  {
    seq(|images|, i requires 0 <= i < |images| => images[i].id)
  }

  /**
   * After choosing images with nonzero ids, the list the media library is handed
   * as its preselection is exactly the chosen ids, in the chosen order.
   */
  lemma {:induction false} SelectThenPreselectRoundTrip(images: seq<Image>, sizeSlug: Option<string>)
    requires images != []
    requires forall i :: 0 <= i < |images| ==> images[i].id != 0
    ensures MediaUploadValue(OnSelectImages(Some(images), sizeSlug).value) == Ids(images)
  {
    CreatedIdsListed(images, sizeSlug);
  }

  lemma {:induction false} CreatedIdsListed(images: seq<Image>, sizeSlug: Option<string>)
    requires forall i :: 0 <= i < |images| ==> images[i].id != 0
    ensures MediaUploadValue(CreateBlocks(images, sizeSlug)) == Ids(images)
  {
    var bs := CreateBlocks(images, sizeSlug);
    NonzeroIdsListed(bs);
    assert forall i | 0 <= i < |images| :: MediaUploadValue(bs)[i] == Ids(images)[i];
  }

  /** `replaceInnerBlocks` is skipped exactly when the selection is empty: any selected image is kept or added. */
  lemma {:induction false} AddNothingOnlyForEmptySelection(blocks: seq<ImageBlock>, selection: seq<Image>, sizeSlug: Option<string>)
    ensures AddImages(blocks, selection, sizeSlug).None? <==> selection == []
  {
    var kept := KeptBlocks(blocks, selection);
    var newImages := NewImages(selection, kept);
    if selection != [] && !Carried(kept, selection[0]) {
      NewImagesCounts(selection, kept, selection[0]);
      assert selection[0] in multiset(selection);
    }
  }

  /** No id is carried by both a kept block and a newly created one. */
  lemma {:induction false} NoIdKeptAndAdded(blocks: seq<ImageBlock>, selection: seq<Image>, sizeSlug: Option<string>)
    ensures var kept := KeptBlocks(blocks, selection);
      var added := CreateBlocks(NewImages(selection, kept), sizeSlug);
      forall i, j :: 0 <= i < |kept| && 0 <= j < |added| ==> kept[i].id != added[j].id
  {
  }

  /** Every selected id is carried by some block of the result. */
  lemma {:induction false} AddRepresentsEverySelectedId(blocks: seq<ImageBlock>, selection: seq<Image>, sizeSlug: Option<string>, i: nat)
    requires i < |selection|
    ensures AddImages(blocks, selection, sizeSlug).Some?
    ensures exists b :: b in AddImages(blocks, selection, sizeSlug).value && b.id == Some(selection[i].id)
  {
    var kept := KeptBlocks(blocks, selection);
    var newImages := NewImages(selection, kept);
    var added := CreateBlocks(newImages, sizeSlug);
    AddNothingOnlyForEmptySelection(blocks, selection, sizeSlug);
    SortKeepsMembers(kept + added, SelectionRank(selection));
    if Carried(kept, selection[i]) {
      var j :| 0 <= j < |kept| && kept[j].id == Some(selection[i].id);
      assert kept[j] in kept + added;
    } else {
      assert selection[i] in newImages;
      var j :| 0 <= j < |newImages| && newImages[j] == selection[i];
      assert added[j] in kept + added;
    }
  }

  /** The result is a permutation of the kept blocks followed by the new ones. */
  lemma {:induction false} AddPermutesMerge(blocks: seq<ImageBlock>, selection: seq<Image>, sizeSlug: Option<string>)
    requires AddImages(blocks, selection, sizeSlug).Some?
    ensures var kept := KeptBlocks(blocks, selection);
      multiset(AddImages(blocks, selection, sizeSlug).value) == multiset(kept + CreateBlocks(NewImages(selection, kept), sizeSlug))
  {
    var kept := KeptBlocks(blocks, selection);
    SortPermutes(kept + CreateBlocks(NewImages(selection, kept), sizeSlug), SelectionRank(selection));
  }

  /** Each existing block whose id is still selected survives. */
  lemma {:induction false} AddKeepsSelectedBlocks(blocks: seq<ImageBlock>, selection: seq<Image>, sizeSlug: Option<string>, b: ImageBlock)
    requires b in blocks && Selected(selection, b)
    ensures AddImages(blocks, selection, sizeSlug).Some?
    ensures b in AddImages(blocks, selection, sizeSlug).value
  {
    var kept := KeptBlocks(blocks, selection);
    var all := kept + CreateBlocks(NewImages(selection, kept), sizeSlug);
    assert b in kept;
    assert b in all;
    SortKeepsMembers(all, SelectionRank(selection));
  }

  /** Apart from kept blocks, the result holds only new blocks made from selected images no kept block carries. */
  lemma {:induction false} AddHoldsOnlyKeptOrNew(blocks: seq<ImageBlock>, selection: seq<Image>, sizeSlug: Option<string>, b: ImageBlock)
    requires AddImages(blocks, selection, sizeSlug).Some?
    requires b in AddImages(blocks, selection, sizeSlug).value
    ensures || (b in blocks && Selected(selection, b))
            || exists img :: img in selection && !Carried(KeptBlocks(blocks, selection), img) && b == CreateBlock(img, sizeSlug)
  {
    var kept := KeptBlocks(blocks, selection);
    var newImages := NewImages(selection, kept);
    var added := CreateBlocks(newImages, sizeSlug);
    SortKeepsMembers(kept + added, SelectionRank(selection));
    assert b in kept + added;
    if b !in kept {
      var j :| 0 <= j < |added| && added[j] == b;
      assert newImages[j] in newImages;
    }
  }

  /** Every block of the result carries a selected id, so the `Infinity` fallback of the sort key never applies. */
  lemma {:induction false} AddRanksBySelectionPosition(blocks: seq<ImageBlock>, selection: seq<Image>, sizeSlug: Option<string>, b: ImageBlock)
    requires AddImages(blocks, selection, sizeSlug).Some?
    requires b in AddImages(blocks, selection, sizeSlug).value
    ensures b.id.Some? && b.id.value in OrderMap(selection)
    ensures SelectionRank(selection)(b) < |selection|
  {
    AddHoldsOnlyKeptOrNew(blocks, selection, sizeSlug, b);
    if !(b in blocks && Selected(selection, b)) {
      var img :| img in selection && b == CreateBlock(img, sizeSlug);
      var k :| 0 <= k < |selection| && selection[k] == img;
    }
  }

  /** The result is ordered by position in the selection, the last position when an id is selected twice. */
  lemma {:induction false} AddOrdersBySelection(blocks: seq<ImageBlock>, selection: seq<Image>, sizeSlug: Option<string>)
    requires AddImages(blocks, selection, sizeSlug).Some?
    ensures SortedBy(AddImages(blocks, selection, sizeSlug).value, SelectionRank(selection))
  {
    var kept := KeptBlocks(blocks, selection);
    SortSorted(kept + CreateBlocks(NewImages(selection, kept), sizeSlug), SelectionRank(selection));
  }

  /** Blocks of equal rank keep their order: existing duplicates stay as they were, kept blocks precede new ones. */
  lemma {:induction false} AddIsStable(blocks: seq<ImageBlock>, selection: seq<Image>, sizeSlug: Option<string>, rank: int)
    requires AddImages(blocks, selection, sizeSlug).Some?
    ensures var kept := KeptBlocks(blocks, selection);
      var added := CreateBlocks(NewImages(selection, kept), sizeSlug);
      var key := SelectionRank(selection);
      KeyClass(AddImages(blocks, selection, sizeSlug).value, key, rank) == KeyClass(kept, key, rank) + KeyClass(added, key, rank)
  {
    var kept := KeptBlocks(blocks, selection);
    var added := CreateBlocks(NewImages(selection, kept), sizeSlug);
    SortStable(kept + added, SelectionRank(selection), rank);
    KeyClassConcat(kept, added, SelectionRank(selection), rank);
  }

  /** A block without an id (an image inserted by URL) never survives `onAddImages`. */
  lemma {:induction false} AddDropsBlocksWithoutId(blocks: seq<ImageBlock>, selection: seq<Image>, sizeSlug: Option<string>, b: ImageBlock)
    requires b.id.None? && AddImages(blocks, selection, sizeSlug).Some?
    ensures b !in AddImages(blocks, selection, sizeSlug).value
  {
    if b in AddImages(blocks, selection, sizeSlug).value {
      AddRanksBySelectionPosition(blocks, selection, sizeSlug, b);
    }
  }

  lemma {:induction false} AllSelectedAreKept(blocks: seq<ImageBlock>, selection: seq<Image>)
    requires forall i :: 0 <= i < |blocks| ==> Selected(selection, blocks[i])
    ensures KeptBlocks(blocks, selection) == blocks
    decreases |blocks|
  {
    if blocks != [] {
      AllSelectedAreKept(blocks[1..], selection);
    }
  }

  lemma {:induction false} AllCarriedLeaveNothingNew(selection: seq<Image>, kept: seq<ImageBlock>)
    requires forall i :: 0 <= i < |selection| ==> Carried(kept, selection[i])
    ensures NewImages(selection, kept) == []
    decreases |selection|
  {
    if selection != [] {
      AllCarriedLeaveNothingNew(selection[1..], kept);
    }
  }

  lemma {:induction false} NonzeroIdsListed(blocks: seq<ImageBlock>)
    requires forall i :: 0 <= i < |blocks| ==> blocks[i].id.Some? && blocks[i].id.value != 0
    ensures |MediaUploadValue(blocks)| == |blocks|
    ensures forall i :: 0 <= i < |blocks| ==> MediaUploadValue(blocks)[i] == blocks[i].id.value
    decreases |blocks|
  {
    if blocks != [] {
      NonzeroIdsListed(blocks[1..]);
    }
  }

  /** With distinct ids in the selection, each image's position is its own rank. */
  lemma {:induction false} DistinctIdsRankByPosition(selection: seq<Image>, i: nat)
    requires forall j, k :: 0 <= j < k < |selection| ==> selection[j].id != selection[k].id
    requires i < |selection|
    ensures selection[i].id in OrderMap(selection) && OrderMap(selection)[selection[i].id] == i
  {
    var m := OrderMap(selection);
    assert selection[i].id in m;
    var p := m[selection[i].id];
    assert selection[p].id == selection[i].id;
  }

  /** Blocks whose ids are the selection's, position by position, are already in selection order. */
  lemma {:induction false} MatchingBlocksInSelectionOrder(blocks: seq<ImageBlock>, selection: seq<Image>)
    requires |selection| == |blocks|
    requires forall i :: 0 <= i < |blocks| ==> blocks[i].id == Some(selection[i].id)
    requires forall i, j :: 0 <= i < j < |blocks| ==> blocks[i].id != blocks[j].id
    ensures SortedBy(blocks, SelectionRank(selection))
  {
    var key := SelectionRank(selection);
    forall i | 0 <= i < |blocks| ensures key(blocks[i]) == i {
      DistinctIdsRankByPosition(selection, i);
    }
  }

  /** Merging a selection that matches the blocks position by position changes nothing. */
  lemma {:induction false} MatchingSelectionKeepsBlocks(blocks: seq<ImageBlock>, selection: seq<Image>, sizeSlug: Option<string>)
    requires blocks != [] && |selection| == |blocks|
    requires forall i :: 0 <= i < |blocks| ==> blocks[i].id == Some(selection[i].id)
    requires forall i, j :: 0 <= i < j < |blocks| ==> blocks[i].id != blocks[j].id
    ensures AddImages(blocks, selection, sizeSlug) == Some(blocks)
  {
    assert KeptBlocks(blocks, selection) == blocks by {
      forall i | 0 <= i < |blocks| ensures Selected(selection, blocks[i]) {
        assert selection[i].id == blocks[i].id.value;
      }
      AllSelectedAreKept(blocks, selection);
    }
    assert NewImages(selection, blocks) == [] by {
      forall i | 0 <= i < |selection| ensures Carried(blocks, selection[i]) {
        assert blocks[i].id == Some(selection[i].id);
      }
      AllCarriedLeaveNothingNew(selection, blocks);
    }
    assert blocks + CreateBlocks([], sizeSlug) == blocks;
    assert SortBy(blocks, SelectionRank(selection)) == blocks by {
      MatchingBlocksInSelectionOrder(blocks, selection);
      SortOfSortedIsIdentity(blocks, SelectionRank(selection));
    }
  }

  /**
   * Confirming the preselection unchanged is a no-op: when the blocks carry
   * distinct nonzero ids and the selection holds exactly the ids the
   * preselection lists, in that order, `onAddImages` puts back the same blocks.
   */
  lemma {:induction false} ConfirmingPreselectionKeepsBlocks(blocks: seq<ImageBlock>, selection: seq<Image>, sizeSlug: Option<string>)
    requires blocks != []
    requires forall i :: 0 <= i < |blocks| ==> blocks[i].id.Some? && blocks[i].id.value != 0
    requires forall i, j :: 0 <= i < j < |blocks| ==> blocks[i].id != blocks[j].id
    requires Ids(selection) == MediaUploadValue(blocks)
    ensures AddImages(blocks, selection, sizeSlug) == Some(blocks)
  {
    NonzeroIdsListed(blocks);
    forall i | 0 <= i < |blocks| ensures blocks[i].id == Some(selection[i].id) {
      assert Ids(selection)[i] == selection[i].id;
    }
    MatchingSelectionKeepsBlocks(blocks, selection, sizeSlug);
  }

  /** After the effects have run, neither effect issues another update, and running them again changes nothing. */
  lemma {:induction false} EffectsSettle(a: Attributes)
    ensures LayoutUpdate(AfterEffects(a).layout).None?
    ensures AllowResizeUpdate(AfterEffects(a).allowResize).None?
    ensures AfterEffects(AfterEffects(a)) == AfterEffects(a)
    ensures AfterEffects(a).allowResize == Some(false)
    ensures LayoutOrientation(AfterEffects(a).layout) == "horizontal"
  {
  }

  /** A layout that is already flex and horizontal is left alone, other keys included; any other is replaced whole. */
  lemma {:induction false} LayoutKeptOnlyWhenFlexHorizontal(a: Attributes)
    ensures IsFlexHorizontal(a.layout) ==> AfterEffects(a).layout == a.layout
    ensures !IsFlexHorizontal(a.layout) ==> AfterEffects(a).layout == Some(FlexHorizontal)
  {
  }
}
