/**
 * The editor side of the gallery block (index.js): turning a media-library
 * selection into `core/image` inner blocks, merging a later selection into the
 * existing blocks, the id list handed back to the media library as its
 * preselection, and the attribute-normalising effects. A call to
 * `replaceInnerBlocks` is modelled as a `Some` result holding the new blocks,
 * no call as `None`; a call to `setAttributes` likewise as the update it makes.
 */
module GalleryEditor {
  import opened Wrappers
  import opened StableSort

  /** An attachment from the media library; `alt` is `None` when the attachment has no alt text. */
  datatype Image = Image(id: int, url: string, alt: Option<string>)

  /** The attributes of a `core/image` block the gallery reads or writes; `id` is `None` for an image inserted by URL. */
  datatype ImageBlock = ImageBlock(id: Option<int>, url: string, alt: string, sizeSlug: string)

  const DefaultSizeSlug := "large"

  /** `attributes.sizeSlug || 'large'`: an unset or empty size slug falls back to "large". */
  function SizeSlugOr(sizeSlug: Option<string>): (r: string)
    ensures r != ""
    ensures sizeSlug.Some? && sizeSlug.value != "" ==> r == sizeSlug.value
    ensures sizeSlug.None? || sizeSlug == Some("") ==> r == DefaultSizeSlug
  {
    if sizeSlug.Some? && sizeSlug.value != "" then sizeSlug.value else DefaultSizeSlug
  }

  /** `image.alt || ''`. */
  function AltOrEmpty(alt: Option<string>): (r: string)
    ensures alt.Some? ==> r == alt.value
    ensures alt.None? ==> r == ""
  {
    alt.GetOr("")
  }

  /** The block `createBlock('core/image', …)` makes for an image. */
  function CreateBlock(image: Image, sizeSlug: Option<string>): ImageBlock {
    ImageBlock(Some(image.id), image.url, AltOrEmpty(image.alt), SizeSlugOr(sizeSlug))
  }

  /** One new block per image, in the same order. */
  function CreateBlocks(images: seq<Image>, sizeSlug: Option<string>): (r: seq<ImageBlock>)
    ensures |r| == |images|
    ensures forall i :: 0 <= i < |r| ==> r[i] == CreateBlock(images[i], sizeSlug)
  {
    seq(|images|, i requires 0 <= i < |images| => CreateBlock(images[i], sizeSlug))
  }

  /**
   * `onSelectImages`: a missing or empty selection replaces nothing; otherwise
   * the inner blocks become one image block per selected image, in order, with
   * the image's id and url, its alt text or "", and the gallery's size slug or "large".
   */
  function OnSelectImages(images: Option<seq<Image>>, sizeSlug: Option<string>): (r: Option<seq<ImageBlock>>)
    ensures r.None? <==> images.None? || images.value == []
    ensures r.Some? ==> |r.value| == |images.value|
    ensures r.Some? ==> forall i :: 0 <= i < |r.value| ==>
      && r.value[i].id == Some(images.value[i].id)
      && r.value[i].url == images.value[i].url
      && r.value[i].alt == AltOrEmpty(images.value[i].alt)
      && r.value[i].sizeSlug == SizeSlugOr(sizeSlug)
  {
    if images.None? || images.value == [] then None
    else Some(CreateBlocks(images.value, sizeSlug))
  }

  /** Some selected image has the block's id (`selectedImages.some(img => img.id === block.attributes.id)`). */
  predicate Selected(selection: seq<Image>, b: ImageBlock) {
    b.id.Some? && exists i | 0 <= i < |selection| :: selection[i].id == b.id.value
  }

  /** The existing blocks whose id is still selected, in their order; duplicates are kept as often as they occur. */
  function KeptBlocks(blocks: seq<ImageBlock>, selection: seq<Image>): (r: seq<ImageBlock>)
    ensures forall b :: b in r <==> b in blocks && Selected(selection, b)
    ensures forall i :: 0 <= i < |r| ==> Selected(selection, r[i])
  {
    if blocks == [] then []
    else
      assert blocks == [blocks[0]] + blocks[1..];
      (if Selected(selection, blocks[0]) then [blocks[0]] else []) + KeptBlocks(blocks[1..], selection)
  }

  /** Each selected block is kept as often as it occurs; an unselected one never. */
  lemma {:induction false} KeptBlocksCounts(blocks: seq<ImageBlock>, selection: seq<Image>, b: ImageBlock)
    ensures multiset(KeptBlocks(blocks, selection))[b] == if Selected(selection, b) then multiset(blocks)[b] else 0
    decreases |blocks|
  {
    if blocks != [] {
      assert blocks == [blocks[0]] + blocks[1..];
      KeptBlocksCounts(blocks[1..], selection, b);
    }
  }

  /** One block is kept exactly when it is selected. */
  lemma KeptBlocksSingle(b: ImageBlock, selection: seq<Image>)
    ensures KeptBlocks([b], selection) == if Selected(selection, b) then [b] else []
  {
    assert [b][1..] == [];
  }

  /** The filter keeps the blocks' order: it distributes over concatenation. */
  lemma {:induction false} KeptBlocksConcat(a: seq<ImageBlock>, b: seq<ImageBlock>, selection: seq<Image>)
    ensures KeptBlocks(a + b, selection) == KeptBlocks(a, selection) + KeptBlocks(b, selection)
    decreases |a|
  {
    if a == [] {
      assert a + b == b;
    } else {
      assert (a + b)[0] == a[0];
      assert (a + b)[1..] == a[1..] + b;
      KeptBlocksConcat(a[1..], b, selection);
    }
  }

  /** Some kept block already carries the image's id. */
  predicate Carried(kept: seq<ImageBlock>, image: Image) {
    exists j | 0 <= j < |kept| :: kept[j].id == Some(image.id)
  }

  /** The selected images no kept block carries, in selection order. */
  function NewImages(selection: seq<Image>, kept: seq<ImageBlock>): (r: seq<Image>)
    ensures forall img :: img in r <==> img in selection && !Carried(kept, img)
    ensures forall i :: 0 <= i < |r| ==> !Carried(kept, r[i])
  {
    if selection == [] then []
    else
      assert selection == [selection[0]] + selection[1..];
      (if Carried(kept, selection[0]) then [] else [selection[0]]) + NewImages(selection[1..], kept)
  }

  /** Each selected image no kept block carries appears as often as it is selected; a carried one never. */
  lemma {:induction false} NewImagesCounts(selection: seq<Image>, kept: seq<ImageBlock>, img: Image)
    ensures multiset(NewImages(selection, kept))[img] == if Carried(kept, img) then 0 else multiset(selection)[img]
    decreases |selection|
  {
    if selection != [] {
      assert selection == [selection[0]] + selection[1..];
      NewImagesCounts(selection[1..], kept, img);
    }
  }

  /** One image is new exactly when no kept block carries its id. */
  lemma NewImagesSingle(img: Image, kept: seq<ImageBlock>)
    ensures NewImages([img], kept) == if Carried(kept, img) then [] else [img]
  {
    assert [img][1..] == [];
  }

  /** The filter keeps the selection's order: it distributes over concatenation. */
  lemma {:induction false} NewImagesConcat(a: seq<Image>, b: seq<Image>, kept: seq<ImageBlock>)
    ensures NewImages(a + b, kept) == NewImages(a, kept) + NewImages(b, kept)
    decreases |a|
  {
    if a == [] {
      assert a + b == b;
    } else {
      assert (a + b)[0] == a[0];
      assert (a + b)[1..] == a[1..] + b;
      NewImagesConcat(a[1..], b, kept);
    }
  }

  /**
   * `newOrderMap`: each selected id mapped to its position in the selection;
   * when an id is selected more than once the last position wins.
   */
  function OrderMap(selection: seq<Image>): (m: map<int, nat>)
    ensures forall id :: id in m <==> exists i | 0 <= i < |selection| :: selection[i].id == id
    ensures forall id :: id in m ==> m[id] < |selection| && selection[m[id]].id == id
    ensures forall id, j :: id in m && m[id] < j < |selection| ==> selection[j].id != id
  {
    if selection == [] then map[]
    else
      var n := |selection| - 1;
      var m := OrderMap(selection[..n]);
      OrderMapExtend(selection, m);
      m[selection[n].id := n]
  }

  /** Adding the last image's position to the prefix's order map gives the whole selection's. */
  lemma {:induction false} OrderMapExtend(selection: seq<Image>, m: map<int, nat>)
    requires selection != []
    requires var prefix := selection[..|selection| - 1];
      && (forall id :: id in m <==> exists i | 0 <= i < |prefix| :: prefix[i].id == id)
      && (forall id :: id in m ==> m[id] < |prefix| && prefix[m[id]].id == id)
      && (forall id, j :: id in m && m[id] < j < |prefix| ==> prefix[j].id != id)
    ensures var n := |selection| - 1; var m' := m[selection[n].id := n];
      && (forall id :: id in m' <==> exists i | 0 <= i < |selection| :: selection[i].id == id)
      && (forall id :: id in m' ==> m'[id] < |selection| && selection[m'[id]].id == id)
      && (forall id, j :: id in m' && m'[id] < j < |selection| ==> selection[j].id != id)
  {
    var n := |selection| - 1;
    var prefix := selection[..n];
    var m' := m[selection[n].id := n];
    assert forall i | 0 <= i < n :: prefix[i] == selection[i];
    forall id ensures id in m' <==> exists i | 0 <= i < |selection| :: selection[i].id == id {
      if id != selection[n].id && exists i | 0 <= i < |selection| :: selection[i].id == id {
        var i :| 0 <= i < |selection| && selection[i].id == id;
        assert prefix[i].id == id;
      }
    }
  }

  /** The `reduce` that fills `newOrderMap`, one image at a time. */
  method BuildOrderMap(selection: seq<Image>) returns (m: map<int, nat>)
    ensures m == OrderMap(selection)
  {
    m := map[];
    var i := 0;
    while i < |selection|
      invariant 0 <= i <= |selection|
      invariant m == OrderMap(selection[..i])
    {
      assert selection[..i + 1][..i] == selection[..i];
      m := m[selection[i].id := i];
      i := i + 1;
    }
    assert selection[..i] == selection;
  }

  /**
   * The sort key `newOrderMap[a.attributes.id] ?? Infinity`. `Infinity` is encoded
   * as `infinity`, a value above every position; since `Infinity - Infinity` is
   * NaN and a NaN comparison counts as equal, two such blocks tie, as here.
   */
  function Rank(order: map<int, nat>, infinity: nat, b: ImageBlock): int {
    if b.id.Some? && b.id.value in order then order[b.id.value] else infinity
  }

  function RankBy(order: map<int, nat>, infinity: nat): ImageBlock -> int {
    b => Rank(order, infinity, b)
  }

  /** The order in which `onAddImages` sorts: by position in the selection. */
  function SelectionRank(selection: seq<Image>): ImageBlock -> int {
    RankBy(OrderMap(selection), |selection|)
  }

  /**
   * `onAddImages`: kept blocks followed by blocks for the new images, stably
   * sorted by position in the selection; `None` when both lists are empty and
   * `replaceInnerBlocks` is not called.
   */
  function AddImages(blocks: seq<ImageBlock>, selection: seq<Image>, sizeSlug: Option<string>): Option<seq<ImageBlock>> {
    var kept := KeptBlocks(blocks, selection);
    var added := CreateBlocks(NewImages(selection, kept), sizeSlug);
    if |kept| > 0 || |added| > 0 then Some(SortBy(kept + added, SelectionRank(selection))) else None
  }

  /** `onAddImages` as it runs: the order map built by a loop and the merged list sorted in place. */
  method OnAddImages(blocks: seq<ImageBlock>, selection: seq<Image>, sizeSlug: Option<string>) returns (r: Option<seq<ImageBlock>>)
    ensures r == AddImages(blocks, selection, sizeSlug)
  {
    var order := BuildOrderMap(selection);
    var kept := KeptBlocks(blocks, selection);
    var added := CreateBlocks(NewImages(selection, kept), sizeSlug);
    if |kept| > 0 || |added| > 0 {
      var all := kept + added;
      var a := new ImageBlock[|all|](i requires 0 <= i < |all| => all[i]);
      assert a[..] == all;
      InsertionSort(a, RankBy(order, |selection|));
      assert RankBy(order, |selection|) == SelectionRank(selection);
      r := Some(a[..]);
    } else {
      r := None;
    }
  }

  /** The MediaUpload `value`: the blocks' ids in order, without the falsy ones (a missing id or 0). */
  function MediaUploadValue(blocks: seq<ImageBlock>): (r: seq<int>)
    ensures |r| <= |blocks|
    ensures forall x :: x in r <==> x != 0 && exists i | 0 <= i < |blocks| :: blocks[i].id == Some(x)
  {
    if blocks == [] then []
    else
      assert blocks == [blocks[0]] + blocks[1..];
      var rest := MediaUploadValue(blocks[1..]);
      if blocks[0].id.Some? && blocks[0].id.value != 0 then [blocks[0].id.value] + rest else rest
  }

  /** A single block contributes its id exactly when the id is present and not 0. */
  lemma MediaUploadValueSingle(b: ImageBlock)
    ensures MediaUploadValue([b]) == if b.id.Some? && b.id.value != 0 then [b.id.value] else []
  {
    assert [b][1..] == [];
  }

  /** The id list keeps block order and repeats: it distributes over concatenation. */
  lemma {:induction false} MediaUploadValueConcat(a: seq<ImageBlock>, b: seq<ImageBlock>)
    ensures MediaUploadValue(a + b) == MediaUploadValue(a) + MediaUploadValue(b)
    decreases |a|
  {
    if a == [] {
      assert a + b == b;
    } else {
      assert (a + b)[0] == a[0];
      assert (a + b)[1..] == a[1..] + b;
      MediaUploadValueConcat(a[1..], b);
    }
  }

  /** `layout`: its `type`, its `orientation`, and any other keys it carries. */
  datatype Layout = Layout(kind: Option<string>, orientation: Option<string>, others: map<string, string>)

  const FlexHorizontal := Layout(Some("flex"), Some("horizontal"), map[])

  predicate IsFlexHorizontal(layout: Option<Layout>) {
    layout.Some? && layout.value.kind == Some("flex") && layout.value.orientation == Some("horizontal")
  }

  /**
   * The layout effect: a layout that is missing or not flex and horizontal is
   * replaced whole by `{type: 'flex', orientation: 'horizontal'}`; otherwise no update.
   */
  function LayoutUpdate(layout: Option<Layout>): (u: Option<Layout>)
    ensures u.None? <==> IsFlexHorizontal(layout)
    ensures u.Some? ==> u.value == FlexHorizontal
  {
    if IsFlexHorizontal(layout) then None else Some(FlexHorizontal)
  }

  /** `attributes.layout?.orientation || 'horizontal'`. */
  function LayoutOrientation(layout: Option<Layout>): (r: string)
    ensures r != ""
    ensures layout.None? || layout.value.orientation.None? || layout.value.orientation == Some("") ==> r == "horizontal"
    ensures layout.Some? && layout.value.orientation.Some? && layout.value.orientation.value != "" ==> r == layout.value.orientation.value
  {
    if layout.Some? && layout.value.orientation.Some? && layout.value.orientation.value != "" then layout.value.orientation.value
    else "horizontal"
  }

  /** The allowResize effect: `setAttributes({allowResize: false})` unless it is already `false`. */
  function AllowResizeUpdate(allowResize: Option<bool>): (u: Option<bool>)
    ensures u.None? <==> allowResize == Some(false)
    ensures u.Some? ==> u.value == false
  {
    if allowResize == Some(false) then None else Some(false)
  }

  /** The attributes of the gallery block the editor reads. */
  datatype Attributes = Attributes(layout: Option<Layout>, allowResize: Option<bool>, sizeSlug: Option<string>)

  /** The attributes once both effects have run and their updates are applied. */
  function AfterEffects(a: Attributes): (r: Attributes)
    ensures r.sizeSlug == a.sizeSlug
  {
    var layout := LayoutUpdate(a.layout);
    var allowResize := AllowResizeUpdate(a.allowResize);
    a.(layout := if layout.Some? then layout else a.layout,
       allowResize := if allowResize.Some? then allowResize else a.allowResize)
  }
}
