/** The application-level rules around a try-on run: the checks made before
    any look is sent for generation, and the display name given to an
    uploaded garment. */
module TryOn {
  import opened Types
  import opened Combinator
  import opened Strings

  // ---------------------------------------------------------------------------
  // Pre-flight checks of a try-on run
  // ---------------------------------------------------------------------------

  const NoPhotoMessage: string := "Please select a photo first."
  const NoItemsMessage: string := "Please select at least one clothing item."
  const PlaceholderMessage: string :=
    "A selected style is a placeholder. Please upload real clothing items to use the try-on feature."

  /** What pressing "apply" leads to: an error shown to the user, or the
      looks to render one after another. */
  datatype ApplyOutcome = Rejected(message: string) | Generate(looks: seq<seq<TryOnItem>>)

  /** A seed catalogue item carries no image data. */
  predicate IsPlaceholder(x: FilterItem)
  {
    x.image.base64 == ""
  }

  /** `looks.flat()`: the items of all looks, look after look. */
  function Flatten(looks: seq<seq<TryOnItem>>): (items: seq<TryOnItem>)
    ensures forall x :: x in items <==> exists i :: 0 <= i < |looks| && x in looks[i]
    decreases |looks|
  {
    if looks == [] then [] else looks[0] + Flatten(looks[1..])
  }

  /** `items.some(item => !item.image.base64)`. */
  function HasPlaceholder(items: seq<TryOnItem>): (b: bool)
    ensures b <==> exists i :: 0 <= i < |items| && IsPlaceholder(items[i].item)
    decreases |items|
  {
    if items == [] then false else IsPlaceholder(items[0].item) || HasPlaceholder(items[1..])
  }

  /** The three checks in order: a photo, at least one look, no placeholder
      item in any look. */
  function PreFlight(photo: Option<UploadedImage>, looks: seq<seq<TryOnItem>>): ApplyOutcome
  {
    if photo.None? then Rejected(NoPhotoMessage)
    else if looks == [] then Rejected(NoItemsMessage)
    else if HasPlaceholder(Flatten(looks)) then Rejected(PlaceholderMessage)
    else Generate(looks)
  }

  /** `handleApplyFilter` up to the start of generation, over the corrected
      combinator. */
  function ApplyFilter(photo: Option<UploadedImage>, sel: Selection): ApplyOutcome
  {
    PreFlight(photo, Combinations(sel))
  }

  /** `handleApplyFilter` over the combinator as written. */
  function ApplyFilterAsWritten(photo: Option<UploadedImage>, sel: Selection): ApplyOutcome
  {
    PreFlight(photo, CombinationsAsWritten(sel))
  }

  /** Every selected item of a look slot appears, under that category, in
      some generated look. */
  lemma EverySlotItemIsUsed(sel: Selection, c: Category, x: FilterItem)
    requires c in LookSlots(sel) && x in sel.Get(c)
    ensures exists i :: 0 <= i < |Combinations(sel)| && TryOnItem(x, c) in Combinations(sel)[i]
  {
    var slots := LookSlots(sel);
    forall k | 0 <= k < |slots| ensures sel.Get(slots[k]) != [] {
      FilledAreSelectedAt(sel, BaseSlots(sel) + AccessorySlots, k);
    }
    var look := seq(|slots|, k requires 0 <= k < |slots| =>
      TryOnItem(if slots[k] == c then x else sel.Get(slots[k])[0], slots[k]));
    assert Categories(look) == slots;
    assert FromSelection(sel, look);
    CombinationsMembers(sel, look);
    var k :| 0 <= k < |slots| && slots[k] == c;
    assert look[k] == TryOnItem(x, c);
    var i :| 0 <= i < |Combinations(sel)| && Combinations(sel)[i] == look;
  }

  /** Stated on the selection alone: every selected item appears, under its
      category, in some look, except tops and bottoms while an outfit is
      selected. */
  lemma SelectedItemIsUsed(sel: Selection, c: Category, x: FilterItem)
    requires x in sel.Get(c) && (sel.outfits != [] ==> c != Tops && c != Bottoms)
    ensures exists i :: 0 <= i < |Combinations(sel)| && TryOnItem(x, c) in Combinations(sel)[i]
  {
    LookSlotMembers(sel, c);
    EverySlotItemIsUsed(sel, c, x);
  }

  /** A placeholder inside some look is a selected item of a look slot. */
  lemma PlaceholderComesFromSlot(sel: Selection)
    requires HasPlaceholder(Flatten(Combinations(sel)))
    ensures exists c, x :: c in LookSlots(sel) && x in sel.Get(c) && IsPlaceholder(x)
  {
    var looks := Combinations(sel);
    var flat := Flatten(looks);
    var j :| 0 <= j < |flat| && IsPlaceholder(flat[j].item);
    var y := flat[j];
    assert y in flat;
    var i :| 0 <= i < |looks| && y in looks[i];
    var look := looks[i];
    CombinationsMembers(sel, look);
    var k :| 0 <= k < |look| && look[k] == y;
    assert Categories(look)[k] == y.category;
    assert y.category in LookSlots(sel) && y.item in sel.Get(y.category);
  }

  /** A placeholder selected in a look slot ends up inside some look. */
  lemma SlotPlaceholderIsUsed(sel: Selection, c: Category, x: FilterItem)
    requires c in LookSlots(sel) && x in sel.Get(c) && IsPlaceholder(x)
    ensures HasPlaceholder(Flatten(Combinations(sel)))
  {
    var looks := Combinations(sel);
    EverySlotItemIsUsed(sel, c, x);
    var i :| 0 <= i < |looks| && TryOnItem(x, c) in looks[i];
    var flat := Flatten(looks);
    assert TryOnItem(x, c) in flat;
    var j :| 0 <= j < |flat| && flat[j] == TryOnItem(x, c);
    assert IsPlaceholder(flat[j].item);
  }

  /** The placeholder check rejects exactly when some selected item of a
      category the looks use is a placeholder. */
  lemma PlaceholderIffSelected(sel: Selection)
    ensures HasPlaceholder(Flatten(Combinations(sel))) <==>
      exists c, x :: c in LookSlots(sel) && x in sel.Get(c) && IsPlaceholder(x)
  {
    if HasPlaceholder(Flatten(Combinations(sel))) {
      PlaceholderComesFromSlot(sel);
    }
    if exists c, x :: c in LookSlots(sel) && x in sel.Get(c) && IsPlaceholder(x) {
      var c, x :| c in LookSlots(sel) && x in sel.Get(c) && IsPlaceholder(x);
      SlotPlaceholderIsUsed(sel, c, x);
    }
  }

  /** The outcome of pressing "apply": no photo is reported first, then an
      empty selection, then a placeholder among the items the looks use;
      otherwise every look of the selection is generated, and none of them
      holds a placeholder. */
  lemma ApplyFilterOutcome(photo: Option<UploadedImage>, sel: Selection)
    ensures photo.None? ==> ApplyFilter(photo, sel) == Rejected(NoPhotoMessage)
    ensures photo.Some? ==> (ApplyFilter(photo, sel) == Rejected(NoItemsMessage) <==> sel == EmptySelection)
    ensures photo.Some? && sel != EmptySelection ==>
      (ApplyFilter(photo, sel) == Rejected(PlaceholderMessage) <==>
        exists c, x :: c in LookSlots(sel) && x in sel.Get(c) && IsPlaceholder(x))
    ensures ApplyFilter(photo, sel).Generate? ==>
      && photo.Some? && sel != EmptySelection
      && ApplyFilter(photo, sel).looks == Combinations(sel)
      && forall i, x: TryOnItem :: 0 <= i < |Combinations(sel)| && x in Combinations(sel)[i] ==> !IsPlaceholder(x.item)
  {
    NoLooksIffNothingSelected(sel);
    PlaceholderIffSelected(sel);
    var looks := Combinations(sel);
    if ApplyFilter(photo, sel).Generate? {
      forall i, x: TryOnItem | 0 <= i < |looks| && x in looks[i] ensures !IsPlaceholder(x.item) {
        var flat := Flatten(looks);
        assert x in flat;
        var j :| 0 <= j < |flat| && flat[j] == x;
      }
    }
  }

  /** As written, a photo with nothing selected passes every check and one
      empty look would go to generation, had the handler been called: the
      "Try It On" button that calls it is disabled for an empty selection
      (see `ButtonHidesEmptyLook`), so this is a dead branch, not a run. */
  lemma AsWrittenGeneratesEmptyLook(p: UploadedImage)
    ensures ApplyFilterAsWritten(Some(p), EmptySelection) == Generate([[]])
  {
    AsWrittenEmptyLook(EmptySelection);
    assert Flatten([[]]) == [];
  }

  /** `Object.values(selectedItems).flat()`: every selected item, category
      after category. */
  function SelectedItems(sel: Selection): (items: seq<FilterItem>)
    ensures items == [] <==> sel == EmptySelection
    ensures forall c, x :: x in sel.Get(c) ==> x in items
  {
    sel.outfits + sel.tops + sel.bottoms + sel.footwear + sel.headwear + sel.accessories
  }

  /** The "Try It On" button is enabled when nothing is loading, a photo is
      chosen and at least one item is selected. */
  predicate ApplyEnabled(loading: bool, photo: Option<UploadedImage>, sel: Selection)
  {
    !loading && photo.Some? && |SelectedItems(sel)| != 0
  }

  /** Whenever the button lets the handler run, the handler as written and
      the corrected one give the same outcome: the empty look never reaches
      generation through the user interface. */
  lemma ButtonHidesEmptyLook(loading: bool, photo: Option<UploadedImage>, sel: Selection)
    requires ApplyEnabled(loading, photo, sel)
    ensures ApplyFilterAsWritten(photo, sel) == ApplyFilter(photo, sel)
    ensures ApplyFilter(photo, sel) != Rejected(NoItemsMessage)
  {
    AsWrittenEmptyLook(sel);
    NoLooksIffNothingSelected(sel);
  }

  // ---------------------------------------------------------------------------
  // Display name of an uploaded garment
  // ---------------------------------------------------------------------------

  const DefaultItemName: string := "Style Item"

  /** `arr.slice(0, -1)`: everything but the last element. */
  function DropLast(parts: seq<string>): (r: seq<string>)
  {
    if parts == [] then [] else parts[..|parts| - 1]
  }

  /** The file name without its last extension, or the default name when
      that leaves nothing. */
  function StyleItemName(fileName: string): string
  {
    var stem := Join(DropLast(Split(fileName, '.')), '.');
    if stem == "" then DefaultItemName else stem
  }

  /** A file name with no dot at all gets the default name. */
  lemma NameWithoutExtension(fileName: string)
    requires '.' !in fileName
    ensures StyleItemName(fileName) == DefaultItemName
  {
    SplitWithoutSep(fileName, '.');
  }

  /** Only the last extension is dropped: everything before the last dot,
      dots included, is kept, and an empty stem gives the default name. */
  lemma NameDropsLastExtension(stem: string, ext: string)
    requires '.' !in ext
    ensures StyleItemName(stem + "." + ext) == if stem == "" then DefaultItemName else stem
  {
    SplitAround(stem, ext, '.');
    SplitWithoutSep(ext, '.');
    var parts := Split(stem, '.') + [ext];
    assert DropLast(parts) == Split(stem, '.');
    JoinSplit(stem, '.');
  }

  /** The name is never empty. */
  lemma NameIsNeverEmpty(fileName: string)
    ensures StyleItemName(fileName) != ""
  {
  }
}
