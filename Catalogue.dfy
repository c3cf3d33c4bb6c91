/** The catalogue's click handler: toggling an item in or out of the
    selection while keeping outfits and tops/bottoms mutually exclusive. */
module Catalogue {
  import opened Types

  /** `items.some(i => i.id === id)`. */
  function HasId(items: seq<FilterItem>, id: string): (b: bool)
    ensures b <==> exists i :: 0 <= i < |items| && items[i].id == id
    decreases |items|
  {
    if items == [] then false else items[0].id == id || HasId(items[1..], id)
  }

  /** `items.filter(i => i.id !== id)`. */
  function WithoutId(items: seq<FilterItem>, id: string): (r: seq<FilterItem>)
    ensures forall x :: x in r <==> x in items && x.id != id
    ensures !HasId(r, id)
    decreases |items|
  {
    if items == [] then []
    else if items[0].id == id then WithoutId(items[1..], id)
    else [items[0]] + WithoutId(items[1..], id)
  }

  /** Filtering out an id that is absent leaves the list as it was. */
  lemma {:induction false} WithoutAbsentId(items: seq<FilterItem>, id: string)
    requires !HasId(items, id)
    ensures WithoutId(items, id) == items
    decreases |items|
  {
    if items != [] {
      WithoutAbsentId(items[1..], id);
      assert items == [items[0]] + items[1..];
    }
  }

  /** Filtering distributes over concatenation. */
  lemma {:induction false} WithoutIdAppend(a: seq<FilterItem>, b: seq<FilterItem>, id: string)
    ensures WithoutId(a + b, id) == WithoutId(a, id) + WithoutId(b, id)
    decreases |a|
  {
    if a == [] {
      assert a + b == b;
    } else {
      assert (a + b)[0] == a[0] && (a + b)[1..] == a[1..] + b;
      WithoutIdAppend(a[1..], b, id);
    }
  }

  /** The selection after clicking `item` in `category`: a selected id is
      removed, anything else is appended, and appending an outfit clears tops
      and bottoms while appending a top or a bottom clears outfits. */
  function Toggle(s: Selection, item: FilterItem, category: Category): Selection
  {
    var items := s.Get(category);
    if HasId(items, item.id) then s.Set(category, WithoutId(items, item.id))
    else
      var added := s.Set(category, items + [item]);
      match category
      case Outfits => added.(tops := [], bottoms := [])
      case Tops => added.(outfits := [])
      case Bottoms => added.(outfits := [])
      case _ => added
  }

  /** Outfits and separates are never selected together. */
  predicate Exclusive(s: Selection)
  {
    !(s.outfits != [] && (s.tops != [] || s.bottoms != []))
  }

  /** Whether `category` is a base slot whose selection clears the other base. */
  predicate IsBase(category: Category)
  {
    category == Outfits || category == Tops || category == Bottoms
  }

  /** Clicking a selected item removes every entry with its id from its
      category and changes nothing else. */
  lemma ToggleRemoves(s: Selection, item: FilterItem, category: Category)
    requires HasId(s.Get(category), item.id)
    ensures var t := Toggle(s, item, category);
      && (forall x :: x in t.Get(category) <==> x in s.Get(category) && x.id != item.id)
      && (forall c :: c != category ==> t.Get(c) == s.Get(c))
  {
  }

  /** Clicking an unselected item appends it at the end of its category. */
  lemma ToggleAppends(s: Selection, item: FilterItem, category: Category)
    requires !HasId(s.Get(category), item.id)
    ensures Toggle(s, item, category).Get(category) == s.Get(category) + [item]
  {
  }

  /** Selecting an outfit empties tops and bottoms. */
  lemma SelectOutfitClearsSeparates(s: Selection, item: FilterItem)
    requires !HasId(s.outfits, item.id)
    ensures var t := Toggle(s, item, Outfits);
      t.tops == [] && t.bottoms == [] && t.footwear == s.footwear
      && t.headwear == s.headwear && t.accessories == s.accessories
  {
  }

  /** Selecting a top or a bottom empties outfits and leaves the other
      separate alone. */
  lemma SelectSeparateClearsOutfits(s: Selection, item: FilterItem, category: Category)
    requires category == Tops || category == Bottoms
    requires !HasId(s.Get(category), item.id)
    ensures var t := Toggle(s, item, category);
      t.outfits == [] && forall c :: c != category && c != Outfits ==> t.Get(c) == s.Get(c)
  {
  }

  /** Footwear, headwear and accessories clicks change only their own category. */
  lemma AccessoryToggleIsLocal(s: Selection, item: FilterItem, category: Category)
    requires !IsBase(category)
    ensures forall c :: c != category ==> Toggle(s, item, category).Get(c) == s.Get(c)
  {
  }

  /** Every click keeps outfits and separates mutually exclusive, and any
      selection of a base item restores exclusivity even from a state that
      lacked it. */
  lemma ToggleKeepsExclusive(s: Selection, item: FilterItem, category: Category)
    ensures Exclusive(s) ==> Exclusive(Toggle(s, item, category))
    ensures IsBase(category) && !HasId(s.Get(category), item.id) ==> Exclusive(Toggle(s, item, category))
  {
  }

  /** Selecting a new item and clicking it again restores the selection,
      provided the first click cleared nothing: always for footwear, headwear
      and accessories, and for a base category when the other base was empty. */
  lemma ToggleTwiceRestores(s: Selection, item: FilterItem, category: Category)
    requires !HasId(s.Get(category), item.id)
    requires category == Outfits ==> s.tops == [] && s.bottoms == []
    requires category == Tops || category == Bottoms ==> s.outfits == []
    ensures Toggle(Toggle(s, item, category), item, category) == s
  {
    var items := s.Get(category);
    var t := Toggle(s, item, category);
    assert t.Get(category) == items + [item];
    assert HasId(items + [item], item.id) by {
      assert (items + [item])[|items|].id == item.id;
    }
    WithoutIdAppend(items, [item], item.id);
    WithoutAbsentId(items, item.id);
    assert WithoutId([item], item.id) == [];
    assert t.Set(category, items) == s;
  }

  /** `handleSelectItem`: copy every category of the previous selection into
      a fresh record, then update the copy in place. */
  method SelectItem(prev: Selection, item: FilterItem, category: Category) returns (next: Selection)
    ensures next == Toggle(prev, item, category)
  {
    var newSelected: map<Category, seq<FilterItem>> := map[];
    for k := 0 to |AllCategories|
      invariant forall j :: 0 <= j < k ==> AllCategories[j] in newSelected
      invariant forall c :: c in newSelected ==> newSelected[c] == prev.Get(c)
    {
      newSelected := newSelected[AllCategories[k] := prev.Get(AllCategories[k])];
    }
    assert forall c :: c in newSelected by {
      forall c ensures c in newSelected {
        AllCategoriesComplete(c);
      }
    }

    var categoryItems := newSelected[category];
    var isSelected := HasId(categoryItems, item.id);
    if isSelected {
      newSelected := newSelected[category := WithoutId(categoryItems, item.id)];
    } else {
      newSelected := newSelected[category := newSelected[category] + [item]];
      if category == Outfits {
        newSelected := newSelected[Tops := []];
        newSelected := newSelected[Bottoms := []];
      } else if category == Tops || category == Bottoms {
        newSelected := newSelected[Outfits := []];
      }
    }
    next := Selection(newSelected[Outfits], newSelected[Tops], newSelected[Bottoms],
                      newSelected[Footwear], newSelected[Headwear], newSelected[Accessories]);
  }
}
