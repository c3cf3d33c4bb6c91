/** The outfit combinator of the try-on screen: from the six-slot selection,
    every look to submit for generation, in submission order. */
module Combinator {
  import opened Types

  // ---------------------------------------------------------------------------
  // The generic `cartesian` helper
  // ---------------------------------------------------------------------------

  /** `b` extended by each of `cs`, in the order of `cs`. */
  function Row<T>(b: seq<T>, cs: seq<seq<T>>): seq<seq<T>>
  {
    seq(|cs|, k requires 0 <= k < |cs| => b + cs[k])
  }

  /** Each of `bs` (outer loop) extended by each of `cs` (inner loop). */
  function Cross<T>(bs: seq<seq<T>>, cs: seq<seq<T>>): (r: seq<seq<T>>)
    ensures |r| == |bs| * |cs|
    decreases |bs|
  {
    if bs == [] then [] else Cross(bs[..|bs| - 1], cs) + Row(bs[|bs| - 1], cs)
  }

  /** Each element of `v` as a one-element combination. */
  function Singletons<T>(v: seq<T>): seq<seq<T>>
  {
    seq(|v|, j requires 0 <= j < |v| => [v[j]])
  }

  /** The factors that have at least one element, in their original order. */
  function NonEmpty<T>(fs: seq<seq<T>>): (r: seq<seq<T>>)
    ensures |r| <= |fs|
    ensures forall i :: 0 <= i < |r| ==> r[i] != []
    decreases |fs|
  {
    if fs == [] then []
    else NonEmpty(fs[..|fs| - 1]) + (if fs[|fs| - 1] == [] then [] else [fs[|fs| - 1]])
  }

  /** The left fold of the helper's `reduce`: starting from one empty
      combination, each factor extends every combination so far by each of
      its elements. */
  function Product<T>(gs: seq<seq<T>>): seq<seq<T>>
    decreases |gs|
  {
    if gs == [] then [[]] else Cross(Product(gs[..|gs| - 1]), Singletons(gs[|gs| - 1]))
  }

  /** `cartesian(...arrays)`: empty factors are dropped before the product
      is taken, and no non-empty factor gives one empty combination. */
  function Cartesian<T>(fs: seq<seq<T>>): seq<seq<T>>
  {
    var nonEmptyArrays := NonEmpty(fs);
    if nonEmptyArrays == [] then [[]] else Product(nonEmptyArrays)
  }

  /** The product of the sizes of the non-empty factors (1 when there are none). */
  function ChoiceCount<T>(fs: seq<seq<T>>): (n: nat)
    ensures n >= 1
    decreases |fs|
  {
    if fs == [] then 1
    else ChoiceCount(fs[..|fs| - 1]) * (if fs[|fs| - 1] == [] then 1 else |fs[|fs| - 1]|)
  }

  // ---------------------------------------------------------------------------
  // Properties of the helper
  // ---------------------------------------------------------------------------

  /** Nested-loop order: entry `i * |cs| + j` of the cross product is the
      `i`-th outer element followed by the `j`-th inner one. */
  lemma {:induction false} CrossAt<T>(bs: seq<seq<T>>, cs: seq<seq<T>>, i: nat, j: nat)
    requires i < |bs| && j < |cs|
    ensures i * |cs| + j < |Cross(bs, cs)|
    ensures Cross(bs, cs)[i * |cs| + j] == bs[i] + cs[j]
    decreases |bs|
  {
    var n := |bs| - 1;
    var pre := bs[..n];
    assert Cross(bs, cs) == Cross(pre, cs) + Row(bs[n], cs);
    assert |Cross(pre, cs)| == n * |cs|;
    if i < n {
      CrossAt(pre, cs, i, j);
      assert pre[i] == bs[i];
    } else {
      assert i * |cs| + j == n * |cs| + j;
    }
  }

  /** A combination is in the cross product iff it is some outer element
      followed by some inner element. */
  lemma {:induction false} CrossMembers<T>(bs: seq<seq<T>>, cs: seq<seq<T>>, x: seq<T>)
    ensures x in Cross(bs, cs) <==>
      exists i, j :: 0 <= i < |bs| && 0 <= j < |cs| && x == bs[i] + cs[j]
    decreases |bs|
  {
    if bs != [] {
      var n := |bs| - 1;
      var pre := bs[..n];
      CrossMembers(pre, cs, x);
      assert Cross(bs, cs) == Cross(pre, cs) + Row(bs[n], cs);
      if x in Cross(bs, cs) {
        if x !in Cross(pre, cs) {
          var k :| 0 <= k < |cs| && Row(bs[n], cs)[k] == x;
          assert x == bs[n] + cs[k];
        } else {
          var i, j :| 0 <= i < |pre| && 0 <= j < |cs| && x == pre[i] + cs[j];
          assert x == bs[i] + cs[j];
        }
      }
      if exists i, j :: 0 <= i < |bs| && 0 <= j < |cs| && x == bs[i] + cs[j] {
        var i, j :| 0 <= i < |bs| && 0 <= j < |cs| && x == bs[i] + cs[j];
        if i < n {
          assert x == pre[i] + cs[j];
        } else {
          assert Row(bs[n], cs)[j] == x;
        }
      }
    }
  }

  lemma CrossUnitLeft<T>(cs: seq<seq<T>>)
    ensures Cross([[]], cs) == cs
  {
    var one: seq<seq<T>> := [[]];
    assert one[..0] == [];
    assert Cross(one, cs) == Cross([], cs) + Row([], cs);
    forall k | 0 <= k < |cs| ensures Row([], cs)[k] == cs[k] {
      assert [] + cs[k] == cs[k];
    }
  }

  lemma {:induction false} CrossUnitRight<T>(bs: seq<seq<T>>)
    ensures Cross(bs, [[]]) == bs
    decreases |bs|
  {
    if bs != [] {
      var n := |bs| - 1;
      CrossUnitRight(bs[..n]);
      var one: seq<seq<T>> := [[]];
      assert bs[n] + one[0] == bs[n];
      assert Row(bs[n], one) == [bs[n]];
      assert bs == bs[..n] + [bs[n]];
    }
  }

  lemma {:induction false} CrossSplitsLeft<T>(u: seq<seq<T>>, v: seq<seq<T>>, cs: seq<seq<T>>)
    ensures Cross(u + v, cs) == Cross(u, cs) + Cross(v, cs)
    decreases |v|
  {
    if v == [] {
      assert u + v == u;
    } else {
      var n := |v| - 1;
      assert (u + v)[..|u + v| - 1] == u + v[..n];
      assert (u + v)[|u + v| - 1] == v[n];
      CrossSplitsLeft(u, v[..n], cs);
    }
  }

  lemma RowSplits<T>(x: seq<T>, u: seq<seq<T>>, v: seq<seq<T>>)
    ensures Row(x, u + v) == Row(x, u) + Row(x, v)
  {
  }

  lemma RowRow<T>(x: seq<T>, y: seq<T>, cs: seq<seq<T>>)
    ensures Row(x, Row(y, cs)) == Row(x + y, cs)
  {
    forall k | 0 <= k < |cs| ensures Row(x, Row(y, cs))[k] == Row(x + y, cs)[k] {
      assert x + (y + cs[k]) == (x + y) + cs[k];
    }
  }

  lemma {:induction false} CrossOfRow<T>(x: seq<T>, bs: seq<seq<T>>, cs: seq<seq<T>>)
    ensures Cross(Row(x, bs), cs) == Row(x, Cross(bs, cs))
    decreases |bs|
  {
    if bs == [] {
      assert Row(x, bs) == [];
    } else {
      var n := |bs| - 1;
      var pre := bs[..n];
      assert Row(x, bs) == Row(x, pre) + [x + bs[n]];
      CrossSplitsLeft(Row(x, pre), [x + bs[n]], cs);
      CrossOfRow(x, pre, cs);
      assert Cross([x + bs[n]], cs) == Row(x + bs[n], cs) by {
        assert Cross([x + bs[n]], cs) == Cross([], cs) + Row(x + bs[n], cs);
      }
      RowRow(x, bs[n], cs);
      RowSplits(x, Cross(pre, cs), Row(bs[n], cs));
    }
  }

  /** Crossing is associative, so a product can be split anywhere. */
  lemma {:induction false} CrossAssoc<T>(a: seq<seq<T>>, b: seq<seq<T>>, c: seq<seq<T>>)
    ensures Cross(Cross(a, b), c) == Cross(a, Cross(b, c))
    decreases |a|
  {
    if a != [] {
      var n := |a| - 1;
      var pre := a[..n];
      CrossAssoc(pre, b, c);
      CrossSplitsLeft(Cross(pre, b), Row(a[n], b), c);
      CrossOfRow(a[n], b, c);
    }
  }

  lemma {:induction false} ProductAppend<T>(g: seq<seq<T>>, h: seq<seq<T>>)
    ensures Product(g + h) == Cross(Product(g), Product(h))
    decreases |h|
  {
    if h == [] {
      assert g + h == g;
      CrossUnitRight(Product(g));
    } else {
      var n := |h| - 1;
      assert (g + h)[..|g + h| - 1] == g + h[..n];
      assert (g + h)[|g + h| - 1] == h[n];
      ProductAppend(g, h[..n]);
      CrossAssoc(Product(g), Product(h[..n]), Singletons(h[n]));
    }
  }

  lemma {:induction false} NonEmptyAppend<T>(a: seq<seq<T>>, b: seq<seq<T>>)
    ensures NonEmpty(a + b) == NonEmpty(a) + NonEmpty(b)
    decreases |b|
  {
    if b == [] {
      assert a + b == a;
    } else {
      var n := |b| - 1;
      assert (a + b)[..|a + b| - 1] == a + b[..n];
      assert (a + b)[|a + b| - 1] == b[n];
      NonEmptyAppend(a, b[..n]);
    }
  }

  /** The filter keeps exactly the non-empty factors: every kept factor is
      one of the inputs, and every non-empty input is kept. */
  lemma {:induction false} NonEmptyMembers<T>(fs: seq<seq<T>>)
    ensures forall i :: 0 <= i < |NonEmpty(fs)| ==> NonEmpty(fs)[i] in fs
    ensures forall i :: 0 <= i < |fs| && fs[i] != [] ==> fs[i] in NonEmpty(fs)
    decreases |fs|
  {
    if fs != [] {
      var n := |fs| - 1;
      NonEmptyMembers(fs[..n]);
      assert fs == fs[..n] + [fs[n]];
      forall i | 0 <= i < |fs| && fs[i] != [] ensures fs[i] in NonEmpty(fs) {
        if i < n {
          assert fs[..n][i] == fs[i];
        }
      }
    }
  }

  /** Without an empty factor the filter keeps every factor in place. */
  lemma {:induction false} NonEmptyKeepsAll<T>(fs: seq<seq<T>>)
    requires forall i :: 0 <= i < |fs| ==> fs[i] != []
    ensures NonEmpty(fs) == fs
    decreases |fs|
  {
    if fs != [] {
      var n := |fs| - 1;
      NonEmptyKeepsAll(fs[..n]);
      assert fs == fs[..n] + [fs[n]];
    }
  }

  /** The product of two factor lists placed side by side is the cross
      product of their products: the left list varies slowest. */
  lemma CartesianAppend<T>(a: seq<seq<T>>, b: seq<seq<T>>)
    ensures Cartesian(a + b) == Cross(Cartesian(a), Cartesian(b))
  {
    NonEmptyAppend(a, b);
    ProductAppend(NonEmpty(a), NonEmpty(b));
  }

  /** A single non-empty factor gives one single-element combination per element. */
  lemma CartesianSingle<T>(f: seq<T>)
    requires f != []
    ensures Cartesian([f]) == Singletons(f)
  {
    var fs := [f];
    assert fs[..0] == [];
    assert NonEmpty(fs) == NonEmpty(fs[..0]) + [f];
    assert Product(fs) == Cross(Product(fs[..0]), Singletons(f));
    CrossUnitLeft(Singletons(f));
  }

  /** Rightmost factor fastest: a non-empty factor added at the end extends
      each earlier combination by each of its elements in turn. */
  lemma CartesianAppendOne<T>(fs: seq<seq<T>>, f: seq<T>)
    requires f != []
    ensures Cartesian(fs + [f]) == Cross(Cartesian(fs), Singletons(f))
  {
    CartesianAppend(fs, [f]);
    CartesianSingle(f);
  }

  /** Entry `i * |f| + j` of a cross product with the singletons of `f`. */
  lemma CrossSingletonsAt<T>(C: seq<seq<T>>, D: seq<seq<T>>, f: seq<T>, i: nat, j: nat)
    requires i < |C| && j < |f|
    requires D == Cross(C, Singletons(f))
    ensures i * |f| + j < |D| && D[i * |f| + j] == C[i] + [f[j]]
  {
    var S := Singletons(f);
    CrossAt(C, S, i, j);
    assert S[j] == [f[j]];
  }

  /** Every combination of a product picks one element from each factor,
      in factor order. */
  lemma {:induction false} ProductSound<T>(gs: seq<seq<T>>, c: seq<T>)
    requires c in Product(gs)
    ensures |c| == |gs| && forall i :: 0 <= i < |gs| ==> c[i] in gs[i]
    decreases |gs|
  {
    if gs != [] {
      var n := |gs| - 1;
      var pre, g := gs[..n], gs[n];
      var P, S := Product(pre), Singletons(g);
      assert Product(gs) == Cross(P, S);
      CrossMembers(P, S, c);
      var i, j :| 0 <= i < |P| && 0 <= j < |S| && c == P[i] + S[j];
      ProductSound(pre, P[i]);
      assert c == P[i] + [g[j]];
      forall k | 0 <= k < |gs| ensures c[k] in gs[k] {
        if k < n {
          assert c[k] == P[i][k] && pre[k] == gs[k];
        }
      }
    }
  }

  /** Every choice of one element per factor, in factor order, is a
      combination of the product. */
  lemma {:induction false} ProductComplete<T>(gs: seq<seq<T>>, c: seq<T>)
    requires |c| == |gs| && forall i :: 0 <= i < |gs| ==> c[i] in gs[i]
    ensures c in Product(gs)
    decreases |gs|
  {
    if gs == [] {
      assert c == [];
    } else {
      var n := |gs| - 1;
      var pre, g := gs[..n], gs[n];
      var P, S := Product(pre), Singletons(g);
      var d := c[..n];
      forall k | 0 <= k < n ensures d[k] in pre[k] {
        assert d[k] == c[k] && pre[k] == gs[k];
      }
      ProductComplete(pre, d);
      var i :| 0 <= i < |P| && P[i] == d;
      var j :| 0 <= j < |g| && g[j] == c[n];
      assert c == P[i] + S[j];
      assert Product(gs) == Cross(P, S);
      CrossMembers(P, S, c);
    }
  }

  /** A combination belongs to a product iff it picks one element from each
      factor, in factor order. */
  lemma ProductMembers<T>(gs: seq<seq<T>>, c: seq<T>)
    ensures c in Product(gs) <==> |c| == |gs| && forall i :: 0 <= i < |gs| ==> c[i] in gs[i]
  {
    if c in Product(gs) {
      ProductSound(gs, c);
    }
    if |c| == |gs| && forall i :: 0 <= i < |gs| ==> c[i] in gs[i] {
      ProductComplete(gs, c);
    }
  }

  lemma {:induction false} ProductLength<T>(gs: seq<seq<T>>)
    requires forall i :: 0 <= i < |gs| ==> gs[i] != []
    ensures |Product(gs)| == ChoiceCount(gs)
    decreases |gs|
  {
    if gs != [] {
      ProductLength(gs[..|gs| - 1]);
    }
  }

  /** The helper returns as many combinations as the product of the sizes
      of the non-empty factors; an empty factor never empties the result. */
  lemma {:induction false} CartesianLength<T>(fs: seq<seq<T>>)
    ensures |Cartesian(fs)| == ChoiceCount(fs)
    decreases |fs|
  {
    if fs != [] {
      var n := |fs| - 1;
      var pre := fs[..n];
      CartesianLength(pre);
      ProductLength(NonEmpty(pre));
      var ne := NonEmpty(fs);
      if fs[n] != [] {
        assert ne == NonEmpty(pre) + [fs[n]];
        assert ne[..|ne| - 1] == NonEmpty(pre);
        ProductLength(ne);
      } else {
        assert ne == NonEmpty(pre);
      }
    }
  }

  // ---------------------------------------------------------------------------
  // Slots of a look
  // ---------------------------------------------------------------------------

  /** `toTryOnItem` over a category's list: each item tagged with `c`. */
  function Tag(xs: seq<FilterItem>, c: Category): seq<TryOnItem>
  {
    seq(|xs|, i requires 0 <= i < |xs| => TryOnItem(xs[i], c))
  }

  lemma TagMembers(xs: seq<FilterItem>, c: Category, x: TryOnItem)
    ensures x in Tag(xs, c) <==> x.category == c && x.item in xs
  {
    if x.category == c && x.item in xs {
      var i :| 0 <= i < |xs| && xs[i] == x.item;
      assert Tag(xs, c)[i] == x;
    }
  }

  /** The tagged selections of the categories `cats`, as product factors. */
  function SlotFactors(sel: Selection, cats: seq<Category>): (fs: seq<seq<TryOnItem>>)
    ensures |fs| == |cats|
  {
    seq(|cats|, i requires 0 <= i < |cats| => Tag(sel.Get(cats[i]), cats[i]))
  }

  /** The categories of `cats` with at least one selected item, in order. */
  function Filled(sel: Selection, cats: seq<Category>): seq<Category>
    decreases |cats|
  {
    if cats == [] then []
    else
      var c := cats[|cats| - 1];
      Filled(sel, cats[..|cats| - 1]) + (if sel.Get(c) == [] then [] else [c])
  }

  /** The slot categories of a look, in order. */
  function Categories(look: seq<TryOnItem>): (cs: seq<Category>)
    ensures |cs| == |look|
  {
    seq(|look|, i requires 0 <= i < |look| => look[i].category)
  }

  /** Every item of a look comes from the selection of the category it is tagged with. */
  ghost predicate FromSelection(sel: Selection, look: seq<TryOnItem>)
  {
    forall i :: 0 <= i < |look| ==> look[i].item in sel.Get(look[i].category)
  }

  const AccessorySlots: seq<Category> := [Footwear, Headwear, Accessories]

  /** The base categories in force: a selected outfit stands alone, otherwise
      a look is built from a top and a bottom. */
  function BaseSlots(sel: Selection): seq<Category>
  {
    if sel.outfits != [] then [Outfits] else [Tops, Bottoms]
  }

  /** The categories every look of `sel` fills, one item each, in look order. */
  function LookSlots(sel: Selection): seq<Category>
  {
    Filled(sel, BaseSlots(sel) + AccessorySlots)
  }

  lemma SlotFactorsAppend(sel: Selection, a: seq<Category>, b: seq<Category>)
    ensures SlotFactors(sel, a + b) == SlotFactors(sel, a) + SlotFactors(sel, b)
  {
  }

  lemma {:induction false} FilledAppend(sel: Selection, a: seq<Category>, b: seq<Category>)
    ensures Filled(sel, a + b) == Filled(sel, a) + Filled(sel, b)
    decreases |b|
  {
    if b == [] {
      assert a + b == a;
    } else {
      var n := |b| - 1;
      assert (a + b)[..|a + b| - 1] == a + b[..n];
      assert (a + b)[|a + b| - 1] == b[n];
      FilledAppend(sel, a, b[..n]);
    }
  }

  lemma {:induction false} FilledEmpty(sel: Selection, cats: seq<Category>)
    ensures Filled(sel, cats) == [] <==> forall i :: 0 <= i < |cats| ==> sel.Get(cats[i]) == []
    decreases |cats|
  {
    if cats != [] {
      var n := |cats| - 1;
      var pre, c := cats[..n], cats[n];
      FilledEmpty(sel, pre);
      assert Filled(sel, cats) == Filled(sel, pre) + (if sel.Get(c) == [] then [] else [c]);
      if forall i :: 0 <= i < |cats| ==> sel.Get(cats[i]) == [] {
        assert sel.Get(c) == [];
        forall i | 0 <= i < n ensures sel.Get(pre[i]) == [] {
          assert pre[i] == cats[i];
        }
      }
      if Filled(sel, cats) == [] {
        forall i | 0 <= i < |cats| ensures sel.Get(cats[i]) == [] {
          if i < n {
            assert pre[i] == cats[i];
          }
        }
      }
    }
  }

  /** Every category at position `k` of a filled-slot list has a selected item. */
  lemma {:induction false} FilledAreSelectedAt(sel: Selection, cats: seq<Category>, k: nat)
    requires k < |Filled(sel, cats)|
    ensures sel.Get(Filled(sel, cats)[k]) != []
    decreases |cats|
  {
    var n := |cats| - 1;
    var pre, c := cats[..n], cats[n];
    assert Filled(sel, cats) == Filled(sel, pre) + (if sel.Get(c) == [] then [] else [c]);
    if k < |Filled(sel, pre)| {
      FilledAreSelectedAt(sel, pre, k);
    }
  }

  /** Categories listed in strictly increasing look order. */
  predicate RankIncreasing(cats: seq<Category>)
  {
    forall i, j :: 0 <= i < j < |cats| ==> Rank(cats[i]) < Rank(cats[j])
  }

  /** The filled categories are drawn from `cats` and keep its look order. */
  lemma {:induction false} FilledKeepsOrder(sel: Selection, cats: seq<Category>)
    requires RankIncreasing(cats)
    ensures forall k :: 0 <= k < |Filled(sel, cats)| ==> Filled(sel, cats)[k] in cats
    ensures RankIncreasing(Filled(sel, cats))
    decreases |cats|
  {
    if cats != [] {
      var n := |cats| - 1;
      var pre, c := cats[..n], cats[n];
      assert RankIncreasing(pre) by {
        forall i, j | 0 <= i < j < |pre| ensures Rank(pre[i]) < Rank(pre[j]) {
          assert pre[i] == cats[i] && pre[j] == cats[j];
        }
      }
      FilledKeepsOrder(sel, pre);
      var F := Filled(sel, pre);
      assert Filled(sel, cats) == F + (if sel.Get(c) == [] then [] else [c]);
      forall k | 0 <= k < |F| ensures F[k] in cats && Rank(F[k]) < Rank(c) {
        var m :| 0 <= m < |pre| && pre[m] == F[k];
        assert cats[m] == F[k];
      }
    }
  }

  /** Every selected category of `cats` is kept among the filled ones. */
  lemma {:induction false} FilledKeepsSelected(sel: Selection, cats: seq<Category>)
    ensures forall k :: 0 <= k < |cats| && sel.Get(cats[k]) != [] ==> cats[k] in Filled(sel, cats)
    decreases |cats|
  {
    if cats != [] {
      var n := |cats| - 1;
      var pre, c := cats[..n], cats[n];
      FilledKeepsSelected(sel, pre);
      assert Filled(sel, cats) == Filled(sel, pre) + (if sel.Get(c) == [] then [] else [c]);
      forall k | 0 <= k < |cats| && sel.Get(cats[k]) != [] ensures cats[k] in Filled(sel, cats) {
        if k < n {
          assert pre[k] == cats[k];
        }
      }
    }
  }

  /** The slots of a look come in strictly increasing look order. */
  lemma LookSlotsIncrease(sel: Selection)
    ensures RankIncreasing(LookSlots(sel))
  {
    var cats := BaseSlots(sel) + AccessorySlots;
    if sel.outfits != [] {
      assert cats == [Outfits, Footwear, Headwear, Accessories];
    } else {
      assert cats == [Tops, Bottoms, Footwear, Headwear, Accessories];
    }
    FilledKeepsOrder(sel, cats);
  }

  /** A look slot has something selected, and is not tops or bottoms while
      an outfit is selected. */
  lemma LookSlotIsSelected(sel: Selection, c: Category)
    requires c in LookSlots(sel)
    ensures sel.Get(c) != [] && (sel.outfits != [] ==> c != Tops && c != Bottoms)
  {
    var cats := BaseSlots(sel) + AccessorySlots;
    var k :| 0 <= k < |LookSlots(sel)| && LookSlots(sel)[k] == c;
    FilledAreSelectedAt(sel, cats, k);
    if sel.outfits != [] {
      assert cats == [Outfits, Footwear, Headwear, Accessories];
      FilledKeepsOrder(sel, cats);
    }
  }

  /** A selected category is a look slot, unless it is tops or bottoms while
      an outfit is selected. */
  lemma SelectedIsLookSlot(sel: Selection, c: Category)
    requires sel.Get(c) != [] && (sel.outfits != [] ==> c != Tops && c != Bottoms)
    ensures c in LookSlots(sel)
  {
    var cats := BaseSlots(sel) + AccessorySlots;
    if sel.outfits != [] {
      assert cats == [Outfits, Footwear, Headwear, Accessories];
    } else {
      assert cats == [Tops, Bottoms, Footwear, Headwear, Accessories];
    }
    assert c.Outfits? || c.Tops? || c.Bottoms? || c.Footwear? || c.Headwear? || c.Accessories?;
    assert c in cats;
    FilledKeepsSelected(sel, cats);
  }

  /** A category is a slot of the looks iff something is selected in it,
      unless it is tops or bottoms while an outfit is selected. */
  lemma LookSlotMembers(sel: Selection, c: Category)
    ensures c in LookSlots(sel) <==>
      sel.Get(c) != [] && (sel.outfits != [] ==> c != Tops && c != Bottoms)
  {
    if c in LookSlots(sel) {
      LookSlotIsSelected(sel, c);
    }
    if sel.Get(c) != [] && (sel.outfits != [] ==> c != Tops && c != Bottoms) {
      SelectedIsLookSlot(sel, c);
    }
  }

  /** Dropping empty factors from the slot factors drops the unselected categories. */
  lemma {:induction false} NonEmptySlotFactors(sel: Selection, cats: seq<Category>)
    ensures NonEmpty(SlotFactors(sel, cats)) == SlotFactors(sel, Filled(sel, cats))
    decreases |cats|
  {
    if cats != [] {
      var n := |cats| - 1;
      var c := cats[n];
      var fs := SlotFactors(sel, cats);
      assert fs[..n] == SlotFactors(sel, cats[..n]);
      assert fs[n] == Tag(sel.Get(c), c);
      NonEmptySlotFactors(sel, cats[..n]);
      if sel.Get(c) == [] {
        assert fs[n] == [];
      } else {
        assert fs[n] != [];
        SlotFactorsAppend(sel, Filled(sel, cats[..n]), [c]);
      }
    }
  }

  lemma SlotCartesianIsProduct(sel: Selection, cats: seq<Category>)
    ensures Cartesian(SlotFactors(sel, cats)) == Product(SlotFactors(sel, Filled(sel, cats)))
  {
    NonEmptySlotFactors(sel, cats);
  }

  /** A look is a combination of the slot factors iff it holds exactly one
      item of each filled category, in category order, each item taken from
      the selection of the category it is tagged with. */
  lemma SlotProductMembers(sel: Selection, cats: seq<Category>, look: seq<TryOnItem>)
    ensures look in Cartesian(SlotFactors(sel, cats)) <==>
      Categories(look) == Filled(sel, cats) && FromSelection(sel, look)
  {
    var F := Filled(sel, cats);
    SlotCartesianIsProduct(sel, cats);
    ProductMembers(SlotFactors(sel, F), look);
    if |look| == |F| {
      forall i | 0 <= i < |F|
        ensures look[i] in SlotFactors(sel, F)[i] <==>
          look[i].category == F[i] && look[i].item in sel.Get(F[i])
      {
        TagMembers(sel.Get(F[i]), F[i], look[i]);
      }
      if Categories(look) != F {
        var i :| 0 <= i < |F| && Categories(look)[i] != F[i];
        assert look[i] !in SlotFactors(sel, F)[i];
      }
    }
  }

  lemma {:induction false} SlotChoiceCount(sel: Selection, cats: seq<Category>)
    ensures |Cartesian(SlotFactors(sel, cats))| == SlotCount(sel, cats)
    decreases |cats|
  {
    CartesianLength(SlotFactors(sel, cats));
    SlotChoiceCountIsChoiceCount(sel, cats);
  }

  lemma {:induction false} SlotChoiceCountIsChoiceCount(sel: Selection, cats: seq<Category>)
    ensures ChoiceCount(SlotFactors(sel, cats)) == SlotCount(sel, cats)
    decreases |cats|
  {
    if cats != [] {
      var n := |cats| - 1;
      assert SlotFactors(sel, cats)[..n] == SlotFactors(sel, cats[..n]);
      SlotChoiceCountIsChoiceCount(sel, cats[..n]);
    }
  }

  /** The number of possible looks over `cats`: the product of the sizes of
      the selected categories. */
  function SlotCount(sel: Selection, cats: seq<Category>): (n: nat)
    ensures n >= 1
    decreases |cats|
  {
    if cats == [] then 1
    else
      var c := cats[|cats| - 1];
      SlotCount(sel, cats[..|cats| - 1]) * (if sel.Get(c) == [] then 1 else |sel.Get(c)|)
  }

  lemma CartesianOfNoSlots(sel: Selection, cats: seq<Category>)
    requires forall i :: 0 <= i < |cats| ==> sel.Get(cats[i]) == []
    ensures Cartesian(SlotFactors(sel, cats)) == [[]]
  {
    FilledEmpty(sel, cats);
    NonEmptySlotFactors(sel, cats);
  }

  // ---------------------------------------------------------------------------
  // generateOutfitCombinations
  // ---------------------------------------------------------------------------

  /** One single-item base per selected outfit. */
  function OutfitBases(sel: Selection): seq<seq<TryOnItem>>
  {
    Singletons(Tag(sel.outfits, Outfits))
  }

  /** The base layer as the code computes it: without an outfit it is
      `cartesian(tops, bottoms)`, which is [[]] when both are empty. */
  function BaseLayerAsWritten(sel: Selection): seq<seq<TryOnItem>>
  {
    if sel.outfits != [] then OutfitBases(sel)
    else Cartesian(SlotFactors(sel, [Tops, Bottoms]))
  }

  /** The base layer the code evidently means: empty when no outfit, top or
      bottom is selected, so that the accessory-only branch is reachable. */
  function BaseLayer(sel: Selection): seq<seq<TryOnItem>>
  {
    if sel.outfits != [] then OutfitBases(sel)
    else if sel.tops == [] && sel.bottoms == [] then []
    else Cartesian(SlotFactors(sel, [Tops, Bottoms]))
  }

  /** `cartesian(footwear, headwear, accessories)`. */
  function AccessoryLayer(sel: Selection): seq<seq<TryOnItem>>
  {
    Cartesian(SlotFactors(sel, AccessorySlots))
  }

  /** `combos.filter(combo => combo.length > 0)`. */
  function NonEmptyCombos(combos: seq<seq<TryOnItem>>): (r: seq<seq<TryOnItem>>)
    ensures forall x :: x in r <==> x in combos && x != []
    decreases |combos|
  {
    if combos == [] then []
    else (if combos[0] == [] then [] else [combos[0]]) + NonEmptyCombos(combos[1..])
  }

  /** The final filter distributes over concatenation, so the kept
      combinations stay in their original order. */
  lemma {:induction false} NonEmptyCombosAppend(a: seq<seq<TryOnItem>>, b: seq<seq<TryOnItem>>)
    ensures NonEmptyCombos(a + b) == NonEmptyCombos(a) + NonEmptyCombos(b)
    decreases |a|
  {
    if a == [] {
      assert a + b == b;
    } else {
      assert (a + b)[0] == a[0] && (a + b)[1..] == a[1..] + b;
      NonEmptyCombosAppend(a[1..], b);
    }
  }

  lemma {:induction false} NonEmptyCombosKeepsAll(combos: seq<seq<TryOnItem>>)
    requires forall i :: 0 <= i < |combos| ==> combos[i] != []
    ensures NonEmptyCombos(combos) == combos
    decreases |combos|
  {
    if combos != [] {
      NonEmptyCombosKeepsAll(combos[1..]);
      assert combos == [combos[0]] + combos[1..];
    }
  }

  /** Without a base, the non-empty accessory combinations; otherwise every
      base followed by every accessory combination. */
  function Assemble(bases: seq<seq<TryOnItem>>, combos: seq<seq<TryOnItem>>): seq<seq<TryOnItem>>
  {
    if bases == [] then NonEmptyCombos(combos) else Cross(bases, combos)
  }

  /** `generateOutfitCombinations` exactly as written. */
  function CombinationsAsWritten(sel: Selection): seq<seq<TryOnItem>>
  {
    Assemble(BaseLayerAsWritten(sel), AccessoryLayer(sel))
  }

  /** `generateOutfitCombinations` with the base layer it evidently intends. */
  function Combinations(sel: Selection): seq<seq<TryOnItem>>
  {
    Assemble(BaseLayer(sel), AccessoryLayer(sel))
  }

  /** A selected outfit as a product factor gives the same single-item bases. */
  lemma OutfitBasesAsProduct(sel: Selection)
    requires sel.outfits != []
    ensures OutfitBases(sel) == Cartesian(SlotFactors(sel, [Outfits]))
  {
    var f := Tag(sel.outfits, Outfits);
    assert SlotFactors(sel, [Outfits]) == [f];
    assert f != [];
    assert NonEmpty([f]) == NonEmpty([f][..0]) + [f];
    assert Product([f]) == Cross(Product([]), Singletons(f));
    CrossUnitLeft(Singletons(f));
  }

  lemma SlotProductWithOutfits(sel: Selection)
    requires sel.outfits != []
    ensures Combinations(sel) == Cartesian(SlotFactors(sel, [Outfits] + AccessorySlots))
  {
    OutfitBasesAsProduct(sel);
    SlotFactorsAppend(sel, [Outfits], AccessorySlots);
    CartesianAppend(SlotFactors(sel, [Outfits]), SlotFactors(sel, AccessorySlots));
  }

  lemma SlotProductWithSeparates(sel: Selection)
    requires sel.outfits == [] && (sel.tops != [] || sel.bottoms != [])
    ensures Combinations(sel) == Cartesian(SlotFactors(sel, [Tops, Bottoms] + AccessorySlots))
  {
    var base := SlotFactors(sel, [Tops, Bottoms]);
    CartesianLength(base);
    SlotFactorsAppend(sel, [Tops, Bottoms], AccessorySlots);
    CartesianAppend(base, SlotFactors(sel, AccessorySlots));
  }

  lemma SlotProductWithoutBase(sel: Selection)
    requires sel.outfits == [] && sel.tops == [] && sel.bottoms == []
    ensures Combinations(sel) ==
      if Filled(sel, AccessorySlots) == [] then [] else Cartesian(SlotFactors(sel, [Tops, Bottoms] + AccessorySlots))
  {
    var acc := AccessoryLayer(sel);
    if Filled(sel, AccessorySlots) == [] {
      FilledEmpty(sel, AccessorySlots);
      CartesianOfNoSlots(sel, AccessorySlots);
      assert NonEmptyCombos([[]]) == [] + NonEmptyCombos([]);
    } else {
      CartesianOfNoSlots(sel, [Tops, Bottoms]);
      CrossUnitLeft(acc);
      SlotFactorsAppend(sel, [Tops, Bottoms], AccessorySlots);
      CartesianAppend(SlotFactors(sel, [Tops, Bottoms]), SlotFactors(sel, AccessorySlots));
      forall i | 0 <= i < |acc| ensures acc[i] != [] {
        SlotProductMembers(sel, AccessorySlots, acc[i]);
      }
      NonEmptyCombosKeepsAll(acc);
    }
  }

  /** The looks are exactly the nested-loop product of the selections of the
      look's slot categories (base categories first, rightmost fastest), and
      there is no look at all when nothing is selected. */
  lemma CombinationsAreSlotProduct(sel: Selection)
    ensures Combinations(sel) ==
      if LookSlots(sel) == [] then [] else Cartesian(SlotFactors(sel, BaseSlots(sel) + AccessorySlots))
  {
    var base := BaseSlots(sel);
    FilledAppend(sel, base, AccessorySlots);
    FilledEmpty(sel, base);
    if sel.outfits != [] {
      SlotProductWithOutfits(sel);
      assert sel.Get(base[0]) != [];
    } else if sel.tops != [] || sel.bottoms != [] {
      SlotProductWithSeparates(sel);
      assert sel.Get(base[0]) != [] || sel.Get(base[1]) != [];
    } else {
      SlotProductWithoutBase(sel);
    }
  }

  /** A look is produced iff something is selected, its slot categories are
      exactly the look slots (one item per filled category, base first, then
      footwear, headwear, accessories) and each item is a selected item of
      the category it is tagged with. */
  lemma CombinationsMembers(sel: Selection, look: seq<TryOnItem>)
    ensures look in Combinations(sel) <==>
      LookSlots(sel) != [] && Categories(look) == LookSlots(sel) && FromSelection(sel, look)
  {
    CombinationsAreSlotProduct(sel);
    SlotProductMembers(sel, BaseSlots(sel) + AccessorySlots, look);
  }

  /** Every look lists its items in look order (outfit or top and bottom,
      then footwear, headwear, accessories), so it holds at most one item of
      each category. */
  lemma LookCategoriesIncrease(sel: Selection, look: seq<TryOnItem>)
    requires look in Combinations(sel)
    ensures forall i, j :: 0 <= i < j < |look| ==> Rank(look[i].category) < Rank(look[j].category)
    ensures forall i, j :: 0 <= i < |look| && 0 <= j < |look| && i != j ==> look[i].category != look[j].category
  {
    CombinationsMembers(sel, look);
    LookSlotsIncrease(sel);
    assert forall i :: 0 <= i < |look| ==> look[i].category == LookSlots(sel)[i];
  }

  /** The number of looks: the product of the sizes of the selected look
      slots, and none when nothing is selected. */
  lemma CombinationsCount(sel: Selection)
    ensures |Combinations(sel)| ==
      if LookSlots(sel) == [] then 0 else SlotCount(sel, BaseSlots(sel) + AccessorySlots)
  {
    CombinationsAreSlotProduct(sel);
    SlotChoiceCount(sel, BaseSlots(sel) + AccessorySlots);
  }

  /** A selection has no look slot exactly when it is entirely empty. */
  lemma NoSlotsIffNothingSelected(sel: Selection)
    ensures LookSlots(sel) == [] <==> sel == EmptySelection
  {
    var cats := BaseSlots(sel) + AccessorySlots;
    FilledEmpty(sel, cats);
    if sel.outfits != [] {
      assert sel.Get(cats[0]) != [];
    } else {
      assert cats == [Tops, Bottoms, Footwear, Headwear, Accessories];
      assert sel.Get(cats[0]) == sel.tops && sel.Get(cats[1]) == sel.bottoms;
      assert sel.Get(cats[2]) == sel.footwear && sel.Get(cats[3]) == sel.headwear;
      assert sel.Get(cats[4]) == sel.accessories;
    }
  }

  /** There is no look exactly when the selection is entirely empty. */
  lemma NoLooksIffNothingSelected(sel: Selection)
    ensures Combinations(sel) == [] <==> sel == EmptySelection
  {
    CombinationsCount(sel);
    NoSlotsIffNothingSelected(sel);
  }

  /** With an outfit selected, tops and bottoms are ignored. */
  lemma OutfitsOverrideSeparates(sel: Selection)
    requires sel.outfits != []
    ensures Combinations(sel) == Combinations(sel.(tops := [], bottoms := []))
  {
    var sel' := sel.(tops := [], bottoms := []);
    assert SlotFactors(sel', AccessorySlots) == SlotFactors(sel, AccessorySlots);
  }

  /** With an outfit selected, look `i * |accessory combinations| + j` is the
      `i`-th outfit alone followed by the `j`-th accessory combination. */
  lemma OutfitLooks(sel: Selection, i: nat, j: nat)
    requires sel.outfits != []
    requires i < |sel.outfits| && j < |AccessoryLayer(sel)|
    ensures var acc, looks := AccessoryLayer(sel), Combinations(sel);
      |looks| == |sel.outfits| * |acc| && i * |acc| + j < |looks| &&
      looks[i * |acc| + j] == [TryOnItem(sel.outfits[i], Outfits)] + acc[j]
  {
    CrossAt(OutfitBases(sel), AccessoryLayer(sel), i, j);
  }

  /** Without an outfit but with a top or a bottom, the bases are the
      product of tops and bottoms, each base crossed with every accessory
      combination in nested-loop order. */
  lemma SeparatesThenAccessories(sel: Selection, i: nat, j: nat)
    requires sel.outfits == [] && (sel.tops != [] || sel.bottoms != [])
    requires i < |BaseLayer(sel)| && j < |AccessoryLayer(sel)|
    ensures |Combinations(sel)| == |BaseLayer(sel)| * |AccessoryLayer(sel)| &&
      i * |AccessoryLayer(sel)| + j < |Combinations(sel)| &&
      Combinations(sel)[i * |AccessoryLayer(sel)| + j] == BaseLayer(sel)[i] + AccessoryLayer(sel)[j]
  {
    CrossAt(BaseLayer(sel), AccessoryLayer(sel), i, j);
  }

  /** Tops alone give one single-item base per top, in selection order. */
  lemma TopsOnlyBases(sel: Selection)
    requires sel.outfits == [] && sel.bottoms == [] && sel.tops != []
    ensures BaseLayer(sel) == Singletons(Tag(sel.tops, Tops))
  {
    var f := Tag(sel.tops, Tops);
    var one: seq<seq<TryOnItem>> := [[]];
    assert SlotFactors(sel, [Tops, Bottoms]) == [f] + one;
    NonEmptyAppend([f], one);
    assert NonEmpty(one) == NonEmpty(one[..0]) + [];
    CartesianSingle(f);
  }

  /** With no base item selected, the looks are exactly the accessory
      combinations, none of them empty, once any accessory slot is filled. */
  lemma AccessoriesOnly(sel: Selection)
    requires sel.outfits == [] && sel.tops == [] && sel.bottoms == []
    requires sel.footwear != [] || sel.headwear != [] || sel.accessories != []
    ensures Combinations(sel) == AccessoryLayer(sel)
    ensures forall look :: look in Combinations(sel) ==> look != []
  {
    var acc := AccessoryLayer(sel);
    FilledEmpty(sel, AccessorySlots);
    assert exists i :: 0 <= i < |AccessorySlots| && sel.Get(AccessorySlots[i]) != [];
    forall i | 0 <= i < |acc| ensures acc[i] != [] {
      SlotProductMembers(sel, AccessorySlots, acc[i]);
    }
    NonEmptyCombosKeepsAll(acc);
  }

  /** The code as written differs from the intended combinator on exactly one
      input: the empty selection, for which it yields one empty look. */
  lemma AsWrittenEmptyLook(sel: Selection)
    ensures CombinationsAsWritten(sel) == if sel == EmptySelection then [[]] else Combinations(sel)
  {
    if sel.outfits == [] && sel.tops == [] && sel.bottoms == [] {
      CartesianOfNoSlots(sel, [Tops, Bottoms]);
      CrossUnitLeft(AccessoryLayer(sel));
      if sel == EmptySelection {
        CartesianOfNoSlots(sel, AccessorySlots);
      } else {
        AccessoriesOnly(sel);
      }
    }
  }

  /** With a single selected category among distinct categories, the filled
      slots are that category alone. */
  lemma {:induction false} FilledSingle(sel: Selection, cats: seq<Category>, c: Category)
    requires forall i, j :: 0 <= i < j < |cats| ==> cats[i] != cats[j]
    requires sel.Get(c) != [] && forall d :: d != c ==> sel.Get(d) == []
    ensures Filled(sel, cats) == if c in cats then [c] else []
    decreases |cats|
  {
    if cats != [] {
      var n := |cats| - 1;
      var pre, d := cats[..n], cats[n];
      assert cats == pre + [d];
      assert forall i :: 0 <= i < n ==> pre[i] == cats[i];
      FilledSingle(sel, pre, c);
      assert Filled(sel, cats) == Filled(sel, pre) + (if sel.Get(d) == [] then [] else [d]);
      if d == c {
        assert c !in pre;
      } else {
        assert sel.Get(d) == [];
      }
    }
  }

  /** A single populated category is the only look slot. */
  lemma OneCategorySlots(sel: Selection, c: Category)
    requires sel.Get(c) != [] && forall d :: d != c ==> sel.Get(d) == []
    ensures LookSlots(sel) == [c]
  {
    var cats := BaseSlots(sel) + AccessorySlots;
    if c == Outfits {
      assert cats == [Outfits, Footwear, Headwear, Accessories];
    } else {
      assert sel.outfits == sel.Get(Outfits) == [];
      assert cats == [Tops, Bottoms, Footwear, Headwear, Accessories];
    }
    FilledSingle(sel, cats, c);
  }

  /** Slot factors with one filled category give one single-item
      combination per item of it. */
  lemma CartesianOneFilled(sel: Selection, cats: seq<Category>, c: Category)
    requires Filled(sel, cats) == [c]
    ensures Cartesian(SlotFactors(sel, cats)) == Singletons(Tag(sel.Get(c), c))
  {
    var f := Tag(sel.Get(c), c);
    NonEmptySlotFactors(sel, cats);
    assert SlotFactors(sel, [c]) == [f];
    FilledAreSelectedAt(sel, cats, 0);
    CartesianSingle(f);
  }

  /** A selection with one look slot gives one single-item look per item of it. */
  lemma SingleSlotLooks(sel: Selection, c: Category)
    requires LookSlots(sel) == [c]
    ensures Combinations(sel) == Singletons(Tag(sel.Get(c), c))
  {
    CombinationsAreSlotProduct(sel);
    CartesianOneFilled(sel, BaseSlots(sel) + AccessorySlots, c);
  }

  /** A single populated category of N items gives N looks of one item each,
      in selection order. */
  lemma OneCategoryOnly(sel: Selection, c: Category)
    requires sel.Get(c) != [] && forall d :: d != c ==> sel.Get(d) == []
    ensures Combinations(sel) == Singletons(Tag(sel.Get(c), c))
  {
    OneCategorySlots(sel, c);
    SingleSlotLooks(sel, c);
  }

  /** Tops and bottoms without any accessory: every top-bottom pair, tops
      in the outer loop. */
  lemma SeparatesOnly(sel: Selection)
    requires sel.outfits == [] && sel.tops != [] && sel.bottoms != []
    requires sel.footwear == [] && sel.headwear == [] && sel.accessories == []
    ensures Combinations(sel) == Cross(Singletons(Tag(sel.tops, Tops)), Singletons(Tag(sel.bottoms, Bottoms)))
  {
    var tops, bottoms := Tag(sel.tops, Tops), Tag(sel.bottoms, Bottoms);
    var fs := SlotFactors(sel, [Tops, Bottoms]);
    assert fs == [tops] + [bottoms];
    CartesianOfNoSlots(sel, AccessorySlots);
    CrossUnitRight(Cartesian(fs));
    CartesianSingle(tops);
    CartesianAppendOne([tops], bottoms);
  }

  lemma CrossTwoByOne<T>(x1: T, x2: T, y: T)
    ensures Cross(Singletons([x1, x2]), Singletons([y])) == [[x1, y], [x2, y]]
  {
    var C, D := Singletons([x1, x2]), Cross(Singletons([x1, x2]), Singletons([y]));
    assert |D| == 2;
    CrossSingletonsAt(C, D, [y], 0, 0);
    CrossSingletonsAt(C, D, [y], 1, 0);
    assert C[0] == [x1] && C[1] == [x2];
    assert D[0] == [x1, y] && D[1] == [x2, y];
    assert D == [D[0], D[1]];
  }

  /** Two tops and one bottom give the two top-bottom pairs in top order. */
  lemma TwoTopsOneBottom(sel: Selection, t1: FilterItem, t2: FilterItem, b1: FilterItem)
    requires sel == Selection([], [t1, t2], [b1], [], [], [])
    ensures Combinations(sel) ==
      [[TryOnItem(t1, Tops), TryOnItem(b1, Bottoms)], [TryOnItem(t2, Tops), TryOnItem(b1, Bottoms)]]
  {
    assert Tag(sel.tops, Tops) == [TryOnItem(t1, Tops), TryOnItem(t2, Tops)];
    assert Tag(sel.bottoms, Bottoms) == [TryOnItem(b1, Bottoms)];
    SeparatesOnly(sel);
    CrossTwoByOne(TryOnItem(t1, Tops), TryOnItem(t2, Tops), TryOnItem(b1, Bottoms));
  }

  /** The base layer, pushed item by item as the code builds `baseItems`. */
  method CollectBases(sel: Selection) returns (baseItems: seq<seq<TryOnItem>>)
    ensures baseItems == BaseLayer(sel)
  {
    baseItems := [];
    if |sel.outfits| > 0 {
      for i := 0 to |sel.outfits|
        invariant baseItems == OutfitBases(sel)[..i]
      {
        baseItems := baseItems + [[TryOnItem(sel.outfits[i], Outfits)]];
      }
      assert OutfitBases(sel)[..|sel.outfits|] == OutfitBases(sel);
    } else if |sel.tops| > 0 || |sel.bottoms| > 0 {
      var combos := Cartesian(SlotFactors(sel, [Tops, Bottoms]));
      for i := 0 to |combos|
        invariant baseItems == combos[..i]
      {
        baseItems := baseItems + [combos[i]];
      }
      assert combos[..|combos|] == combos;
    }
  }

  /** The nested `forEach` that pushes every base followed by every
      accessory combination. */
  method PushLooks(bases: seq<seq<TryOnItem>>, combos: seq<seq<TryOnItem>>) returns (looks: seq<seq<TryOnItem>>)
    ensures looks == Cross(bases, combos)
  {
    looks := [];
    for i := 0 to |bases|
      invariant looks == Cross(bases[..i], combos)
    {
      assert bases[..i + 1][..i] == bases[..i];
      for j := 0 to |combos|
        invariant looks == Cross(bases[..i], combos) + Row(bases[i], combos)[..j]
      {
        looks := looks + [bases[i] + combos[j]];
        assert Row(bases[i], combos)[..j + 1] == Row(bases[i], combos)[..j] + [bases[i] + combos[j]];
      }
      assert Row(bases[i], combos)[..|combos|] == Row(bases[i], combos);
    }
    assert bases[..|bases|] == bases;
  }

  /** `generateOutfitCombinations` with the corrected base layer. */
  method GenerateOutfitCombinations(sel: Selection) returns (looks: seq<seq<TryOnItem>>)
    ensures looks == Combinations(sel)
  {
    var baseItems := CollectBases(sel);
    var accessoryCombos := AccessoryLayer(sel);
    if |baseItems| == 0 {
      return NonEmptyCombos(accessoryCombos);
    }
    looks := PushLooks(baseItems, accessoryCombos);
  }
}
