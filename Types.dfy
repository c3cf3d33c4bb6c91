/** Record shapes of the try-on application and the six-slot selection state. */
module Types {

  datatype Option<T> = None | Some(value: T)

  /** The six fixed garment slots of a catalogue and of a selection. */
  datatype Category = Outfits | Tops | Bottoms | Footwear | Headwear | Accessories

  /** Position of a category's item inside a look: base items first, then
      footwear, headwear and accessories. */
  function Rank(c: Category): nat
  {
    match c
    case Outfits => 0
    case Tops => 1
    case Bottoms => 2
    case Footwear => 3
    case Headwear => 4
    case Accessories => 5
  }

  /** An encoded image with its media type, preview location and file name;
      `base64` is empty for the seed (placeholder) catalogue items. */
  datatype UploadedImage = UploadedImage(base64: string, mimeType: string, url: string, name: string)

  /** A catalogue garment, identified by `id`. */
  datatype FilterItem = FilterItem(id: string, name: string, image: UploadedImage)

  /** A garment tagged with the category it was selected from. */
  datatype TryOnItem = TryOnItem(item: FilterItem, category: Category)

  /** What a browser `File` exposes to the upload validators. */
  datatype FileInfo = FileInfo(name: string, mimeType: string, size: nat)

  /** The items chosen in each of the six categories, in selection order. */
  datatype Selection = Selection(
    outfits: seq<FilterItem>,
    tops: seq<FilterItem>,
    bottoms: seq<FilterItem>,
    footwear: seq<FilterItem>,
    headwear: seq<FilterItem>,
    accessories: seq<FilterItem>)
  {
    function Get(c: Category): seq<FilterItem>
    {
      match c
      case Outfits => outfits
      case Tops => tops
      case Bottoms => bottoms
      case Footwear => footwear
      case Headwear => headwear
      case Accessories => accessories
    }

    /** This selection with category `c` replaced by `items`. */
    function Set(c: Category, items: seq<FilterItem>): (s: Selection)
      ensures s.Get(c) == items
      ensures forall d :: d != c ==> s.Get(d) == Get(d)
    {
      match c
      case Outfits => this.(outfits := items)
      case Tops => this.(tops := items)
      case Bottoms => this.(bottoms := items)
      case Footwear => this.(footwear := items)
      case Headwear => this.(headwear := items)
      case Accessories => this.(accessories := items)
    }
  }

  /** The selection of a fresh session: every category empty. */
  const EmptySelection := Selection([], [], [], [], [], [])

  /** The category keys in the order the selection record declares them. */
  const AllCategories: seq<Category> := [Outfits, Tops, Bottoms, Footwear, Headwear, Accessories]

  lemma AllCategoriesComplete(c: Category)
    ensures c in AllCategories
  {
  }
}
