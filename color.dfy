/**
 * The closed five-colour palette `COLORS` and `detectColor`, which names
 * the palette entry nearest to a sampled colour (src/utils/common.js).
 * The perceptual distance (chroma-js Delta-E) is a parameter `deltaE`.
 */
module Color {
  import opened Wrappers

  /** A channel value of pdf.js' `Uint8ClampedArray` colour. */
  type Channel = x: int | 0 <= x <= 255

  datatype Rgb = Rgb(r: Channel, g: Channel, b: Channel)

  datatype ColorName = Red | Green | Blue | Yellow | Purple

  /** The palette in declaration order, which is the order of `Object.keys`. */
  const Palette: seq<ColorName> := [Red, Green, Blue, Yellow, Purple]

  /** `COLORS[name]` */
  function RgbOf(c: ColorName): Rgb
  {
    match c
    case Red => Rgb(255, 0, 0)
    case Green => Rgb(0, 255, 0)
    case Blue => Rgb(0, 0, 255)
    case Yellow => Rgb(255, 255, 0)
    case Purple => Rgb(128, 0, 128)
  }

  /** The key under which a colour is stored, and written to the record. */
  function NameOf(c: ColorName): string
  {
    match c
    case Red => "red"
    case Green => "green"
    case Blue => "blue"
    case Yellow => "yellow"
    case Purple => "purple"
  }

  /** Looking a colour name up in `COLORS`; any other key is absent. */
  function ColorByName(s: string): (r: Option<ColorName>)
  {
    if s == "red" then Some(Red)
    else if s == "green" then Some(Green)
    else if s == "blue" then Some(Blue)
    else if s == "yellow" then Some(Yellow)
    else if s == "purple" then Some(Purple)
    else None
  }

  /** Names and lookups are inverse: a name is found exactly when it is a palette key. */
  lemma ColorByNameInverse(s: string, c: ColorName)
    ensures ColorByName(NameOf(c)) == Some(c)
    ensures ColorByName(s) == Some(c) <==> s == NameOf(c)
    ensures ColorByName(s).None? <==> forall d: ColorName :: s != NameOf(d)
  {
    forall d: ColorName
      ensures ColorByName(NameOf(d)) == Some(d)
    {
    }
  }

  function PaletteIndex(c: ColorName): (i: nat)
    ensures i < |Palette| && Palette[i] == c
  {
    match c
    case Red => 0
    case Green => 1
    case Blue => 2
    case Yellow => 3
    case Purple => 4
  }

  /**
   * The index that a stable ascending sort puts first: the earliest index
   * of a minimal value.
   */
  function FirstMinIndex(ds: seq<real>): (k: nat)
    requires |ds| > 0
    ensures k < |ds|
    ensures forall j :: 0 <= j < |ds| ==> ds[k] <= ds[j]
    ensures forall j :: 0 <= j < k ==> ds[k] < ds[j]
  {
    if |ds| == 1 then 0
    else
      var k := FirstMinIndex(ds[..|ds| - 1]);
      if ds[|ds| - 1] < ds[k] then |ds| - 1 else k
  }

  /** The distance from `input` to every palette entry, in palette order. */
  function Distances(input: Rgb, deltaE: (Rgb, Rgb) -> real): (ds: seq<real>)
    ensures |ds| == |Palette|
    ensures forall i :: 0 <= i < |Palette| ==> ds[i] == deltaE(input, RgbOf(Palette[i]))
  {
    seq(|Palette|, i requires 0 <= i < |Palette| => deltaE(input, RgbOf(Palette[i])))
  }

  /** The palette entry nearest to `input`, ties going to the earlier entry. */
  function Nearest(input: Rgb, deltaE: (Rgb, Rgb) -> real): ColorName
  {
    Palette[FirstMinIndex(Distances(input, deltaE))]
  }

  /**
   * No palette entry is nearer than the chosen one, and every entry declared
   * before it is strictly farther.
   */
  lemma NearestIsFirstMinimum(input: Rgb, deltaE: (Rgb, Rgb) -> real)
    ensures forall c: ColorName ::
              deltaE(input, RgbOf(Nearest(input, deltaE))) <= deltaE(input, RgbOf(c))
    ensures forall c: ColorName :: PaletteIndex(c) < PaletteIndex(Nearest(input, deltaE)) ==>
              deltaE(input, RgbOf(Nearest(input, deltaE))) < deltaE(input, RgbOf(c))
  {
    var ds := Distances(input, deltaE);
    var k := FirstMinIndex(ds);
    assert Palette[k] == Nearest(input, deltaE);
    assert PaletteIndex(Nearest(input, deltaE)) == k;
    forall c: ColorName
      ensures ds[k] <= deltaE(input, RgbOf(c))
      ensures PaletteIndex(c) < k ==> ds[k] < deltaE(input, RgbOf(c))
    {
      assert ds[PaletteIndex(c)] == deltaE(input, RgbOf(c));
    }
  }

  /**
   * A palette colour classifies to itself, given only that a colour is at
   * distance zero from itself and at positive distance from every other
   * palette entry.
   */
  lemma NearestOfPaletteColor(c: ColorName, deltaE: (Rgb, Rgb) -> real)
    requires deltaE(RgbOf(c), RgbOf(c)) == 0.0
    requires forall d: ColorName :: d != c ==> deltaE(RgbOf(c), RgbOf(d)) > 0.0
    ensures Nearest(RgbOf(c), deltaE) == c
  {
    NearestIsFirstMinimum(RgbOf(c), deltaE);
  }

  /**
   * `detectColor`: fills the `deltae` dictionary palette entry by palette
   * entry, then takes the first key of the keys sorted by distance.
   */
  method DetectColor(input: Rgb, deltaE: (Rgb, Rgb) -> real) returns (likely: ColorName)
    ensures likely == Nearest(input, deltaE)
    ensures forall c: ColorName :: deltaE(input, RgbOf(likely)) <= deltaE(input, RgbOf(c))
  {
    var deltae: map<ColorName, real> := map[];
    for i := 0 to |Palette|
      invariant forall j :: 0 <= j < i ==> Palette[j] in deltae
      invariant forall j :: 0 <= j < i ==> deltae[Palette[j]] == deltaE(input, RgbOf(Palette[j]))
    {
      deltae := deltae[Palette[i] := deltaE(input, RgbOf(Palette[i]))];
    }
    var keys := Palette;
    var sortedFirst := FirstMinIndex(seq(|keys|, j requires 0 <= j < |keys| => deltae[keys[j]]));
    assert seq(|keys|, j requires 0 <= j < |keys| => deltae[keys[j]]) == Distances(input, deltaE);
    likely := keys[sortedFirst];
    NearestIsFirstMinimum(input, deltaE);
  }
}
