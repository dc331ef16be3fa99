/**
 * The image gallery of the detail view: the three generated image variants
 * (`generateProductImages`), the view `renderProductDetail` installs, and the
 * thumbnail activation `changeMainImage` performs (js/detail.js).
 */
module Gallery {
  import Text
  import Decimal
  import opened Catalog

  /** The size parameters the variant generator looks for in an image URL. */
  const SizePattern: string := "w=400&h=400"
  const SaturationSuffix: string := "&sat=-20"
  const BrightnessSuffix: string := "&brightness=10"

  /**
   * The image variants of a product: the base image, then the base image with
   * a saturation hint and with a brightness hint added after the first
   * `w=400&h=400`.
   */
  function Variants(image: string): (r: seq<string>)
    ensures |r| == 3 && r[0] == image
    ensures Text.Absent(image, SizePattern) ==> r[1] == image && r[2] == image
    ensures forall i: nat {:trigger Text.FirstOccurrence(image, SizePattern, i)} ::
              Text.FirstOccurrence(image, SizePattern, i) ==>
                && r[1] == image[..i + |SizePattern|] + SaturationSuffix + image[i + |SizePattern|..]
                && r[2] == image[..i + |SizePattern|] + BrightnessSuffix + image[i + |SizePattern|..]
  {
    var r := [ image,
               Text.ReplaceFirst(image, SizePattern, SizePattern + SaturationSuffix),
               Text.ReplaceFirst(image, SizePattern, SizePattern + BrightnessSuffix) ];
    if Text.IndexOf(image, SizePattern).Some? then
      var k := Text.IndexOf(image, SizePattern).value;
      Text.ReplaceByExtension(image, SizePattern, SaturationSuffix, k);
      Text.ReplaceByExtension(image, SizePattern, BrightnessSuffix, k);
      assert forall i: nat {:trigger Text.FirstOccurrence(image, SizePattern, i)} ::
               Text.FirstOccurrence(image, SizePattern, i) ==> i == k
      by {
        forall i: nat | Text.FirstOccurrence(image, SizePattern, i) ensures i == k {
          Text.FirstOccurrenceUnique(image, SizePattern, i, k);
        }
      }
      r
    else
      r
  }

  /** The three variants are pairwise different exactly when the URL carries the size pattern. */
  lemma VariantsDistinctIffPattern(image: string)
    ensures (Variants(image)[0] != Variants(image)[1] && Variants(image)[0] != Variants(image)[2]
             && Variants(image)[1] != Variants(image)[2])
            <==> !Text.Absent(image, SizePattern)
  {
    var r := Variants(image);
    match Text.IndexOf(image, SizePattern)
    case None =>
    case Some(i) =>
      Text.ReplaceByExtension(image, SizePattern, SaturationSuffix, i);
      Text.ReplaceByExtension(image, SizePattern, BrightnessSuffix, i);
      assert |r[1]| == |image| + |SaturationSuffix|;
      assert |r[2]| == |image| + |BrightnessSuffix|;
  }

  /** One thumbnail of the gallery: its image, its alt text, and whether it carries `active`. */
  datatype Thumb = Thumb(src: string, alt: string, active: bool)

  /** The abstract content of the detail view (the markup itself is not modelled). */
  datatype DetailView = DetailView(
    mainSrc: string,
    mainAlt: string,
    thumbs: seq<Thumb>,
    heading: string,
    price: int,
    category: string,
    description: string)

  /** Exactly thumbnail `k` is active. */
  ghost predicate OnlyActive(ts: seq<Thumb>, k: int) {
    forall j :: 0 <= j < |ts| ==> ts[j].active == (j == k)
  }

  /** The number of active thumbnails. */
  function ActiveCount(ts: seq<Thumb>): nat
  {
    if |ts| == 0 then 0 else (if ts[0].active then 1 else 0) + ActiveCount(ts[1..])
  }

  /** When exactly thumbnail `k` is active, one thumbnail is active. */
  lemma {:induction false} OnlyActiveCount(ts: seq<Thumb>, k: int)
    requires 0 <= k < |ts| && OnlyActive(ts, k)
    ensures ActiveCount(ts) == 1
    decreases |ts|
  {
    if k == 0 {
      NoneActiveCount(ts[1..]);
    } else {
      OnlyActiveCount(ts[1..], k - 1);
    }
  }

  lemma {:induction false} NoneActiveCount(ts: seq<Thumb>)
    requires forall j :: 0 <= j < |ts| ==> !ts[j].active
    ensures ActiveCount(ts) == 0
    decreases |ts|
  {
    if |ts| > 0 {
      NoneActiveCount(ts[1..]);
    }
  }

  /** One thumbnail per image, labelled `<name> - Image <n>`, with only the first active. */
  function Thumbnails(images: seq<string>, name: string): (ts: seq<Thumb>)
    ensures |ts| == |images|
    ensures forall j :: 0 <= j < |ts| ==> ts[j].src == images[j]
    ensures |ts| > 0 ==> OnlyActive(ts, 0)
  {
    seq(|images|, j requires 0 <= j < |images| =>
      Thumb(images[j], name + " - Image " + Decimal.DecimalString(j + 1), j == 0))
  }

  /** The view `renderProductDetail` installs for product `p`. */
  function InitialView(p: Product): (v: DetailView)
    ensures v.mainSrc == p.image && v.mainAlt == p.name
    ensures |v.thumbs| == 3 && OnlyActive(v.thumbs, 0)
    ensures forall j :: 0 <= j < 3 ==> v.thumbs[j].src == Variants(p.image)[j]
    ensures v.heading == p.name && v.price == p.price
    ensures v.category == p.category && v.description == p.description
  {
    var images := Variants(p.image);
    DetailView(images[0], p.name, Thumbnails(images, p.name), p.name, p.price, p.category, p.description)
  }

  /** Remove the `active` class from every thumbnail. */
  function ClearActive(ts: seq<Thumb>): (r: seq<Thumb>)
    ensures |r| == |ts|
    ensures forall j :: 0 <= j < |r| ==> !r[j].active && r[j].src == ts[j].src && r[j].alt == ts[j].alt
  {
    seq(|ts|, j requires 0 <= j < |ts| => ts[j].(active := false))
  }

  /**
   * The thumbnail update of `changeMainImage(k)`: clear every marker, then
   * mark thumbnail `k`.
   */
  function Activate(ts: seq<Thumb>, k: int): (r: seq<Thumb>)
    requires 0 <= k < |ts|
    ensures |r| == |ts| && OnlyActive(r, k)
    ensures forall j :: 0 <= j < |r| ==> r[j].src == ts[j].src && r[j].alt == ts[j].alt
  {
    var cleared := ClearActive(ts);
    cleared[k := cleared[k].(active := true)]
  }
}
