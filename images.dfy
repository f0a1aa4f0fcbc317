/** The image references a non-table page contributes
    (`extract_image_basic`): every embedded image larger than 50 by 50
    pixels, named by its position among the page's images, then a rendering
    of the whole page when it holds more than 100 vector drawings. */
module Images {
  import opened Strings
  import opened Decimal
  import opened Document

  const MinSide: int := 50
  const DiagramThreshold: nat := 100

  /** `<model>_page_<NN>_`, the page number shown from 1 with at least two
      digits. */
  function PagePrefix(model: string, index: nat): string {
    model + "_page_" + Pad2(DisplayPage(index)) + "_"
  }

  /** The file name of the embedded image at 1-based position `position`. */
  function ImageName(model: string, index: nat, position: nat): string {
    PagePrefix(model, index) + "img_" + Dec(position) + ".png"
  }

  /** The file name of the page rendering. */
  function DiagramName(model: string, index: nat): string {
    PagePrefix(model, index) + "diagram.png"
  }

  /** An image is saved when its pixmap could be built and both sides exceed
      50 pixels. */
  predicate Kept(img: EmbeddedImage) {
    img.Image? && img.width > MinSide && img.height > MinSide
  }

  /** The names of the kept images among `images`, in order; positions count
      every image, kept or not. */
  function EmbeddedRefs(images: seq<EmbeddedImage>, model: string, index: nat): (r: seq<string>)
    ensures |r| <= |images|
  {
    if images == [] then []
    else
      var n := |images| - 1;
      EmbeddedRefs(images[..n], model, index) + (if Kept(images[n]) then [ImageName(model, index, n + 1)] else [])
  }

  /** Every name among them names a kept image at its position. */
  lemma {:induction false} EmbeddedRefsSound(images: seq<EmbeddedImage>, model: string, index: nat)
    ensures forall name | name in EmbeddedRefs(images, model, index) ::
              exists k | 0 <= k < |images| :: Kept(images[k]) && name == ImageName(model, index, k + 1)
  {
    if images != [] {
      var n := |images| - 1;
      var front := images[..n];
      EmbeddedRefsSound(front, model, index);
      forall name | name in EmbeddedRefs(images, model, index)
        ensures exists k | 0 <= k < |images| :: Kept(images[k]) && name == ImageName(model, index, k + 1)
      {
        if name in EmbeddedRefs(front, model, index) {
          var k :| 0 <= k < n && Kept(front[k]) && name == ImageName(model, index, k + 1);
          assert front[k] == images[k];
        } else {
          assert Kept(images[n]) && name == ImageName(model, index, n + 1);
        }
      }
    }
  }

  /** Every kept image is named among them. */
  lemma {:induction false} EmbeddedRefsComplete(images: seq<EmbeddedImage>, model: string, index: nat)
    ensures forall k | 0 <= k < |images| && Kept(images[k]) :: ImageName(model, index, k + 1) in EmbeddedRefs(images, model, index)
  {
    if images != [] {
      var n := |images| - 1;
      var front := images[..n];
      EmbeddedRefsComplete(front, model, index);
      forall k | 0 <= k < n && Kept(images[k])
        ensures ImageName(model, index, k + 1) in EmbeddedRefs(images, model, index)
      {
        assert front[k] == images[k];
      }
    }
  }

  /** A name is among them exactly when it names a kept image at its
      position. */
  lemma EmbeddedRefsMembers(images: seq<EmbeddedImage>, model: string, index: nat)
    ensures forall name :: name in EmbeddedRefs(images, model, index) <==>
              exists k | 0 <= k < |images| :: Kept(images[k]) && name == ImageName(model, index, k + 1)
  {
    EmbeddedRefsSound(images, model, index);
    EmbeddedRefsComplete(images, model, index);
  }

  /** Everything the page contributes: the kept embedded images, then the
      diagram when the page has more than 100 drawings. */
  function ImageRefs(page: Page, model: string, index: nat): (r: seq<string>)
    ensures |r| <= |page.images| + 1
  {
    EmbeddedRefs(page.images, model, index) +
    (if page.drawings > DiagramThreshold then [DiagramName(model, index)] else [])
  }

  /** `extract_image_basic` for the page at `index`: walks the embedded
      images, then decides on the diagram. */
  method ExtractImages(page: Page, model: string, index: nat) returns (refs: seq<string>)
    ensures refs == ImageRefs(page, model, index)
  {
    refs := [];
    var images := page.images;
    for i := 0 to |images|
      invariant refs == EmbeddedRefs(images[..i], model, index)
    {
      assert images[..i + 1][..i] == images[..i];
      match images[i] {
        case Unreadable =>
        case Image(width, height) =>
          if width > MinSide && height > MinSide {
            refs := refs + [ImageName(model, index, i + 1)];
          }
      }
    }
    assert images[..|images|] == images;
    if page.drawings > DiagramThreshold {
      refs := refs + [DiagramName(model, index)];
    }
  }

  // ---------------------------------------------------------------------
  // Reading a name back

  /** What a name holds after `<model>_page_`. */
  function AfterModel(name: string, model: string): string {
    if |model| + 6 <= |name| then name[|model| + 6..] else []
  }

  /** The page number a name of `model` carries. */
  function NamedPage(name: string, model: string): nat {
    Parse(LeadingDigits(AfterModel(name, model)))
  }

  /** What a name carries after its page number: `_img_<k>.png` or
      `_diagram.png`. */
  function NameTail(name: string, model: string): string {
    AfterDigits(AfterModel(name, model))
  }

  /** The name is that of a page rendering. */
  predicate NamesDiagram(name: string, model: string) {
    var t := NameTail(name, model);
    |t| >= 2 && t[1] == 'd'
  }

  /** The position an image name carries. */
  function NamedPosition(name: string, model: string): nat {
    var t := NameTail(name, model);
    if |t| >= 5 then Parse(LeadingDigits(t[5..])) else 0
  }

  lemma NameParts(model: string, index: nat, rest: string)
    requires rest != [] && !In(rest[0], Digit)
    ensures var name := model + "_page_" + Pad2(DisplayPage(index)) + rest;
      NamedPage(name, model) == DisplayPage(index) && NameTail(name, model) == rest
  {
    var p := Pad2(DisplayPage(index));
    var name := model + "_page_" + p + rest;
    assert name == (model + "_page_") + (p + rest);
    assert AfterModel(name, model) == p + rest;
    DigitsThen(p, rest);
    ParsePad2(DisplayPage(index));
  }

  /** An image name reads back as its page, its position, and not a
      diagram. */
  lemma ImageNameDecodes(model: string, index: nat, position: nat)
    ensures var name := ImageName(model, index, position);
      NamedPage(name, model) == DisplayPage(index) && NamedPosition(name, model) == position &&
      !NamesDiagram(name, model)
  {
    var rest := "_img_" + Dec(position) + ".png";
    assert ImageName(model, index, position) == model + "_page_" + Pad2(DisplayPage(index)) + rest;
    NameParts(model, index, rest);
    PositionDecodes(position);
  }

  /** The part of an image name after its page number reads back as the
      position, and not as a diagram. */
  lemma PositionDecodes(position: nat)
    ensures var rest := "_img_" + Dec(position) + ".png";
      |rest| >= 5 && rest[1] != 'd' && Parse(LeadingDigits(rest[5..])) == position
  {
    var rest := "_img_" + Dec(position) + ".png";
    assert rest[5..] == Dec(position) + ".png";
    DigitsThen(Dec(position), ".png");
    ParseDec(position);
  }

  /** A diagram name reads back as its page, and as a diagram. */
  lemma DiagramNameDecodes(model: string, index: nat)
    ensures var name := DiagramName(model, index);
      NamedPage(name, model) == DisplayPage(index) && NamesDiagram(name, model)
  {
    assert DiagramName(model, index) == model + "_page_" + Pad2(DisplayPage(index)) + "_diagram.png";
    NameParts(model, index, "_diagram.png");
  }

  // ---------------------------------------------------------------------
  // Properties

  /** A name is contributed exactly when it names a kept image at its
      position or, on a page with more than 100 drawings, the diagram. */
  lemma ImageRefsMembers(page: Page, model: string, index: nat, name: string)
    ensures name in ImageRefs(page, model, index) <==>
      (exists k | 0 <= k < |page.images| :: Kept(page.images[k]) && name == ImageName(model, index, k + 1)) ||
      (page.drawings > DiagramThreshold && name == DiagramName(model, index))
  {
    EmbeddedRefsMembers(page.images, model, index);
  }

  /** The 1-based positions of the kept images, in order. */
  function KeptPositions(images: seq<EmbeddedImage>): (p: seq<nat>)
    ensures |p| <= |images|
    ensures forall a | 0 <= a < |p| :: 1 <= p[a] <= |images|
    ensures forall a, b | 0 <= a < b < |p| :: p[a] < p[b]
  {
    if images == [] then []
    else
      var n := |images| - 1;
      KeptPositions(images[..n]) + (if Kept(images[n]) then [n + 1] else [])
  }

  /** The embedded-image names are the image names at the kept positions. */
  lemma {:induction false} EmbeddedRefsPositions(images: seq<EmbeddedImage>, model: string, index: nat)
    ensures |EmbeddedRefs(images, model, index)| == |KeptPositions(images)|
    ensures forall a | 0 <= a < |KeptPositions(images)| ::
              EmbeddedRefs(images, model, index)[a] == ImageName(model, index, KeptPositions(images)[a])
  {
    if images != [] {
      EmbeddedRefsPositions(images[..|images| - 1], model, index);
    }
  }

  /** The embedded-image names of a page carry its page number and strictly
      increasing positions, and none reads as a diagram. */
  lemma EmbeddedRefsDecode(images: seq<EmbeddedImage>, model: string, index: nat)
    ensures var r := EmbeddedRefs(images, model, index);
      (forall a | 0 <= a < |r| ::
         NamedPage(r[a], model) == DisplayPage(index) && !NamesDiagram(r[a], model) &&
         1 <= NamedPosition(r[a], model) <= |images|) &&
      (forall a, b | 0 <= a < b < |r| :: NamedPosition(r[a], model) < NamedPosition(r[b], model))
  {
    var p := KeptPositions(images);
    EmbeddedRefsPositions(images, model, index);
    forall a | 0 <= a < |p| {
      ImageNameDecodes(model, index, p[a]);
    }
  }

  /** The names a page contributes are its embedded-image names followed,
      on a page with more than 100 drawings, by its diagram name. */
  lemma ImageRefsDecode(page: Page, model: string, index: nat)
    ensures var r := ImageRefs(page, model, index);
      var e := EmbeddedRefs(page.images, model, index);
      |e| <= |r| <= |e| + 1 &&
      (forall a | 0 <= a < |e| :: r[a] == e[a] && !NamesDiagram(r[a], model)) &&
      (|r| > |e| <==> page.drawings > DiagramThreshold) &&
      (|r| > |e| ==> r[|e|] == DiagramName(model, index) && NamesDiagram(r[|e|], model)) &&
      forall a | 0 <= a < |r| :: NamedPage(r[a], model) == DisplayPage(index)
  {
    EmbeddedRefsDecode(page.images, model, index);
    DiagramNameDecodes(model, index);
  }

  /** Every name a page contributes carries that page's number. */
  lemma ImageRefsPage(page: Page, model: string, index: nat)
    ensures var r := ImageRefs(page, model, index);
      forall a | 0 <= a < |r| :: NamedPage(r[a], model) == DisplayPage(index)
  {
    ImageRefsDecode(page, model, index);
  }

  /** No name appears twice in what a page contributes. */
  lemma ImageRefsDistinct(page: Page, model: string, index: nat)
    ensures var r := ImageRefs(page, model, index);
      forall a, b | 0 <= a < b < |r| :: r[a] != r[b]
  {
    var r := ImageRefs(page, model, index);
    var e := EmbeddedRefs(page.images, model, index);
    ImageRefsDecode(page, model, index);
    EmbeddedRefsDecode(page.images, model, index);
    forall a, b | 0 <= a < b < |r| ensures r[a] != r[b] {
      if b < |e| {
        assert NamedPosition(r[a], model) < NamedPosition(r[b], model);
      } else {
        assert !NamesDiagram(r[a], model) && NamesDiagram(r[b], model);
      }
    }
  }

  /** The diagram, when there is one, comes last and only there. */
  lemma DiagramLast(page: Page, model: string, index: nat)
    ensures var r := ImageRefs(page, model, index);
      page.drawings > DiagramThreshold <==> (r != [] && r[|r| - 1] == DiagramName(model, index))
  {
    var r := ImageRefs(page, model, index);
    var e := EmbeddedRefs(page.images, model, index);
    ImageRefsDecode(page, model, index);
    DiagramNameDecodes(model, index);
    if |r| == |e| && r != [] {
      assert !NamesDiagram(r[|r| - 1], model);
    }
  }

  /** Two different pages never contribute the same name. */
  lemma ImageRefsDisjoint(p: Page, i: nat, q: Page, j: nat, model: string)
    requires i != j
    ensures forall name | name in ImageRefs(p, model, i) :: name !in ImageRefs(q, model, j)
  {
    var r := ImageRefs(p, model, i);
    var t := ImageRefs(q, model, j);
    ImageRefsPage(p, model, i);
    ImageRefsPage(q, model, j);
    forall a, b | 0 <= a < |r| && 0 <= b < |t| ensures r[a] != t[b] {
      assert NamedPage(r[a], model) != NamedPage(t[b], model);
    }
  }
}
