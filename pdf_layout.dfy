/**
 * The page layout of `save_pdf` in `utils.py`: texts first, then images,
 * placed top-down from a margin of 50, opening a new page whenever the
 * next item would cross the bottom margin.
 *
 * Coordinates are exact `real` numbers (PyMuPDF's points, with y growing
 * downwards). The page size comes from the first page PyMuPDF creates and
 * is a parameter here.
 */
module PdfLayout {
  import opened Wrappers
  import opened Strings
  import DocumentFormats

  const MarginX: real := 50.0
  const MarginY: real := 50.0
  const LineHeight: real := 15.0
  /** The height an image needs below y before it is placed, and the cap on its height. */
  const ImageSlot: real := 300.0
  const MaxImageWidth: real := 500.0

  /** An image with its pixel size, `img.size == (width, height)`. */
  datatype Image<T> = Image(content: T, width: nat, height: nat)

  /** What `insert_text` and `insert_image` put on a page. */
  datatype Placement<T> =
    | TextAt(x: real, y: real, text: string)
    | ImageAt(content: T, x0: real, y0: real, x1: real, y1: real)

  /** The pages so far (the last is `current_page`) and `y_position`. */
  datatype Layout<T> = Layout(pages: seq<seq<Placement<T>>>, y: real)

  /** One empty page, y at the top margin. */
  function Start<T>(): Layout<T> {
    Layout([[]], MarginY)
  }

  function Min(a: real, b: real): (r: real)
    ensures r <= a && r <= b && (r == a || r == b)
  {
    if a < b then a else b
  }

  /** `text.count(c)`. */
  function CountChar(s: string, c: char): (n: nat)
    ensures n <= |s|
    ensures n == 0 <==> c !in s
  {
    if s == [] then 0
    else CountChar(s[..|s| - 1], c) + (if s[|s| - 1] == c then 1 else 0)
  }

  /** `current_page.insert_...`: the placement goes at the end of the last page. */
  function Place<T>(pages: seq<seq<Placement<T>>>, p: Placement<T>): (r: seq<seq<Placement<T>>>)
    requires pages != []
    ensures |r| == |pages|
  {
    pages[..|pages| - 1] + [pages[|pages| - 1] + [p]]
  }

  /** Opens a new page and returns y to the top margin when `room` more does not fit above the bottom margin. */
  function Reserve<T>(pageHeight: real, l: Layout<T>, room: real): (r: Layout<T>)
  {
    if l.y + room > pageHeight - MarginY then Layout(l.pages + [[]], MarginY) else l
  }

  /** One iteration of the text loop. */
  function PlaceText<T>(pageHeight: real, l: Layout<T>, text: string): (r: Layout<T>)
    requires l.pages != []
    ensures r.pages != []
  {
    if Strip(text) == [] then l
    else
      var s := Reserve(pageHeight, l, LineHeight);
      Layout(Place(s.pages, TextAt(MarginX, s.y, text)),
             s.y + LineHeight * (CountChar(text, '\n') as real + 1.5))
  }

  /** `min(page_width - 2 * margin_x, 500)`. */
  function ImageWidth(pageWidth: real): real {
    Min(pageWidth - 2.0 * MarginX, MaxImageWidth)
  }

  /** `min(300, img_width * h / w)`: the aspect-preserving height, capped. */
  function ImageHeight<T>(pageWidth: real, img: Image<T>): (h: real)
    requires img.width > 0
    ensures h <= ImageSlot
    ensures pageWidth >= 2.0 * MarginX ==> h >= 0.0
  {
    var w := ImageWidth(pageWidth);
    var scaled := w * (img.height as real) / (img.width as real);
    assert w >= 0.0 ==> scaled >= 0.0;
    Min(ImageSlot, scaled)
  }

  /** One iteration of the image loop; an image of width 0 makes the height a division by zero. */
  function PlaceImage<T>(pageHeight: real, pageWidth: real, l: Layout<T>, img: Image<T>): (r: Result<Layout<T>, string>)
    requires l.pages != []
    ensures r.Ok? <==> img.width > 0
    ensures r.Ok? ==> r.value.pages != []
  {
    var s := Reserve(pageHeight, l, ImageSlot);
    if img.width == 0 then Err("division by zero")
    else
      var w := ImageWidth(pageWidth);
      var h := ImageHeight(pageWidth, img);
      Ok(Layout(Place(s.pages, ImageAt(img.content, MarginX, s.y, MarginX + w, s.y + h)), s.y + h + LineHeight))
  }

  /** The text loop run over `texts` from `l`. */
  function TextsFrom<T>(pageHeight: real, l: Layout<T>, texts: seq<string>): (r: Layout<T>)
    requires l.pages != []
    ensures r.pages != []
  {
    if texts == [] then l
    else PlaceText(pageHeight, TextsFrom(pageHeight, l, texts[..|texts| - 1]), texts[|texts| - 1])
  }

  /** The image loop run over `images` from `l`; the first image of width 0 stops it. */
  function ImagesFrom<T>(pageHeight: real, pageWidth: real, l: Layout<T>, images: seq<Image<T>>): (r: Result<Layout<T>, string>)
    requires l.pages != []
    ensures r.Ok? ==> r.value.pages != []
  {
    if images == [] then Ok(l)
    else
      match ImagesFrom(pageHeight, pageWidth, l, images[..|images| - 1])
      case Err(e) => Err(e)
      case Ok(m) => PlaceImage(pageHeight, pageWidth, m, images[|images| - 1])
  }

  /** The whole layout `save_pdf` produces. */
  function PdfPages<T>(pageHeight: real, pageWidth: real, texts: seq<string>, images: seq<Image<T>>): Result<Layout<T>, string>
  {
    ImagesFrom(pageHeight, pageWidth, TextsFrom(pageHeight, Start(), texts), images)
  }

  /** `save_pdf`, up to writing the document out. */
  method SavePdf<T>(pageHeight: real, pageWidth: real, texts: seq<string>, images: seq<Image<T>>)
    returns (r: Result<Layout<T>, string>)
    ensures r == PdfPages(pageHeight, pageWidth, texts, images)
  {
    var pages, y := AddTexts(pageHeight, texts);
    r := AddImages(pageHeight, pageWidth, pages, y, images);
  }

  /** The text loop of `save_pdf`, from the first page. */
  method AddTexts<T>(pageHeight: real, texts: seq<string>) returns (pages: seq<seq<Placement<T>>>, y: real)
    ensures pages != []
    ensures Layout(pages, y) == TextsFrom(pageHeight, Start(), texts)
  {
    pages := [[]];
    y := MarginY;
    for i := 0 to |texts|
      invariant pages != []
      invariant Layout(pages, y) == TextsFrom(pageHeight, Start(), texts[..i])
    {
      var text := texts[i];
      assert texts[..i + 1][..i] == texts[..i];
      if Strip(text) == [] {
        continue;
      }
      if y + LineHeight > pageHeight - MarginY {
        pages := pages + [[]];
        y := MarginY;
      }
      pages := Place(pages, TextAt(MarginX, y, text));
      y := y + LineHeight * (CountChar(text, '\n') as real + 1.5);
    }
    assert texts[..|texts|] == texts;
  }

  /** The image loop of `save_pdf`, continuing from `pages0` and `y0`. */
  method AddImages<T>(pageHeight: real, pageWidth: real, pages0: seq<seq<Placement<T>>>, y0: real, images: seq<Image<T>>)
    returns (r: Result<Layout<T>, string>)
    requires pages0 != []
    ensures r == ImagesFrom(pageHeight, pageWidth, Layout(pages0, y0), images)
  {
    var pages, y := pages0, y0;
    for j := 0 to |images|
      invariant pages != []
      invariant ImagesFrom(pageHeight, pageWidth, Layout(pages0, y0), images[..j]) == Ok(Layout(pages, y))
    {
      ImagesFromNext(pageHeight, pageWidth, Layout(pages0, y0), images, j, Layout(pages, y));
      var placed;
      pages, y, placed := AddImage(pageHeight, pageWidth, pages, y, images[j]);
      if !placed {
        ImagesFromStops(pageHeight, pageWidth, Layout(pages0, y0), images, j);
        return Err("division by zero");
      }
    }
    assert images[..|images|] == images;
    r := Ok(Layout(pages, y));
  }

  /** The body of the image loop for one image; `placed` is false where the height is a division by zero. */
  method AddImage<T>(pageHeight: real, pageWidth: real, pages0: seq<seq<Placement<T>>>, y0: real, img: Image<T>)
    returns (pages: seq<seq<Placement<T>>>, y: real, placed: bool)
    requires pages0 != []
    ensures placed <==> img.width > 0
    ensures placed ==> pages != [] && PlaceImage(pageHeight, pageWidth, Layout(pages0, y0), img) == Ok(Layout(pages, y))
  {
    pages, y := pages0, y0;
    if y + ImageSlot > pageHeight - MarginY {
      pages := pages + [[]];
      y := MarginY;
    }
    var width := ImageWidth(pageWidth);
    if img.width == 0 {
      return pages, y, false;
    }
    var height := ImageHeight(pageWidth, img);
    pages := Place(pages, ImageAt(img.content, MarginX, y, MarginX + width, y + height));
    y := y + height + LineHeight;
    placed := true;
  }

  lemma ImagesFromNext<T>(pageHeight: real, pageWidth: real, l: Layout<T>, images: seq<Image<T>>, j: nat, m: Layout<T>)
    requires l.pages != [] && m.pages != []
    requires j < |images|
    requires ImagesFrom(pageHeight, pageWidth, l, images[..j]) == Ok(m)
    ensures ImagesFrom(pageHeight, pageWidth, l, images[..j + 1]) == PlaceImage(pageHeight, pageWidth, m, images[j])
  {
    assert images[..j + 1][..j] == images[..j];
  }

  /** An image of width 0 ends the image loop with the division error. */
  lemma ImagesFromStops<T>(pageHeight: real, pageWidth: real, l: Layout<T>, images: seq<Image<T>>, j: nat)
    requires l.pages != []
    requires j < |images| && images[j].width == 0
    requires ImagesFrom(pageHeight, pageWidth, l, images[..j]).Ok?
    ensures ImagesFrom(pageHeight, pageWidth, l, images) == Err("division by zero")
  {
    assert images[..j + 1][..j] == images[..j];
    ImagesFromErr(pageHeight, pageWidth, l, images[..j + 1], images[j + 1..]);
    assert images[..j + 1] + images[j + 1..] == images;
  }

  /** Once the image loop has failed, later images do not matter. */
  lemma {:induction false} ImagesFromErr<T>(pageHeight: real, pageWidth: real, l: Layout<T>,
                                           done: seq<Image<T>>, rest: seq<Image<T>>)
    requires l.pages != []
    requires ImagesFrom(pageHeight, pageWidth, l, done).Err?
    ensures ImagesFrom(pageHeight, pageWidth, l, done + rest) == ImagesFrom(pageHeight, pageWidth, l, done)
    decreases |rest|
  {
    if rest == [] {
      assert done + rest == done;
    } else {
      var init := rest[..|rest| - 1];
      assert (done + rest)[..|done + rest| - 1] == done + init;
      ImagesFromErr(pageHeight, pageWidth, l, done, init);
    }
  }

  // ---------------------------------------------------------------------
  // One step at a time: page breaks and the advance of y
  // ---------------------------------------------------------------------

  /**
   * A blank text changes nothing. Any other text opens a new page exactly
   * when one more line would cross the bottom margin, leaves the earlier
   * pages alone, and moves y down by at least one and a half lines from
   * where it was placed.
   */
  lemma TextStep<T>(pageHeight: real, l: Layout<T>, text: string)
    requires l.pages != []
    ensures var r := PlaceText(pageHeight, l, text);
      && (Strip(text) == [] ==> r == l)
      && (Strip(text) != [] ==>
            && (|r.pages| == |l.pages| + 1 <==> l.y + LineHeight > pageHeight - MarginY)
            && (|r.pages| == |l.pages| || |r.pages| == |l.pages| + 1)
            && r.pages[..|l.pages| - 1] == l.pages[..|l.pages| - 1]
            && r.y >= (if |r.pages| == |l.pages| then l.y else MarginY) + 1.5 * LineHeight)
  {
    var r := PlaceText(pageHeight, l, text);
    if Strip(text) != [] {
      var s := Reserve(pageHeight, l, LineHeight);
      assert s.pages[..|l.pages| - 1] == l.pages[..|l.pages| - 1];
      assert r.pages[..|s.pages| - 1] == s.pages[..|s.pages| - 1];
    }
  }

  /**
   * An image of positive width opens a new page exactly when 300 more
   * points would cross the bottom margin, leaves the earlier pages alone,
   * and, on a page at least 100 wide, moves y down by at least a line from
   * where it was placed.
   */
  lemma ImageStep<T>(pageHeight: real, pageWidth: real, l: Layout<T>, img: Image<T>)
    requires l.pages != [] && img.width > 0
    ensures var r := PlaceImage(pageHeight, pageWidth, l, img).value;
      && (|r.pages| == |l.pages| + 1 <==> l.y + ImageSlot > pageHeight - MarginY)
      && (|r.pages| == |l.pages| || |r.pages| == |l.pages| + 1)
      && r.pages[..|l.pages| - 1] == l.pages[..|l.pages| - 1]
      && (pageWidth >= 2.0 * MarginX ==>
            r.y >= (if |r.pages| == |l.pages| then l.y else MarginY) + LineHeight)
  {
    var r := PlaceImage(pageHeight, pageWidth, l, img).value;
    var s := Reserve(pageHeight, l, ImageSlot);
    assert s.pages[..|l.pages| - 1] == l.pages[..|l.pages| - 1];
    assert r.pages[..|s.pages| - 1] == s.pages[..|s.pages| - 1];
  }

  // ---------------------------------------------------------------------
  // Everything placed lies within the margins
  // ---------------------------------------------------------------------

  /** A placement between the margins: a text's first line, or an image's whole rectangle. */
  predicate Fits<T>(pageHeight: real, pageWidth: real, p: Placement<T>) {
    match p
    case TextAt(x, y, _) =>
      x == MarginX && MarginY <= y && y + LineHeight <= pageHeight - MarginY
    case ImageAt(_, x0, y0, x1, y1) =>
      x0 == MarginX && x0 <= x1 <= pageWidth - MarginX
      && MarginY <= y0 <= y1 <= pageHeight - MarginY
  }

  /** At least one page, y below the top margin, and every placement between the margins. */
  predicate Valid<T>(pageHeight: real, pageWidth: real, l: Layout<T>) {
    && l.pages != []
    && l.y >= MarginY
    && forall i, k :: 0 <= i < |l.pages| && 0 <= k < |l.pages[i]| ==> Fits(pageHeight, pageWidth, l.pages[i][k])
  }

  lemma ReserveValid<T>(pageHeight: real, pageWidth: real, l: Layout<T>, room: real)
    requires Valid(pageHeight, pageWidth, l)
    requires MarginY + room <= pageHeight - MarginY
    ensures var s := Reserve(pageHeight, l, room);
      Valid(pageHeight, pageWidth, s) && s.y + room <= pageHeight - MarginY
  {
    var s := Reserve(pageHeight, l, room);
    if l.y + room > pageHeight - MarginY {
      forall i, k | 0 <= i < |s.pages| && 0 <= k < |s.pages[i]|
        ensures Fits(pageHeight, pageWidth, s.pages[i][k])
      {
        assert i < |l.pages|;
        assert s.pages[i] == l.pages[i];
      }
    }
  }

  lemma PlaceValid<T>(pageHeight: real, pageWidth: real, l: Layout<T>, p: Placement<T>, y: real)
    requires Valid(pageHeight, pageWidth, l)
    requires Fits(pageHeight, pageWidth, p) && y >= MarginY
    ensures Valid(pageHeight, pageWidth, Layout(Place(l.pages, p), y))
  {
    var pages := Place(l.pages, p);
    var n := |l.pages|;
    forall i, k | 0 <= i < |pages| && 0 <= k < |pages[i]|
      ensures Fits(pageHeight, pageWidth, pages[i][k])
    {
      if i < n - 1 {
        assert pages[i] == l.pages[i];
      } else {
        assert pages[i] == l.pages[n - 1] + [p];
        if k < |l.pages[n - 1]| {
          assert pages[i][k] == l.pages[n - 1][k];
        }
      }
    }
  }

  /** On a page at least 115 high, placing a text keeps the layout within the margins. */
  lemma PlaceTextValid<T>(pageHeight: real, pageWidth: real, l: Layout<T>, text: string)
    requires pageHeight >= 2.0 * MarginY + LineHeight
    requires Valid(pageHeight, pageWidth, l)
    ensures Valid(pageHeight, pageWidth, PlaceText(pageHeight, l, text))
  {
    if Strip(text) != [] {
      var s := Reserve(pageHeight, l, LineHeight);
      ReserveValid(pageHeight, pageWidth, l, LineHeight);
      PlaceValid(pageHeight, pageWidth, s, TextAt(MarginX, s.y, text),
                 s.y + LineHeight * (CountChar(text, '\n') as real + 1.5));
    }
  }

  /** On a page at least 400 high and 100 wide, placing an image keeps the layout within the margins. */
  lemma PlaceImageValid<T>(pageHeight: real, pageWidth: real, l: Layout<T>, img: Image<T>)
    requires pageHeight >= 2.0 * MarginY + ImageSlot && pageWidth >= 2.0 * MarginX
    requires Valid(pageHeight, pageWidth, l) && img.width > 0
    ensures Valid(pageHeight, pageWidth, PlaceImage(pageHeight, pageWidth, l, img).value)
  {
    var s := Reserve(pageHeight, l, ImageSlot);
    ReserveValid(pageHeight, pageWidth, l, ImageSlot);
    var w := ImageWidth(pageWidth);
    var h := ImageHeight(pageWidth, img);
    PlaceValid(pageHeight, pageWidth, s, ImageAt(img.content, MarginX, s.y, MarginX + w, s.y + h), s.y + h + LineHeight);
  }

  lemma {:induction false} TextsFromValid<T>(pageHeight: real, pageWidth: real, l: Layout<T>, texts: seq<string>)
    requires pageHeight >= 2.0 * MarginY + LineHeight
    requires Valid(pageHeight, pageWidth, l)
    ensures Valid(pageHeight, pageWidth, TextsFrom(pageHeight, l, texts))
  {
    if texts != [] {
      TextsFromValid(pageHeight, pageWidth, l, texts[..|texts| - 1]);
      PlaceTextValid(pageHeight, pageWidth, TextsFrom(pageHeight, l, texts[..|texts| - 1]), texts[|texts| - 1]);
    }
  }

  lemma {:induction false} ImagesFromValid<T>(pageHeight: real, pageWidth: real, l: Layout<T>, images: seq<Image<T>>)
    requires pageHeight >= 2.0 * MarginY + ImageSlot && pageWidth >= 2.0 * MarginX
    requires Valid(pageHeight, pageWidth, l)
    ensures ImagesFrom(pageHeight, pageWidth, l, images).Ok? ==>
      Valid(pageHeight, pageWidth, ImagesFrom(pageHeight, pageWidth, l, images).value)
  {
    if images != [] {
      var init := images[..|images| - 1];
      ImagesFromValid(pageHeight, pageWidth, l, init);
      var m := ImagesFrom(pageHeight, pageWidth, l, init);
      if m.Ok? && images[|images| - 1].width > 0 {
        PlaceImageValid(pageHeight, pageWidth, m.value, images[|images| - 1]);
      }
    }
  }

  /**
   * On a page at least 400 high and 100 wide (an A4 page is 595 by 842),
   * every text starts and every image lies between the margins, and the
   * document has at least one page.
   */
  lemma SavePdfWithinMargins<T>(pageHeight: real, pageWidth: real, texts: seq<string>, images: seq<Image<T>>)
    requires pageHeight >= 2.0 * MarginY + ImageSlot && pageWidth >= 2.0 * MarginX
    ensures var r := PdfPages(pageHeight, pageWidth, texts, images);
      r.Ok? ==> Valid(pageHeight, pageWidth, r.value)
  {
    var start: Layout<T> := Start();
    assert Valid(pageHeight, pageWidth, start);
    TextsFromValid(pageHeight, pageWidth, start, texts);
    ImagesFromValid(pageHeight, pageWidth, TextsFrom(pageHeight, start, texts), images);
  }

  // ---------------------------------------------------------------------
  // What ends up in the document
  // ---------------------------------------------------------------------

  /** All placements, page after page. */
  function Flatten<T>(pages: seq<seq<Placement<T>>>): seq<Placement<T>>
  {
    if pages == [] then [] else Flatten(pages[..|pages| - 1]) + pages[|pages| - 1]
  }

  /** The texts among the placements, in order. */
  function TextsIn<T>(ps: seq<Placement<T>>): seq<string>
  {
    if ps == [] then []
    else TextsIn(ps[..|ps| - 1]) + (if ps[|ps| - 1].TextAt? then [ps[|ps| - 1].text] else [])
  }

  /** The images among the placements, in order. */
  function ImagesIn<T>(ps: seq<Placement<T>>): seq<T>
  {
    if ps == [] then []
    else ImagesIn(ps[..|ps| - 1]) + (if ps[|ps| - 1].ImageAt? then [ps[|ps| - 1].content] else [])
  }

  /** The image contents, in order. */
  function Contents<T>(images: seq<Image<T>>): (r: seq<T>)
    ensures |r| == |images|
  {
    if images == [] then [] else Contents(images[..|images| - 1]) + [images[|images| - 1].content]
  }

  /** Entry `i` is the content of image `i`. */
  lemma {:induction false} ContentsAt<T>(images: seq<Image<T>>, i: nat)
    requires i < |images|
    ensures Contents(images)[i] == images[i].content
  {
    if i < |images| - 1 {
      ContentsAt(images[..|images| - 1], i);
    }
  }

  lemma FlattenPlace<T>(pages: seq<seq<Placement<T>>>, p: Placement<T>)
    requires pages != []
    ensures Flatten(Place(pages, p)) == Flatten(pages) + [p]
  {
    var r := Place(pages, p);
    assert r[..|r| - 1] == pages[..|pages| - 1];
  }

  lemma FlattenNewPage<T>(pages: seq<seq<Placement<T>>>)
    ensures Flatten(pages + [[]]) == Flatten(pages)
  {
    assert (pages + [[]])[..|pages|] == pages;
  }

  lemma PlacedSnoc<T>(ps: seq<Placement<T>>, p: Placement<T>)
    ensures TextsIn(ps + [p]) == TextsIn(ps) + (if p.TextAt? then [p.text] else [])
    ensures ImagesIn(ps + [p]) == ImagesIn(ps) + (if p.ImageAt? then [p.content] else [])
  {
    assert (ps + [p])[..|ps|] == ps;
  }

  lemma ReserveFlatten<T>(pageHeight: real, l: Layout<T>, room: real)
    ensures Flatten(Reserve(pageHeight, l, room).pages) == Flatten(l.pages)
  {
    FlattenNewPage(l.pages);
  }

  /** The text loop places exactly the non-blank texts, in order, and no image. */
  lemma {:induction false} TextsFromPlaces<T>(pageHeight: real, l: Layout<T>, texts: seq<string>)
    requires l.pages != []
    ensures TextsIn(Flatten(TextsFrom(pageHeight, l, texts).pages)) == TextsIn(Flatten(l.pages)) + DocumentFormats.NonBlank(texts)
    ensures ImagesIn(Flatten(TextsFrom(pageHeight, l, texts).pages)) == ImagesIn(Flatten(l.pages))
  {
    if texts != [] {
      var init := texts[..|texts| - 1];
      var t := texts[|texts| - 1];
      TextsFromPlaces(pageHeight, l, init);
      var m := TextsFrom(pageHeight, l, init);
      if Strip(t) != [] {
        var s := Reserve(pageHeight, m, LineHeight);
        ReserveFlatten(pageHeight, m, LineHeight);
        FlattenPlace(s.pages, TextAt(MarginX, s.y, t));
        PlacedSnoc(Flatten(s.pages), TextAt(MarginX, s.y, t));
      }
    }
  }

  lemma PlaceImageContents<T>(pageHeight: real, pageWidth: real, l: Layout<T>, img: Image<T>)
    requires l.pages != [] && img.width > 0
    ensures var r := PlaceImage(pageHeight, pageWidth, l, img).value;
      && TextsIn(Flatten(r.pages)) == TextsIn(Flatten(l.pages))
      && ImagesIn(Flatten(r.pages)) == ImagesIn(Flatten(l.pages)) + [img.content]
  {
    var s := Reserve(pageHeight, l, ImageSlot);
    ReserveFlatten(pageHeight, l, ImageSlot);
    var p := ImageAt(img.content, MarginX, s.y, MarginX + ImageWidth(pageWidth), s.y + ImageHeight(pageWidth, img));
    FlattenPlace(s.pages, p);
    PlacedSnoc(Flatten(s.pages), p);
  }

  /** The image loop, when it finishes, places exactly the images, in order, and no text. */
  lemma {:induction false} ImagesFromPlaces<T>(pageHeight: real, pageWidth: real, l: Layout<T>, images: seq<Image<T>>)
    requires l.pages != []
    ensures var r := ImagesFrom(pageHeight, pageWidth, l, images);
      r.Ok? ==> (&& TextsIn(Flatten(r.value.pages)) == TextsIn(Flatten(l.pages))
                 && ImagesIn(Flatten(r.value.pages)) == ImagesIn(Flatten(l.pages)) + Contents(images))
  {
    if images != [] {
      var init := images[..|images| - 1];
      var img := images[|images| - 1];
      ImagesFromPlaces(pageHeight, pageWidth, l, init);
      var m := ImagesFrom(pageHeight, pageWidth, l, init);
      if m.Ok? && img.width > 0 {
        PlaceImageContents(pageHeight, pageWidth, m.value, img);
      }
    }
  }

  /** The image loop finishes exactly when every image has a positive width. */
  lemma {:induction false} ImagesFromOk<T>(pageHeight: real, pageWidth: real, l: Layout<T>, images: seq<Image<T>>)
    requires l.pages != []
    ensures ImagesFrom(pageHeight, pageWidth, l, images).Ok? <==> forall i :: 0 <= i < |images| ==> images[i].width > 0
  {
    if images != [] {
      var init := images[..|images| - 1];
      ImagesFromOk(pageHeight, pageWidth, l, init);
      assert forall i :: 0 <= i < |init| ==> init[i] == images[i];
    }
  }

  /**
   * The saved document holds the non-blank texts in order and then every
   * image in order; it fails, with the division error, exactly when some
   * image has width 0.
   */
  lemma SavePdfContents<T>(pageHeight: real, pageWidth: real, texts: seq<string>, images: seq<Image<T>>)
    ensures var r := PdfPages(pageHeight, pageWidth, texts, images);
      && (r.Ok? <==> forall i :: 0 <= i < |images| ==> images[i].width > 0)
      && (r.Ok? ==> (&& TextsIn(Flatten(r.value.pages)) == DocumentFormats.NonBlank(texts)
                     && ImagesIn(Flatten(r.value.pages)) == Contents(images)))
  {
    var start: Layout<T> := Start();
    assert Flatten(start.pages) == [] by {
      assert start.pages[..0] == [];
    }
    TextsFromPlaces(pageHeight, start, texts);
    var m := TextsFrom(pageHeight, start, texts);
    ImagesFromPlaces(pageHeight, pageWidth, m, images);
    ImagesFromOk(pageHeight, pageWidth, m, images);
  }
}
