/**
 * The image moderation decisions of `ImageFilter` (image_filter.py).
 *
 * Preprocessing, the two classifiers and the OpenCV red mask are not modelled;
 * what they report about one image is a `Probe`, and the verdict rules taken
 * on it are modelled exactly.
 */
module ImageFilter {
  import opened Strings
  import opened Wrappers
  import opened Statistics

  const NsfwThreshold: real := 0.7
  const ViolenceThreshold: real := 0.7

  /** The category of every image whose check raised and that is flagged anyway. */
  const ErrorCategory: string := "Error in processing"
  /** The category of the red-pixel short-circuit. */
  const BloodCategory: string := "Violence: Blood detected"

  /** One of the top-5 predictions of a classifier (`name` is its `label`). */
  datatype Prediction = Prediction(name: string, score: real)

  /** A classifier call: its predictions, or an exception. */
  datatype Classification = Predictions(preds: seq<Prediction>) | Raised

  /** The red mask of `_check_violence_content`: red pixels and all pixels, or an exception. */
  datatype RedMask = RedCount(red: nat, pixels: nat) | MaskRaised

  /** What is learnt from one image: an exception while preprocessing, or the three readings. */
  datatype Probe =
    | PreprocessRaised
    | Probe(nsfw: Classification, redMask: RedMask, violence: Classification)

  /** `(is_inappropriate, category)`. */
  datatype Verdict = Verdict(flagged: bool, category: string)

  // ---------------------------------------------------------------------
  // _check_nsfw_content
  // ---------------------------------------------------------------------

  /** A prediction that flags an image as NSFW: label porn, hentai or sexy, score above the threshold. */
  predicate NsfwHit(p: Prediction) {
    var l := LowerStr(p.name);
    (l == "porn" || l == "hentai" || l == "sexy") && p.score > NsfwThreshold
  }

  /** The loop over the predictions: the lower-cased label of the first NSFW hit. */
  function FirstNsfw(preds: seq<Prediction>): (r: Option<string>)
    ensures r.Some? <==> exists i :: 0 <= i < |preds| && NsfwHit(preds[i])
    ensures r.Some? ==> exists i :: 0 <= i < |preds| && NsfwHit(preds[i]) && r.value == LowerStr(preds[i].name)
                                    && forall j :: 0 <= j < i ==> !NsfwHit(preds[j])
    ensures r.Some? ==> r.value in {"porn", "hentai", "sexy"}
  {
    if preds == [] then None
    else
      var lowered := LowerStr(preds[0].name);
      var score := preds[0].score;
      if (lowered == "porn" || lowered == "hentai") && score > NsfwThreshold then Some(lowered)
      else if lowered == "sexy" && score > NsfwThreshold then Some(lowered)
      else
        var r := FirstNsfw(preds[1..]);
        assert forall i :: 1 <= i < |preds| ==> preds[1..][i - 1] == preds[i];
        r
  }

  /** `_check_nsfw_content`: an exception flags the image (fails closed). */
  function CheckNsfw(c: Classification): (v: Verdict)
    ensures c.Raised? ==> v == Verdict(true, ErrorCategory)
    ensures c.Predictions? ==> (v.flagged <==> exists i :: 0 <= i < |c.preds| && NsfwHit(c.preds[i]))
    ensures c.Predictions? && v.flagged ==> v.category == "NSFW: " + FirstNsfw(c.preds).value
    ensures v.flagged ==> v.category != ""
    ensures !v.flagged ==> v.category == ""
  {
    match c
    case Raised => Verdict(true, ErrorCategory)
    case Predictions(preds) =>
      match FirstNsfw(preds)
      case Some(lowered) => Verdict(true, "NSFW: " + lowered)
      case None => Verdict(false, "")
  }

  // ---------------------------------------------------------------------
  // _check_violence_content
  // ---------------------------------------------------------------------

  /** Python's `sub in s` on strings. */
  predicate ContainsSub(s: string, sub: string)
    decreases |s|
  {
    (|sub| <= |s| && s[..|sub|] == sub) || (s != [] && ContainsSub(s[1..], sub))
  }

  /** `any(category in label for category in ['weapon', 'knife', 'gun', 'blood', 'injury'])`. */
  predicate HasViolenceKeyword(name: string) {
    ContainsSub(name, "weapon") || ContainsSub(name, "knife") || ContainsSub(name, "gun")
    || ContainsSub(name, "blood") || ContainsSub(name, "injury")
  }

  predicate ViolenceHit(p: Prediction) {
    HasViolenceKeyword(LowerStr(p.name)) && p.score > ViolenceThreshold
  }

  /** The loop over the violence predictions: the lower-cased label of the first hit. */
  function FirstViolence(preds: seq<Prediction>): (r: Option<string>)
    ensures r.Some? <==> exists i :: 0 <= i < |preds| && ViolenceHit(preds[i])
    ensures r.Some? ==> exists i :: 0 <= i < |preds| && ViolenceHit(preds[i]) && r.value == LowerStr(preds[i].name)
                                    && forall j :: 0 <= j < i ==> !ViolenceHit(preds[j])
    ensures r.Some? ==> HasViolenceKeyword(r.value)
  {
    if preds == [] then None
    else
      var lowered := LowerStr(preds[0].name);
      if HasViolenceKeyword(lowered) && preds[0].score > ViolenceThreshold then Some(lowered)
      else
        var r := FirstViolence(preds[1..]);
        assert forall i :: 1 <= i < |preds| ==> preds[1..][i - 1] == preds[i];
        r
  }

  /**
   * `_check_violence_content`: more than a fifth of red pixels flags the image
   * before the classifier is asked; an exception lets the image pass (fails open).
   */
  function CheckViolence(mask: RedMask, c: Classification): (v: Verdict)
    ensures mask.MaskRaised? ==> v == Verdict(false, "")
    ensures mask.RedCount? && 5 * mask.red > mask.pixels ==> v == Verdict(true, BloodCategory)
    ensures mask.RedCount? && 5 * mask.red <= mask.pixels ==>
              (v.flagged <==> c.Predictions? && exists i :: 0 <= i < |c.preds| && ViolenceHit(c.preds[i]))
    ensures mask.RedCount? && 5 * mask.red <= mask.pixels && v.flagged ==>
              c.Predictions? && v.category == "Violence: " + FirstViolence(c.preds).value
    ensures v.flagged ==> v.category != ""
    ensures !v.flagged ==> v.category == ""
  {
    match mask
    case MaskRaised => Verdict(false, "")
    case RedCount(red, pixels) =>
      // red / pixels > 0.2
      if 5 * red > pixels then Verdict(true, BloodCategory)
      else
        match c
        case Raised => Verdict(false, "")
        case Predictions(preds) =>
          match FirstViolence(preds)
          case Some(lowered) => Verdict(true, "Violence: " + lowered)
          case None => Verdict(false, "")
  }

  // ---------------------------------------------------------------------
  // _is_inappropriate, filter_image
  // ---------------------------------------------------------------------

  /** `_is_inappropriate`: the violence check runs only when the NSFW check passed. */
  function IsInappropriate(p: Probe): (v: Verdict)
    ensures p.PreprocessRaised? ==> v == Verdict(true, ErrorCategory)
    ensures p.Probe? && CheckNsfw(p.nsfw).flagged ==> v == CheckNsfw(p.nsfw)
    ensures p.Probe? && !CheckNsfw(p.nsfw).flagged ==> v == CheckViolence(p.redMask, p.violence)
    ensures v.flagged <==> v.category != ""
  {
    match p
    case PreprocessRaised => Verdict(true, ErrorCategory)
    case Probe(nsfw, redMask, violence) =>
      var n := CheckNsfw(nsfw);
      if n.flagged then Verdict(true, n.category)
      else
        var w := CheckViolence(redMask, violence);
        if w.flagged then Verdict(true, w.category)
        else Verdict(false, "")
  }

  /** `(filtered_image, was_inappropriate, category)`; `kept` is None when the image is removed. */
  datatype ImageOutcome<T> = ImageOutcome(kept: Option<T>, flagged: bool, category: string)

  /** `filter_image`: a kept image is the image given, not the preprocessed copy the models saw. */
  function FilterImage<T>(image: T, probe: T -> Probe): (r: ImageOutcome<T>)
    ensures r.kept == (if r.flagged then None else Some(image))
    ensures r.flagged <==> r.category != ""
    ensures r.flagged == IsInappropriate(probe(image)).flagged
    ensures r.category == IsInappropriate(probe(image)).category
  {
    var v := IsInappropriate(probe(image));
    if v.flagged then ImageOutcome(None, true, v.category)
    else ImageOutcome(Some(image), false, "")
  }

  /** An NSFW verdict is the final one, whatever the red mask and the violence classifier report. */
  lemma NsfwTakesPrecedence(n: Classification, m1: RedMask, v1: Classification, m2: RedMask, v2: Classification)
    requires CheckNsfw(n).flagged
    ensures IsInappropriate(Probe(n, m1, v1)) == IsInappropriate(Probe(n, m2, v2)) == CheckNsfw(n)
  {
  }

  /** More than a fifth of red pixels flags the image whatever the violence classifier would say. */
  lemma BloodShortCircuit(n: Classification, red: nat, pixels: nat, v1: Classification, v2: Classification)
    requires !CheckNsfw(n).flagged && 5 * red > pixels
    ensures IsInappropriate(Probe(n, RedCount(red, pixels), v1)) == Verdict(true, BloodCategory)
    ensures IsInappropriate(Probe(n, RedCount(red, pixels), v2)) == Verdict(true, BloodCategory)
  {
  }

  /** A quarter of red pixels is over the limit. */
  lemma QuarterRedIsBlood(n: Classification, red: nat, pixels: nat, v: Classification)
    requires !CheckNsfw(n).flagged && pixels > 0 && 4 * red == pixels
    ensures IsInappropriate(Probe(n, RedCount(red, pixels), v)) == Verdict(true, BloodCategory)
  {
  }

  /** An exception in the NSFW check removes the image; one in the violence check keeps it. */
  lemma FailurePolicyIsAsymmetric(m: RedMask, v: Classification, n: Classification, red: nat, pixels: nat)
    ensures IsInappropriate(Probe(Raised, m, v)) == Verdict(true, ErrorCategory)
    ensures !CheckNsfw(n).flagged ==> IsInappropriate(Probe(n, MaskRaised, v)) == Verdict(false, "")
    ensures !CheckNsfw(n).flagged && 5 * red <= pixels ==>
              IsInappropriate(Probe(n, RedCount(red, pixels), Raised)) == Verdict(false, "")
  {
  }

  // ---------------------------------------------------------------------
  // filter_images
  // ---------------------------------------------------------------------

  /** `sum(flags)`. */
  function CountTrue(flags: seq<bool>): (n: nat)
    ensures n <= |flags|
  {
    if flags == [] then 0 else CountTrue(flags[..|flags| - 1]) + (if flags[|flags| - 1] then 1 else 0)
  }

  /** The images whose flag is false, in their original order. */
  function Unflagged<T>(images: seq<T>, flags: seq<bool>): (r: seq<T>)
    requires |flags| == |images|
    ensures |r| <= |images|
  {
    if images == [] then []
    else
      var n := |images| - 1;
      Unflagged(images[..n], flags[..n]) + (if flags[n] then [] else [images[n]])
  }

  /** As many images survive as there are false flags. */
  lemma {:induction false} UnflaggedCount<T>(images: seq<T>, flags: seq<bool>)
    requires |flags| == |images|
    ensures |Unflagged(images, flags)| == |images| - CountTrue(flags)
  {
    if images != [] {
      var n := |images| - 1;
      UnflaggedCount(images[..n], flags[..n]);
    }
  }

  /** The survivors are exactly the unflagged images: every one of them, and nothing else. */
  lemma {:induction false} UnflaggedMembers<T>(images: seq<T>, flags: seq<bool>)
    requires |flags| == |images|
    ensures forall i :: 0 <= i < |images| && !flags[i] ==> images[i] in Unflagged(images, flags)
    ensures forall x :: x in Unflagged(images, flags) ==> exists i :: 0 <= i < |images| && !flags[i] && images[i] == x
  {
    if images != [] {
      var n := |images| - 1;
      UnflaggedMembers(images[..n], flags[..n]);
      forall x | x in Unflagged(images, flags)
        ensures exists i :: 0 <= i < |images| && !flags[i] && images[i] == x
      {
        if x in Unflagged(images[..n], flags[..n]) {
          var i :| 0 <= i < n && !flags[..n][i] && images[..n][i] == x;
          assert !flags[i] && images[i] == x;
        } else {
          assert !flags[n] && images[n] == x;
        }
      }
    }
  }

  lemma UnflaggedNext<T>(images: seq<T>, flags: seq<bool>, i: nat, f: bool)
    requires i < |images| && |flags| == i
    ensures Unflagged(images[..i + 1], flags + [f]) == Unflagged(images[..i], flags) + (if f then [] else [images[i]])
  {
    assert images[..i + 1][..i] == images[..i];
    assert (flags + [f])[..i] == flags;
  }

  /** `filter_images`: the kept images in order, and one flag and one category per input image. */
  method FilterImages<T>(images: seq<T>, probe: T -> Probe) returns (kept: seq<T>, flags: seq<bool>, categories: seq<string>)
    ensures |flags| == |images| && |categories| == |images|
    ensures forall i :: 0 <= i < |images| ==>
              flags[i] == IsInappropriate(probe(images[i])).flagged
              && categories[i] == IsInappropriate(probe(images[i])).category
    ensures forall i :: 0 <= i < |images| ==> (flags[i] <==> categories[i] != "")
    ensures kept == Unflagged(images, flags)
    ensures |kept| == |images| - CountTrue(flags)
  {
    kept, flags, categories := [], [], [];
    for i := 0 to |images|
      invariant |flags| == i && |categories| == i
      invariant forall j :: 0 <= j < i ==>
                  flags[j] == IsInappropriate(probe(images[j])).flagged
                  && categories[j] == IsInappropriate(probe(images[j])).category
      invariant kept == Unflagged(images[..i], flags)
    {
      var outcome := FilterImage(images[i], probe);
      if outcome.kept.Some? {
        kept := kept + [outcome.kept.value];
      }
      UnflaggedNext(images, flags, i, outcome.flagged);
      flags := flags + [outcome.flagged];
      categories := categories + [outcome.category];
    }
    assert images[..|images|] == images;
    UnflaggedCount(images, flags);
  }

  // ---------------------------------------------------------------------
  // get_image_stats
  // ---------------------------------------------------------------------

  /** `category.split(':')[0]`: everything before the first colon. */
  function BeforeColon(s: string): (r: string)
    ensures ':' !in r
    ensures |r| <= |s| && r == s[..|r|]
  {
    if s == [] || s[0] == ':' then [] else [s[0]] + BeforeColon(s[1..])
  }

  /** The statistics key of a category: `category.split(':')[0].strip()`. */
  function MainCategory(category: string): (r: string)
    ensures ':' !in r
    ensures |r| <= |category|
  {
    var head := BeforeColon(category);
    var r := Strip(head);
    assert r == [] || r == head[LeadSpan(head)..|head| - TrailSpan(head)];
    r
  }

  /** A category written as "<kind>: <detail>" is counted under its kind. */
  lemma {:induction false} BeforeColonOfLabelled(kind: string, detail: string)
    requires ':' !in kind
    ensures BeforeColon(kind + ":" + detail) == kind
  {
    if kind != [] {
      assert (kind + ":" + detail)[1..] == kind[1..] + ":" + detail;
      BeforeColonOfLabelled(kind[1..], detail);
    } else {
      assert (kind + ":" + detail)[0] == ':';
    }
  }

  /** The key of a category without a colon is the category itself, when it has no surrounding whitespace. */
  lemma MainCategoryOfPlain(kind: string)
    requires ':' !in kind && kind != [] && !IsSpace(kind[0]) && !IsSpace(kind[|kind| - 1])
    ensures MainCategory(kind) == kind
  {
    BeforeColonWhole(kind);
    StripUnchanged(kind);
  }

  /** The key of "<kind>: <detail>" is the kind. */
  lemma MainCategoryOfLabelled(kind: string, detail: string)
    requires ':' !in kind && kind != [] && !IsSpace(kind[0]) && !IsSpace(kind[|kind| - 1])
    ensures MainCategory(kind + ": " + detail) == kind
  {
    assert kind + ": " + detail == kind + ":" + (" " + detail);
    BeforeColonOfLabelled(kind, " " + detail);
    StripUnchanged(kind);
  }

  /** The key of the red-pixel category is "Violence". */
  lemma BloodCategoryKind()
    ensures MainCategory(BloodCategory) == "Violence"
  {
    assert BloodCategory == "Violence" + ": " + "Blood detected";
    MainCategoryOfLabelled("Violence", "Blood detected");
  }

  /** The key of the error category is the category itself. */
  lemma ErrorCategoryKind()
    ensures MainCategory(ErrorCategory) == ErrorCategory
  {
    MainCategoryOfPlain(ErrorCategory);
  }

  lemma NsfwCategoryKind(c: Classification)
    requires CheckNsfw(c).flagged
    ensures MainCategory(CheckNsfw(c).category) == "NSFW" || MainCategory(CheckNsfw(c).category) == ErrorCategory
  {
    if c.Raised? {
      ErrorCategoryKind();
    } else {
      var lowered := FirstNsfw(c.preds).value;
      assert CheckNsfw(c).category == "NSFW" + ": " + lowered;
      MainCategoryOfLabelled("NSFW", lowered);
    }
  }

  lemma ViolenceCategoryKind(m: RedMask, v: Classification)
    requires CheckViolence(m, v).flagged
    ensures MainCategory(CheckViolence(m, v).category) == "Violence"
  {
    if 5 * m.red > m.pixels {
      BloodCategoryKind();
    } else {
      var lowered := FirstViolence(v.preds).value;
      assert CheckViolence(m, v).category == "Violence" + ": " + lowered;
      MainCategoryOfLabelled("Violence", lowered);
    }
  }

  /** Every category that flags an image is counted under "NSFW", "Violence" or "Error in processing". */
  lemma FlaggedCategoryKinds(p: Probe)
    requires IsInappropriate(p).flagged
    ensures MainCategory(IsInappropriate(p).category) in {"NSFW", "Violence", "Error in processing"}
  {
    if p.PreprocessRaised? {
      ErrorCategoryKind();
    } else if CheckNsfw(p.nsfw).flagged {
      NsfwCategoryKind(p.nsfw);
    } else {
      ViolenceCategoryKind(p.redMask, p.violence);
    }
  }

  lemma {:induction false} BeforeColonWhole(s: string)
    requires ':' !in s
    ensures BeforeColon(s) == s
  {
    if s != [] {
      BeforeColonWhole(s[1..]);
    }
  }

  datatype ImageStats = ImageStats(totalImages: nat, flaggedImages: nat, cleanRatio: real, categories: map<string, nat>)

  /** `category_counts` after the loop over `categories[..n]`. */
  function CategoryCounts(categories: seq<string>): map<string, nat> {
    if categories == [] then map[]
    else
      var counts := CategoryCounts(categories[..|categories| - 1]);
      var category := categories[|categories| - 1];
      if category == "" then counts
      else
        var key := MainCategory(category);
        counts[key := (if key in counts then counts[key] else 0) + 1]
  }

  /** How many non-empty categories have the given key. */
  function CountKey(categories: seq<string>, key: string): nat {
    if categories == [] then 0
    else
      var c := categories[|categories| - 1];
      CountKey(categories[..|categories| - 1], key) + (if c != "" && MainCategory(c) == key then 1 else 0)
  }

  function CountNonEmpty(categories: seq<string>): (n: nat)
    ensures n <= |categories|
  {
    if categories == [] then 0
    else CountNonEmpty(categories[..|categories| - 1]) + (if categories[|categories| - 1] != "" then 1 else 0)
  }

  /** Each key counts exactly the non-empty categories that carry it, and only such keys appear. */
  lemma {:induction false} CategoryCountsAreCounts(categories: seq<string>, key: string)
    ensures key in CategoryCounts(categories) <==> CountKey(categories, key) > 0
    ensures key in CategoryCounts(categories) ==> CategoryCounts(categories)[key] == CountKey(categories, key)
  {
    if categories != [] {
      CategoryCountsAreCounts(categories[..|categories| - 1], key);
    }
  }

  /** The sum of a map's values. */
  ghost function SumValues(m: map<string, nat>): nat
    decreases |m|
  {
    if |m| == 0 then 0
    else
      var k :| k in m;
      m[k] + SumValues(m - {k})
  }

  lemma RemoveKey(m: map<string, nat>, k: string)
    requires k in m
    ensures (m - {k}).Keys == m.Keys - {k}
    ensures |m - {k}| == |m| - 1
  {
    assert (m - {k}).Keys == m.Keys - {k};
  }

  /** The key `SumValues` takes out first. */
  lemma SumValuesUnfold(m: map<string, nat>) returns (j: string)
    requires |m| != 0
    ensures j in m && SumValues(m) == m[j] + SumValues(m - {j})
  {
    j :| j in m && SumValues(m) == m[j] + SumValues(m - {j});
  }

  /** The sum does not depend on which key is taken out first. */
  lemma {:induction false} SumValuesRemove(m: map<string, nat>, k: string)
    requires k in m
    ensures SumValues(m) == m[k] + SumValues(m - {k})
    decreases |m|
  {
    var j := SumValuesUnfold(m);
    if j != k {
      var mj, mk := m - {j}, m - {k};
      RemoveKey(m, j);
      RemoveKey(m, k);
      assert k in mj && j in mk;
      SumValuesRemove(mj, k);
      SumValuesRemove(mk, j);
      assert mj - {k} == mk - {j};
    }
  }

  lemma SumValuesIncrement(m: map<string, nat>, k: string)
    ensures SumValues(m[k := (if k in m then m[k] else 0) + 1]) == SumValues(m) + 1
  {
    var m' := m[k := (if k in m then m[k] else 0) + 1];
    SumValuesRemove(m', k);
    assert m' - {k} == m - {k};
    if k in m {
      SumValuesRemove(m, k);
    } else {
      assert m - {k} == m;
    }
  }

  /** The per-key counts add up to the number of non-empty categories. */
  lemma {:induction false} CategoryCountsSum(categories: seq<string>)
    ensures SumValues(CategoryCounts(categories)) == CountNonEmpty(categories)
  {
    if categories != [] {
      var init := categories[..|categories| - 1];
      CategoryCountsSum(init);
      var c := categories[|categories| - 1];
      if c != "" {
        SumValuesIncrement(CategoryCounts(init), MainCategory(c));
      }
    }
  }

  /** On the output of `filter_images`, the per-key counts add up to the number of flagged images. */
  lemma {:induction false} CategoryCountsMatchFlags(flags: seq<bool>, categories: seq<string>)
    requires |flags| == |categories|
    requires forall i :: 0 <= i < |flags| ==> (flags[i] <==> categories[i] != "")
    ensures SumValues(CategoryCounts(categories)) == CountTrue(flags)
  {
    CategoryCountsSum(categories);
    CountNonEmptyMatchesFlags(flags, categories);
  }

  lemma {:induction false} CountNonEmptyMatchesFlags(flags: seq<bool>, categories: seq<string>)
    requires |flags| == |categories|
    requires forall i :: 0 <= i < |flags| ==> (flags[i] <==> categories[i] != "")
    ensures CountNonEmpty(categories) == CountTrue(flags)
  {
    if flags != [] {
      var n := |flags| - 1;
      CountNonEmptyMatchesFlags(flags[..n], categories[..n]);
    }
  }

  /** One more category folded into the counts. */
  lemma CategoryCountsNext(categories: seq<string>, i: nat)
    requires i < |categories|
    ensures var counts := CategoryCounts(categories[..i]);
            var key := MainCategory(categories[i]);
            CategoryCounts(categories[..i + 1])
            == if categories[i] == "" then counts else counts[key := (if key in counts then counts[key] else 0) + 1]
  {
    var c := categories[..i + 1];
    assert c[..|c| - 1] == categories[..i];
    assert c[|c| - 1] == categories[i];
  }

  /** Every key in the counts has a positive count equal to `CountKey`. */
  lemma CategoryCountsPositive(categories: seq<string>)
    ensures forall key :: key in CategoryCounts(categories) ==> CategoryCounts(categories)[key] == CountKey(categories, key) > 0
  {
    forall key | key in CategoryCounts(categories)
      ensures CategoryCounts(categories)[key] == CountKey(categories, key) > 0
    {
      CategoryCountsAreCounts(categories, key);
    }
  }

  /** `get_image_stats`. */
  method GetImageStats(flags: seq<bool>, categories: seq<string>) returns (stats: ImageStats)
    ensures stats.totalImages == |flags|
    ensures stats.flaggedImages == CountTrue(flags)
    ensures stats.cleanRatio == CleanRatio(|flags|, CountTrue(flags))
    ensures 0.0 <= stats.cleanRatio <= 1.0
    ensures flags == [] ==> stats.cleanRatio == 1.0
    ensures stats.categories == CategoryCounts(categories)
    ensures forall key :: key in stats.categories ==> stats.categories[key] == CountKey(categories, key) > 0
  {
    var totalImages := |flags|;
    var flaggedImages := CountTrue(flags);
    var counts := CountCategories(categories);
    CategoryCountsPositive(categories);
    stats := ImageStats(totalImages, flaggedImages, CleanRatio(totalImages, flaggedImages), counts);
  }

  /** The counting loop of `get_image_stats`. */
  method CountCategories(categories: seq<string>) returns (counts: map<string, nat>)
    ensures counts == CategoryCounts(categories)
  {
    counts := map[];
    for i := 0 to |categories|
      invariant counts == CategoryCounts(categories[..i])
    {
      CategoryCountsNext(categories, i);
      var category := categories[i];
      if category != "" {
        var key := MainCategory(category);
        counts := counts[key := (if key in counts then counts[key] else 0) + 1];
      }
    }
    assert categories[..|categories|] == categories;
  }
}
