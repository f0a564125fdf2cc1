/**
 * The offline scoring of the recommender: slug extraction (`get_slug`) and
 * Recall@K over slugs (`calculate_recall_at_k`).
 */
module Evaluate {
  import opened Text

  /**
   * A url cell of the evaluation data: a Python `str`, or any other value
   * (a missing cell of the labelled data reads as a float).
   */
  datatype UrlCell = Str(s: string) | NotStr

  /** `url.strip().rstrip('/')`. */
  function CleanUrl(s: string): (cleaned: string)
    ensures |cleaned| <= |s|
    ensures cleaned == [] || (!IsSpace(cleaned[0]) && cleaned[|cleaned| - 1] != '/')
  {
    StripEnds(s);
    RStripCharPrefix(Strip(s), '/');
    RStripChar(Strip(s), '/')
  }

  /** `s.split('/')[-1]`. */
  function LastSegment(s: string): (segment: string)
    ensures '/' !in segment
  {
    var parts := Split(s, '/');
    parts[|parts| - 1]
  }

  /** The last segment is the text after the last `/`, or all of it when there is none. */
  lemma LastSegmentIsLastPiece(s: string)
    ensures IsLastPiece(s, '/', LastSegment(s))
  {
    SplitLast(s, '/');
  }

  /**
   * `get_slug`: strip whitespace, drop trailing slashes, keep what follows the
   * last remaining `/`; anything that is not a string has the empty slug.
   */
  function GetSlug(u: UrlCell): (slug: string)
    ensures u.NotStr? ==> slug == ""
    ensures '/' !in slug
  {
    if u.NotStr? then "" else LastSegment(CleanUrl(u.s))
  }

  /** The slug of a string is what follows the last `/` of the cleaned url. */
  lemma SlugIsLastPiece(u: UrlCell)
    requires u.Str?
    ensures IsLastPiece(CleanUrl(u.s), '/', GetSlug(u))
  {
    LastSegmentIsLastPiece(CleanUrl(u.s));
  }

  /** What follows a `/` is its own last segment's business. */
  lemma LastSegmentAfterSlash(left: string, segment: string)
    ensures LastSegment(left + "/" + segment) == LastSegment(segment)
  {
    SplitAppend(left, '/', segment);
  }

  /** Text that ends in neither whitespace nor `/` is left as it is by cleaning's right-hand steps. */
  lemma RightCleanNoop(s: string)
    requires s != [] && s[|s| - 1] != '/' && !IsSpace(s[|s| - 1])
    ensures RStripChar(RStrip(s), '/') == s
  {
  }

  /** Leading whitespace of `prefix/segment` is that of the prefix. */
  lemma LStripAfterSlash(prefix: string, segment: string)
    ensures LStrip(prefix + "/" + segment) == LStrip(prefix) + "/" + segment
  {
    var tail := "/" + segment;
    assert prefix + "/" + segment == prefix + tail;
    LStripAppend(prefix, tail);
    if LStrip(prefix) == [] {
      assert LStrip(prefix) + "/" + segment == tail;
    }
  }

  /** Cleaning `prefix/segment` only strips the prefix's leading whitespace when the segment ends cleanly. */
  lemma CleanAfterSlash(prefix: string, segment: string)
    requires segment != [] && segment[|segment| - 1] != '/' && !IsSpace(segment[|segment| - 1])
    ensures CleanUrl(prefix + "/" + segment) == LStrip(prefix) + "/" + segment
  {
    var kept := LStrip(prefix) + "/" + segment;
    LStripAfterSlash(prefix, segment);
    assert kept[|kept| - 1] == segment[|segment| - 1];
    RightCleanNoop(kept);
  }

  /** Only the last path segment counts: whatever precedes it (domain, folders) is ignored. */
  lemma SlugIgnoresFolders(prefix: string, otherPrefix: string, segment: string)
    requires segment != [] && segment[|segment| - 1] != '/' && !IsSpace(segment[|segment| - 1])
    ensures GetSlug(Str(prefix + "/" + segment)) == LastSegment(segment)
    ensures GetSlug(Str(prefix + "/" + segment)) == GetSlug(Str(otherPrefix + "/" + segment))
  {
    CleanAfterSlash(prefix, segment);
    LastSegmentAfterSlash(LStrip(prefix), segment);
    CleanAfterSlash(otherPrefix, segment);
    LastSegmentAfterSlash(LStrip(otherPrefix), segment);
  }

  /** A trailing slash is cleaned away when the url does not end in whitespace. */
  lemma CleanTrailingSlash(u: string)
    requires u == [] || !IsSpace(u[|u| - 1])
    ensures CleanUrl(u + "/") == CleanUrl(u)
  {
    LStripAppend(u, "/");
    LStripSuffix(u);
    var left := LStrip(u);
    assert LStrip(u + "/") == left + "/";
    assert RStrip(left + "/") == left + "/";
    assert (left + "/")[..|left|] == left;
    assert RStripChar(left + "/", '/') == RStripChar(left, '/');
    assert left != [] ==> left[|left| - 1] == u[|u| - 1];
    assert RStrip(left) == left;
  }

  /**
   * A trailing slash does not change the slug, provided the url does not end in
   * whitespace (`"a/b "` has slug `"b"`, but `"a/b /"` has slug `"b "`).
   */
  lemma SlugIgnoresTrailingSlash(u: string)
    requires u == [] || !IsSpace(u[|u| - 1])
    ensures GetSlug(Str(u + "/")) == GetSlug(Str(u))
  {
    CleanTrailingSlash(u);
  }

  /** Surrounding whitespace is cleaned away. */
  lemma CleanSurroundingSpace(u: string, c: char)
    requires IsSpace(c)
    ensures CleanUrl([c] + u) == CleanUrl(u)
    ensures CleanUrl(u + [c]) == CleanUrl(u)
  {
    assert ([c] + u)[1..] == u;
    assert LStrip([c] + u) == LStrip(u);
    LStripAppend(u, [c]);
    var left := LStrip(u);
    if left != [] {
      assert (left + [c])[..|left|] == left;
      assert RStrip(left + [c]) == RStrip(left);
    }
  }

  /** Surrounding whitespace does not change the slug. */
  lemma SlugIgnoresSurroundingSpace(u: string, c: char)
    requires IsSpace(c)
    ensures GetSlug(Str([c] + u)) == GetSlug(Str(u))
    ensures GetSlug(Str(u + [c])) == GetSlug(Str(u))
  {
    CleanSurroundingSpace(u, c);
  }

  /** Every url ending in `/java-test/` has slug `java-test`, whatever its domain and folders. */
  lemma JavaTestSlug(prefix: string)
    ensures GetSlug(Str(prefix + "/java-test/")) == "java-test"
  {
    var u := prefix + "/" + "java-test";
    assert CleanUrl(prefix + "/java-test/") == LStrip(prefix) + "/" + "java-test" by {
      assert prefix + "/java-test/" == u + "/";
      CleanTrailingSlash(u);
      CleanAfterSlash(prefix, "java-test");
    }
    assert LastSegment(LStrip(prefix) + "/" + "java-test") == "java-test" by {
      LastSegmentAfterSlash(LStrip(prefix), "java-test");
      SplitSingle("java-test", '/');
    }
  }

  /** The slugs of a list of url cells, in order. */
  function Slugs(urls: seq<UrlCell>): (slugs: seq<string>)
    ensures |slugs| == |urls|
  {
    if urls == [] then [] else [GetSlug(urls[0])] + Slugs(urls[1..])
  }

  /** Entry `i` of the slug list is the slug of url `i`. */
  lemma {:induction false} SlugsAt(urls: seq<UrlCell>, i: int)
    requires 0 <= i < |urls|
    ensures Slugs(urls)[i] == GetSlug(urls[i])
  {
    if i > 0 {
      SlugsAt(urls[1..], i - 1);
    }
  }

  /** Taking slugs commutes with taking a prefix. */
  lemma {:induction false} SlugsPrefix(urls: seq<UrlCell>, n: nat)
    requires n <= |urls|
    ensures Slugs(urls[..n]) == Slugs(urls)[..n]
  {
    if n > 0 {
      assert urls[..n][1..] == urls[1..][..n - 1];
      SlugsPrefix(urls[1..], n - 1);
    }
  }

  /** The set of the elements of a list: Python's `{x for x in xs}`. */
  function Distinct(xs: seq<string>): (elems: set<string>)
    ensures forall x :: x in elems <==> x in xs
  {
    set x | x in xs
  }

  /** A list has at most as many distinct elements as entries. */
  lemma {:induction false} DistinctSize(xs: seq<string>)
    ensures |Distinct(xs)| <= |xs|
  {
    if xs != [] {
      var init := xs[..|xs| - 1];
      DistinctSize(init);
      assert Distinct(xs) == Distinct(init) + {xs[|xs| - 1]} by {
        assert xs == init + [xs[|xs| - 1]];
      }
    }
  }

  lemma SubsetCard<T>(a: set<T>, b: set<T>)
    requires a <= b
    ensures |a| <= |b|
  {
    assert b == a + (b - a);
  }

  /** `{get_slug(p) for p in urls}`. */
  function SlugSet(urls: seq<UrlCell>): (slugs: set<string>)
    ensures forall x :: x in slugs <==> exists i :: 0 <= i < |urls| && GetSlug(urls[i]) == x
  {
    assert forall i :: 0 <= i < |urls| ==> Slugs(urls)[i] == GetSlug(urls[i]) by {
      forall i | 0 <= i < |urls| {
        SlugsAt(urls, i);
      }
    }
    Distinct(Slugs(urls))
  }

  /** The slugs that the first `k` predictions and the ground truth have in common. */
  function Hits(predictions: seq<UrlCell>, groundTruth: seq<UrlCell>, k: int): (hits: set<string>)
    ensures |hits| <= |groundTruth|
    ensures forall x :: x in hits <==> x in Slugs(Take(predictions, k)) && x in Slugs(groundTruth)
  {
    var hits := SlugSet(Take(predictions, k)) * SlugSet(groundTruth);
    SubsetCard(hits, SlugSet(groundTruth));
    DistinctSize(Slugs(groundTruth));
    hits
  }

  /** `a / b` on integers in Python 3: a true (real) quotient; here of a part by a positive whole. */
  function Ratio(a: nat, b: nat): (r: real)
    requires a <= b && b > 0
    ensures 0.0 <= r <= 1.0
    ensures r == 0.0 <==> a == 0
    ensures r == 1.0 <==> a == b
  {
    var r := (a as real) / (b as real);
    assert r * (b as real) == a as real;
    r
  }

  /** A larger part of the same whole is a larger ratio. */
  lemma RatioMonotone(a: nat, a': nat, b: nat)
    requires a <= a' <= b && b > 0
    ensures Ratio(a, b) <= Ratio(a', b)
  {
    assert Ratio(a', b) - Ratio(a, b) == ((a' - a) as real) / (b as real);
  }

  /**
   * `calculate_recall_at_k`: the number of distinct slugs shared by the first `k`
   * predictions and the ground truth, divided by the length of the ground-truth list.
   */
  function RecallAtK(predictions: seq<UrlCell>, groundTruth: seq<UrlCell>, k: int): (recall: real)
    ensures groundTruth == [] ==> recall == 0.0
    ensures 0.0 <= recall <= 1.0
    ensures recall == 0.0 <==> groundTruth == [] || Hits(predictions, groundTruth, k) == {}
  {
    if groundTruth == [] then 0.0
    else Ratio(|Hits(predictions, groundTruth, k)|, |groundTruth|)
  }

  /** Only the first `k` predictions matter. */
  lemma RecallUsesFirstK(predictions: seq<UrlCell>, groundTruth: seq<UrlCell>, k: int)
    requires k >= 0
    ensures RecallAtK(predictions, groundTruth, k) == RecallAtK(Take(predictions, k), groundTruth, k)
  {
    assert Take(Take(predictions, k), k) == Take(predictions, k);
  }

  /** For a non-negative cut-off, looking further down the list never lowers recall. */
  lemma RecallMonotoneInK(predictions: seq<UrlCell>, groundTruth: seq<UrlCell>, k: int, k': int)
    requires 0 <= k <= k'
    ensures RecallAtK(predictions, groundTruth, k) <= RecallAtK(predictions, groundTruth, k')
  {
    if groundTruth != [] {
      var short, long := Take(predictions, k), Take(predictions, k');
      assert short == long[..|short|];
      SlugsPrefix(long, |short|);
      var h, h' := Hits(predictions, groundTruth, k), Hits(predictions, groundTruth, k');
      assert h <= h';
      SubsetCard(h, h');
      RatioMonotone(|h|, |h'|, |groundTruth|);
    }
  }

  /**
   * A slug match is enough: a prediction under another domain and folder still
   * hits, and a further non-matching prediction costs nothing.
   */
  lemma RecallExample(predicted: string, other: string, expected: string)
    ensures RecallAtK([Str(predicted + "/java-test/"), Str(other)], [Str(expected + "/java-test/")], 10) == 1.0
  {
    var predictions := [Str(predicted + "/java-test/"), Str(other)];
    var truth := [Str(expected + "/java-test/")];
    assert "java-test" in Slugs(Take(predictions, 10)) by {
      JavaTestSlug(predicted);
      assert Take(predictions, 10) == predictions;
      SlugsAt(predictions, 0);
    }
    assert Slugs(truth) == ["java-test"] by {
      JavaTestSlug(expected);
    }
    SingleSlugFound(predictions, truth, 10, "java-test");
  }

  /** A ground truth whose only slug is among the first `k` predicted slugs scores 1. */
  lemma SingleSlugFound(predictions: seq<UrlCell>, truth: seq<UrlCell>, k: int, slug: string)
    requires Slugs(truth) == [slug] && slug in Slugs(Take(predictions, k))
    ensures RecallAtK(predictions, truth, k) == 1.0
  {
    assert Hits(predictions, truth, k) == {slug};
  }

  /** A ground truth of two urls sharing one slug, predicted back verbatim, scores 0.5. */
  lemma RepeatedSlugHalf(truth: seq<UrlCell>, slug: string)
    requires Slugs(truth) == [slug, slug]
    ensures RecallAtK(truth, truth, 10) == 0.5
  {
    assert Take(truth, 10) == truth;
    assert Hits(truth, truth, 10) == {slug};
  }

  /**
   * Two ground-truth urls with the same slug (the same page in two folders, or a
   * repeated row) are one hit at most but two in the denominator: even a perfect
   * prediction list scores 0.5.
   */
  lemma RecallUndercountsRepeatedSlugs(first: string, second: string)
    ensures var truth := [Str(first + "/java-test/"), Str(second + "/java-test/")];
      RecallAtK(truth, truth, 10) == 0.5
  {
    var truth := [Str(first + "/java-test/"), Str(second + "/java-test/")];
    assert Slugs(truth) == ["java-test", "java-test"] by {
      JavaTestSlug(first);
      JavaTestSlug(second);
      SlugsAt(truth, 0);
      SlugsAt(truth, 1);
    }
    RepeatedSlugHalf(truth, "java-test");
  }

  /** How many entries of `slugs` are among `found`. */
  function CountFound(slugs: seq<string>, found: set<string>): (n: nat)
    ensures n <= |slugs|
    ensures n == |slugs| <==> forall i :: 0 <= i < |slugs| ==> slugs[i] in found
    ensures n == 0 <==> forall i :: 0 <= i < |slugs| ==> slugs[i] !in found
  {
    if slugs == [] then 0
    else
      var init := slugs[..|slugs| - 1];
      assert forall i :: 0 <= i < |init| ==> init[i] == slugs[i];
      CountFound(init, found) + if slugs[|slugs| - 1] in found then 1 else 0
  }

  /** Every entry of `truth` occurs in `predicted`. */
  predicate AllFound(truth: seq<string>, predicted: seq<string>) {
    forall x :: x in truth ==> x in predicted
  }

  /** No entry of `truth` occurs in `predicted`. */
  predicate NoneFound(truth: seq<string>, predicted: seq<string>) {
    forall x :: x in truth ==> x !in predicted
  }

  /** The fraction of the entries of `truth` that occur in `predicted`. */
  function FoundRatio(truth: seq<string>, predicted: seq<string>): (r: real)
    requires truth != []
    ensures 0.0 <= r <= 1.0
    ensures r == 1.0 <==> AllFound(truth, predicted)
    ensures r == 0.0 <==> NoneFound(truth, predicted)
  {
    var found := Distinct(predicted);
    var n := CountFound(truth, found);
    assert forall i :: 0 <= i < |truth| ==> (truth[i] in found <==> truth[i] in predicted);
    Ratio(n, |truth|)
  }

  /**
   * Recall@K as the fraction of ground-truth entries whose slug is among the
   * first `k` predictions' slugs: each entry of the list counts once, so the
   * denominator and numerator count the same things.
   */
  function IntendedRecallAtK(predictions: seq<UrlCell>, groundTruth: seq<UrlCell>, k: int): (recall: real)
    ensures groundTruth == [] ==> recall == 0.0
    ensures 0.0 <= recall <= 1.0
    ensures groundTruth != [] ==>
      (recall == 1.0 <==> AllFound(Slugs(groundTruth), Slugs(Take(predictions, k))))
    ensures groundTruth != [] ==>
      (recall == 0.0 <==> NoneFound(Slugs(groundTruth), Slugs(Take(predictions, k))))
  {
    if groundTruth == [] then 0.0
    else
      FoundRatio(Slugs(groundTruth), Slugs(Take(predictions, k)))
  }

  /** Every ground-truth slug is predicted within the first `k`: `IntendedRecallAtK` is perfect, whereas `RecallAtK` (`calculate_recall_at_k`) need not be. */
  lemma IntendedRecallPerfect(groundTruth: seq<UrlCell>)
    requires groundTruth != []
    ensures IntendedRecallAtK(groundTruth, groundTruth, |groundTruth|) == 1.0
  {
    assert Take(groundTruth, |groundTruth|) == groundTruth;
  }

  /** When the ground-truth slugs are distinct, `RecallAtK` (`calculate_recall_at_k`) equals `IntendedRecallAtK`. */
  lemma RecallAgreesOnDistinctSlugs(predictions: seq<UrlCell>, groundTruth: seq<UrlCell>, k: int)
    requires forall i, j :: 0 <= i < j < |groundTruth| ==> Slugs(groundTruth)[i] != Slugs(groundTruth)[j]
    ensures RecallAtK(predictions, groundTruth, k) == IntendedRecallAtK(predictions, groundTruth, k)
  {
    if groundTruth != [] {
      var found := SlugSet(Take(predictions, k));
      NoRepeatsIff(Slugs(groundTruth));
      DistinctHits(found, Slugs(groundTruth));
      assert Hits(predictions, groundTruth, k) == found * Distinct(Slugs(groundTruth));
    }
  }

  /** No entry of the list repeats an earlier one. */
  predicate NoRepeats(xs: seq<string>) {
    xs == [] || (xs[|xs| - 1] !in xs[..|xs| - 1] && NoRepeats(xs[..|xs| - 1]))
  }

  /** A list has no repeats exactly when its entries are pairwise different. */
  lemma {:induction false} NoRepeatsIff(xs: seq<string>)
    ensures NoRepeats(xs) <==> forall i, j :: 0 <= i < j < |xs| ==> xs[i] != xs[j]
  {
    if xs != [] {
      var init := xs[..|xs| - 1];
      NoRepeatsIff(init);
      assert forall i :: 0 <= i < |init| ==> init[i] == xs[i];
      if !NoRepeats(xs) && xs[|xs| - 1] in init {
        var i :| 0 <= i < |init| && init[i] == xs[|xs| - 1];
        assert xs[i] == xs[|xs| - 1];
      }
    }
  }

  /** With distinct slugs, the entries found are as many as the slugs found. */
  lemma {:induction false} DistinctHits(found: set<string>, slugs: seq<string>)
    requires NoRepeats(slugs)
    ensures CountFound(slugs, found) == |found * Distinct(slugs)|
  {
    if slugs != [] {
      var n := |slugs|;
      var init := slugs[..n - 1];
      var last := slugs[n - 1];
      DistinctHits(found, init);
      var before := found * Distinct(init);
      assert CountFound(slugs, found) == CountFound(init, found) + if last in found then 1 else 0;
      assert found * Distinct(slugs) == if last in found then before + {last} else before by {
        DistinctLast(slugs);
      }
    }
  }

  /** The elements of a list are those of all but its last entry, and that entry. */
  lemma DistinctLast(xs: seq<string>)
    requires xs != []
    ensures Distinct(xs) == Distinct(xs[..|xs| - 1]) + {xs[|xs| - 1]}
  {
    assert xs == xs[..|xs| - 1] + [xs[|xs| - 1]];
  }
}
