/**
 * The catalog crawler (`scrape_shl_catalog`) without its browser: each pass of
 * the scroll loop sees the product cards then on the page and learns whether a
 * "Load More" button could be clicked. Records are kept in a url-keyed map in
 * insertion order; the loop stops at 377 records or after 5 passes without a
 * click.
 */
module Crawler {
  import opened Wrappers
  import opened Text
  import opened Catalog

  /** `TARGET_COUNT`. */
  const TargetCount: nat := 377
  /** Passes without a click after which the crawler gives up. */
  const StuckLimit: nat := 5
  /** Prefix put in front of every link that does not start with `http`. */
  const SiteRoot: string := "https://www.shl.com"
  /** Name fragment (compared in lower case) that marks a bundle, not an assessment. */
  const PrePackaged: string := "pre-packaged"
  /** Description given to a card that shows a single line of text. */
  const AssessmentFor: string := "Assessment for "

  /** A product link on the page: its `href` attribute (absent or not) and its visible text. */
  datatype Card = Card(href: Option<string>, innerText: string)

  /** One pass of the scroll loop: the cards in view, and whether a "Load More" button was clicked afterwards. */
  datatype Pass = Pass(cards: seq<Card>, clicked: bool)

  /** The `records` dict: items by url, and the order in which the urls were first inserted. */
  datatype Records = Records(byUrl: map<string, Item>, order: seq<string>)

  const NoRecords: Records := Records(map[], [])

  /** The record the crawler writes for an accepted card. */
  function CrawledItem(url: string, name: string, description: string): (item: Item)
    ensures StartsWith(url, "http") && |name| > 2 ==> IsCrawled(url, item)
  {
    Item(Some(url), Some(name), Some(description), Some(DefaultDuration), Some("No"), Some("Yes"), Some([KnowledgeAndSkills]))
  }

  /** An item as the crawler stores it under `url`: every key present, the fixed defaults filled in. */
  predicate IsCrawled(url: string, item: Item) {
    && StartsWith(url, "http")
    && item.url == Some(url)
    && item.name.Some? && |item.name.value| > 2
    && item.description.Some?
    && item.duration == Some(DefaultDuration)
    && item.adaptiveSupport == Some("No")
    && item.remoteSupport == Some("Yes")
    && item.testType == Some([KnowledgeAndSkills])
  }

  /** Each url is inserted once, the map and the order hold the same urls, and every record is well formed. */
  ghost predicate Valid(rs: Records) {
    && |rs.byUrl| == |rs.order|
    && (forall i, j :: 0 <= i < j < |rs.order| ==> rs.order[i] != rs.order[j])
    && (forall u :: u in rs.byUrl <==> u in rs.order)
    && (forall u :: u in rs.byUrl ==> IsCrawled(u, rs.byUrl[u]))
  }

  lemma StartsWithAppend(a: string, b: string, prefix: string)
    requires StartsWith(a, prefix)
    ensures StartsWith(a + b, prefix)
  {
    assert (a + b)[..|prefix|] == a[..|prefix|];
  }

  /** The url a link is stored under: one that does not start with `http` gets the site prefix, whatever its form. */
  function ResolveUrl(href: string): (url: string)
    ensures StartsWith(url, "http")
    ensures StartsWith(href, "http") ==> url == href
    ensures !StartsWith(href, "http") ==> url == SiteRoot + href && EndsWith(url, href)
  {
    if StartsWith(href, "http") then href
    else
      StartsWithAppend(SiteRoot, href, "http");
      assert (SiteRoot + href)[|SiteRoot|..] == href;
      SiteRoot + href
  }

  /** A stored url is stored under itself. */
  lemma ResolveUrlIdempotent(href: string)
    ensures ResolveUrl(ResolveUrl(href)) == ResolveUrl(href)
  {
  }

  /**
   * The record for a card's text, if the card is accepted: the first line,
   * stripped, is the name; a name mentioning "pre-packaged" in any letter case,
   * or of at most two characters, is refused; the stripped second line (or
   * "Assessment for " and the name) is the description.
   */
  function CardRecord(url: string, text: string): (r: Option<Item>)
    ensures r.Some? ==> r.value.name.Some? && |r.value.name.value| > 2
    ensures r.Some? ==> !Contains(Lower(r.value.name.value), PrePackaged)
    ensures r.Some? ==> r.value.name.value == Strip(Split(text, '\n')[0])
    ensures r.Some? && '\n' !in text ==> r.value.description == Some(AssessmentFor + r.value.name.value)
    ensures r.Some? ==> r.value.description.Some? && r.value == CrawledItem(url, r.value.name.value, r.value.description.value)
    ensures var name := Strip(Split(text, '\n')[0]);
      r.None? <==> |name| <= 2 || Contains(Lower(name), PrePackaged)
    ensures var lines := Split(text, '\n');
      r.Some? && |lines| > 1 ==> r.value.description == Some(Strip(lines[1]))
  {
    var lines := Split(text, '\n');
    var name := Strip(lines[0]);
    if Contains(Lower(name), PrePackaged) then None
    else if |name| > 2 then
      SplitSingle(text, '\n');
      var description := if |lines| > 1 then Strip(lines[1]) else AssessmentFor + name;
      Some(CrawledItem(url, name, description))
    else None
  }

  /** A text of a single line gives the description "Assessment for" and the name. */
  lemma SingleLineDescription(url: string, name: string)
    requires '\n' !in name && |Strip(name)| > 2 && !Contains(Lower(Strip(name)), PrePackaged)
    ensures CardRecord(url, name) == Some(CrawledItem(url, Strip(name), AssessmentFor + Strip(name)))
  {
    SplitSingle(name, '\n');
  }

  /** With more than one line, the description is the stripped second line, whatever follows it. */
  lemma MultiLineDescription(url: string, first: string, rest: string)
    requires '\n' !in first
    requires |Strip(first)| > 2 && !Contains(Lower(Strip(first)), PrePackaged)
    ensures CardRecord(url, first + "\n" + rest) == Some(CrawledItem(url, Strip(first), Strip(Split(rest, '\n')[0])))
  {
    SplitAppend(first, '\n', rest);
    SplitSingle(first, '\n');
  }

  /** Lower-casing keeps an occurrence: lower-cased text contains the lower-cased word. */
  lemma {:induction false} LowerContains(s: string, w: string)
    requires Contains(s, w)
    ensures Contains(Lower(s), Lower(w))
  {
    ContainsIff(s, w);
    var i :| OccursAt(s, w, i);
    assert Lower(s)[i..i + |w|] == Lower(w);
    ContainsAt(Lower(s), Lower(w), i);
  }

  /** A name mentioning "Pre-Packaged", "PRE-PACKAGED" or any other casing of the marker is refused. */
  lemma PrePackagedRefused(url: string, text: string, marker: string)
    requires Lower(marker) == PrePackaged
    requires Contains(Strip(Split(text, '\n')[0]), marker)
    ensures CardRecord(url, text) == None
  {
    LowerContains(Strip(Split(text, '\n')[0]), marker);
  }

  /** A stripped first line of at most two characters is refused. */
  lemma ShortNameRefused(url: string, text: string)
    requires |Strip(Split(text, '\n')[0])| <= 2
    ensures CardRecord(url, text) == None
  {
  }

  /** The effect of one card on the records (the body of the `for card in cards` loop). */
  function AddCard(rs: Records, card: Card): (rs': Records)
    ensures rs.byUrl.Keys <= rs'.byUrl.Keys
    ensures forall u :: u in rs.byUrl ==> rs'.byUrl[u] == rs.byUrl[u]
    ensures |rs.byUrl| <= |rs'.byUrl| <= |rs.byUrl| + 1
    ensures rs.order <= rs'.order && |rs'.order| <= |rs.order| + 1
    ensures rs'.byUrl == rs.byUrl ==> rs' == rs
  {
    match card.href
    case None => rs
    case Some(href) =>
      if href == [] then rs
      else
        var url := ResolveUrl(href);
        if url in rs.byUrl then rs
        else
          match CardRecord(url, card.innerText)
          case None => rs
          case Some(item) => Records(rs.byUrl[url := item], rs.order + [url])
  }

  /** A card without a link, or with an empty one, adds nothing. */
  lemma NoLinkNoRecord(rs: Records, text: string, href: Option<string>)
    requires href.None? || href == Some("")
    ensures AddCard(rs, Card(href, text)) == rs
  {
  }

  /** A card whose url is already recorded, or whose text is refused, leaves the records as they were: the first card seen for a url wins. */
  lemma KnownOrRefusedCardIgnored(rs: Records, card: Card)
    requires card.href.Some? && card.href.value != []
    requires var url := ResolveUrl(card.href.value);
      url in rs.byUrl || CardRecord(url, card.innerText).None?
    ensures AddCard(rs, card) == rs
  {
  }

  /** A card whose name mentions "pre-packaged", in any letter case, is skipped. */
  lemma PrePackagedCardSkipped(rs: Records, card: Card, marker: string)
    requires Lower(marker) == PrePackaged
    requires Contains(Strip(Split(card.innerText, '\n')[0]), marker)
    ensures AddCard(rs, card) == rs
  {
    if card.href.Some? && card.href.value != [] {
      PrePackagedRefused(ResolveUrl(card.href.value), card.innerText, marker);
    }
  }

  /** An accepted card is stored under the url its link maps to, at the end of the insertion order. */
  lemma NewCardStored(rs: Records, card: Card)
    requires card.href.Some? && card.href.value != []
    requires ResolveUrl(card.href.value) !in rs.byUrl
    requires CardRecord(ResolveUrl(card.href.value), card.innerText).Some?
    ensures var url := ResolveUrl(card.href.value);
      AddCard(rs, card) == Records(rs.byUrl[url := CardRecord(url, card.innerText).value], rs.order + [url])
  {
  }

  /** Adding a card keeps the records well formed. */
  lemma AddCardValid(rs: Records, card: Card)
    requires Valid(rs)
    ensures Valid(AddCard(rs, card))
  {
    if card.href.Some? && card.href.value != [] {
      var url := ResolveUrl(card.href.value);
      var record := CardRecord(url, card.innerText);
      if url !in rs.byUrl && record.Some? {
        InsertValid(rs, url, record.value);
      }
    }
  }

  /** Inserting a well-formed record under a new url keeps the records well formed. */
  lemma InsertValid(rs: Records, url: string, item: Item)
    requires Valid(rs) && url !in rs.byUrl && IsCrawled(url, item)
    ensures Valid(Records(rs.byUrl[url := item], rs.order + [url]))
  {
    var rs' := Records(rs.byUrl[url := item], rs.order + [url]);
    assert url !in rs.order;
    assert forall u :: u in rs'.byUrl <==> u == url || u in rs.byUrl;
    assert forall u :: u in rs'.order <==> u == url || u in rs.order;
  }

  /** The records after a whole view of cards, taken in page order. */
  function AddCards(rs: Records, cards: seq<Card>): (rs': Records)
    ensures rs.byUrl.Keys <= rs'.byUrl.Keys
    ensures forall u :: u in rs.byUrl ==> rs'.byUrl[u] == rs.byUrl[u]
    ensures |rs.byUrl| <= |rs'.byUrl| <= |rs.byUrl| + |cards|
    ensures rs.order <= rs'.order
  {
    if cards == [] then rs else AddCard(AddCards(rs, cards[..|cards| - 1]), cards[|cards| - 1])
  }

  /** A view of cards keeps the records well formed. */
  lemma {:induction false} AddCardsValid(rs: Records, cards: seq<Card>)
    requires Valid(rs)
    ensures Valid(AddCards(rs, cards))
  {
    if cards != [] {
      AddCardsValid(rs, cards[..|cards| - 1]);
      AddCardValid(AddCards(rs, cards[..|cards| - 1]), cards[|cards| - 1]);
    }
  }

  /**
   * Step A of the loop: the cards in view, one after the other, each adding its
   * record unless its url is already known.
   */
  method CollectView(records: Records, cards: seq<Card>) returns (updated: Records)
    ensures updated == AddCards(records, cards)
  {
    updated := records;
    for i := 0 to |cards|
      invariant updated == AddCards(records, cards[..i])
    {
      assert cards[..i + 1][..i] == cards[..i];
      var card := cards[i];
      if card.href.Some? && card.href.value != [] {
        var url := card.href.value;
        if !StartsWith(url, "http") {
          url := SiteRoot + url;
        }
        if url !in updated.byUrl {
          var text := Split(card.innerText, '\n');
          var name := Strip(text[0]);
          if !Contains(Lower(name), PrePackaged) && |name| > 2 {
            var description := if |text| > 1 then Strip(text[1]) else AssessmentFor + name;
            updated := Records(updated.byUrl[url := CrawledItem(url, name, description)], updated.order + [url]);
          }
        }
      }
    }
    assert cards[..|cards|] == cards;
  }

  /** Why the scroll loop ended; `OutOfPasses` is the end of the supplied passes, not a way `scrape_shl_catalog` can end. */
  datatype Exit = TargetReached | Stuck | OutOfPasses

  /** The outcome of the scroll loop: the records, the stuck counter, the passes consumed and the exit taken. */
  datatype Crawl = Crawl(records: Records, stuck: nat, passesUsed: nat, exit: Exit)

  /** How many of the passes ended without a click. */
  function Unclicked(passes: seq<Pass>): (n: nat)
    ensures n <= |passes|
  {
    if passes == [] then 0 else (if passes[0].clicked then 0 else 1) + Unclicked(passes[1..])
  }

  /**
   * The scroll loop from `records` and `stuck` on: stop when the target is
   * already met; otherwise collect a view, stop at the target, count a pass
   * without a click, and give up once the count reaches the limit.
   */
  function Run(rs: Records, stuck: nat, passes: seq<Pass>): (c: Crawl)
    ensures c.passesUsed <= |passes|
    ensures c.exit == TargetReached ==> |c.records.byUrl| >= TargetCount
    ensures c.exit == Stuck ==> c.stuck >= StuckLimit && |c.records.byUrl| < TargetCount
    ensures c.exit == OutOfPasses ==> c.passesUsed == |passes| && |c.records.byUrl| < TargetCount
    decreases |passes|
  {
    if |rs.byUrl| >= TargetCount then Crawl(rs, stuck, 0, TargetReached)
    else if passes == [] then Crawl(rs, stuck, 0, OutOfPasses)
    else
      var rs' := AddCards(rs, passes[0].cards);
      if |rs'.byUrl| >= TargetCount then Crawl(rs', stuck, 1, TargetReached)
      else
        var stuck' := if passes[0].clicked then stuck else stuck + 1;
        if stuck' >= StuckLimit then Crawl(rs', stuck', 1, Stuck)
        else
          var c := Run(rs', stuck', passes[1..]);
          c.(passesUsed := c.passesUsed + 1)
  }

  /** The scroll loop never drops a record nor replaces a record first seen earlier. */
  lemma {:induction false} RunKeepsRecords(rs: Records, stuck: nat, passes: seq<Pass>)
    ensures var c := Run(rs, stuck, passes);
      && rs.byUrl.Keys <= c.records.byUrl.Keys
      && forall u :: u in rs.byUrl ==> c.records.byUrl[u] == rs.byUrl[u]
    decreases |passes|
  {
    if |rs.byUrl| < TargetCount && passes != [] {
      var rs' := AddCards(rs, passes[0].cards);
      var stuck' := if passes[0].clicked then stuck else stuck + 1;
      if |rs'.byUrl| < TargetCount && stuck' < StuckLimit {
        RunKeepsRecords(rs', stuck', passes[1..]);
      }
    }
  }

  /** A crawl outcome counted after `n` earlier passes. */
  function Shift(c: Crawl, n: nat): Crawl {
    c.(passesUsed := c.passesUsed + n)
  }

  /** One turn of the scroll loop, for a loop that has not yet met the target and has a pass left. */
  lemma RunStep(rs: Records, stuck: nat, passes: seq<Pass>)
    requires |rs.byUrl| < TargetCount && passes != []
    ensures var rs' := AddCards(rs, passes[0].cards);
      var stuck' := if passes[0].clicked then stuck else stuck + 1;
      var c := Run(rs', stuck', passes[1..]);
      Run(rs, stuck, passes) ==
        if |rs'.byUrl| >= TargetCount then Crawl(rs', stuck, 1, TargetReached)
        else if stuck' >= StuckLimit then Crawl(rs', stuck', 1, Stuck)
        else Shift(c, 1)
  {
  }

  /** Unless the target ends it, the stuck counter has counted exactly the passes without a click. */
  lemma {:induction false} RunCountsUnclicked(rs: Records, stuck: nat, passes: seq<Pass>)
    requires stuck < StuckLimit
    ensures var c := Run(rs, stuck, passes);
      c.exit != TargetReached ==> c.stuck == stuck + Unclicked(passes[..c.passesUsed])
    decreases |passes|
  {
    if |rs.byUrl| < TargetCount && passes != [] {
      var rs' := AddCards(rs, passes[0].cards);
      var stuck' := if passes[0].clicked then stuck else stuck + 1;
      RunStep(rs, stuck, passes);
      if |rs'.byUrl| < TargetCount && stuck' < StuckLimit {
        RunCountsUnclicked(rs', stuck', passes[1..]);
        var n := Run(rs', stuck', passes[1..]).passesUsed;
        assert passes[..n + 1][1..] == passes[1..][..n];
      } else {
        assert passes[..1][1..] == [];
      }
    } else {
      assert passes[..0] == [];
    }
  }

  /** The stuck counter never passes the limit, and the loop gives up exactly when it reaches it. */
  lemma {:induction false} RunStuckAtLimit(rs: Records, stuck: nat, passes: seq<Pass>)
    requires stuck < StuckLimit
    ensures var c := Run(rs, stuck, passes);
      && c.stuck <= StuckLimit
      && (c.exit == Stuck <==> c.stuck == StuckLimit)
    decreases |passes|
  {
    if |rs.byUrl| < TargetCount && passes != [] {
      var rs' := AddCards(rs, passes[0].cards);
      var stuck' := if passes[0].clicked then stuck else stuck + 1;
      RunStep(rs, stuck, passes);
      if |rs'.byUrl| < TargetCount && stuck' < StuckLimit {
        RunStuckAtLimit(rs', stuck', passes[1..]);
      }
    }
  }

  /**
   * The loop stops at the first pass that meets its exit condition: every
   * shorter run of the same passes would still have been going when its passes
   * ran out.
   */
  lemma {:induction false} RunStopsAtFirstExit(rs: Records, stuck: nat, passes: seq<Pass>, n: nat)
    requires n < Run(rs, stuck, passes).passesUsed
    ensures Run(rs, stuck, passes[..n]).exit == OutOfPasses
    decreases |passes|
  {
    var rs' := AddCards(rs, passes[0].cards);
    var stuck' := if passes[0].clicked then stuck else stuck + 1;
    RunStep(rs, stuck, passes);
    if n > 0 {
      RunStep(rs, stuck, passes[..n]);
      assert passes[..n][0] == passes[0];
      assert passes[..n][1..] == passes[1..][..n - 1];
      RunStopsAtFirstExit(rs', stuck', passes[1..], n - 1);
    }
  }

  /** The scroll loop keeps the records well formed. */
  lemma {:induction false} RunValid(rs: Records, stuck: nat, passes: seq<Pass>)
    requires Valid(rs)
    ensures Valid(Run(rs, stuck, passes).records)
    decreases |passes|
  {
    if |rs.byUrl| < TargetCount && passes != [] {
      AddCardsValid(rs, passes[0].cards);
      var rs' := AddCards(rs, passes[0].cards);
      var stuck' := if passes[0].clicked then stuck else stuck + 1;
      if |rs'.byUrl| < TargetCount && stuck' < StuckLimit {
        RunValid(rs', stuck', passes[1..]);
      }
    }
  }

  /** `list(records.values())`: the records in the order their urls were first seen. */
  function Saved(byUrl: map<string, Item>, order: seq<string>): (items: seq<Item>)
    requires forall u :: u in order ==> u in byUrl
    ensures |items| == |order|
    ensures forall i :: 0 <= i < |order| ==> items[i] == byUrl[order[i]]
  {
    if order == [] then [] else Saved(byUrl, order[..|order| - 1]) + [byUrl[order[|order| - 1]]]
  }

  /** What one turn of the scroll loop leaves is the first step of `Run`: its outcome, or the state the rest starts from. */
  lemma ScrollPassRuns(rs: Records, stuck: nat, passes: seq<Pass>, rs': Records, stuck': nat, stop: Option<Exit>)
    requires |rs.byUrl| < TargetCount && passes != []
    requires rs' == AddCards(rs, passes[0].cards)
    requires stuck' == if |rs'.byUrl| >= TargetCount || passes[0].clicked then stuck else stuck + 1
    requires stop == if |rs'.byUrl| >= TargetCount then Some(TargetReached)
      else if stuck' >= StuckLimit then Some(Stuck) else None
    ensures stop.Some? ==> Run(rs, stuck, passes) == Crawl(rs', stuck', 1, stop.value)
    ensures stop.None? ==> Run(rs, stuck, passes) == Shift(Run(rs', stuck', passes[1..]), 1)
  {
    RunStep(rs, stuck, passes);
  }

  /**
   * One turn of the scroll loop: collect the view (step A), stop at the target,
   * otherwise count a pass without a click (step B) and stop at the limit.
   */
  method ScrollPass(records: Records, stuck: nat, pass: Pass) returns (updated: Records, stuck': nat, stop: Option<Exit>)
    ensures updated == AddCards(records, pass.cards)
    ensures |records.byUrl| <= |updated.byUrl|
    ensures stuck' == if |updated.byUrl| >= TargetCount || pass.clicked then stuck else stuck + 1
    ensures stop == if |updated.byUrl| >= TargetCount then Some(TargetReached)
      else if stuck' >= StuckLimit then Some(Stuck) else None
  {
    var startCount := |records.byUrl|;
    updated := CollectView(records, pass.cards);
    var currentCount := |updated.byUrl|;
    var newItems := currentCount - startCount;
    assert newItems >= 0;
    stuck' := stuck;
    if currentCount >= TargetCount {
      return updated, stuck', Some(TargetReached);
    }
    if !pass.clicked {
      stuck' := stuck' + 1;
    }
    stop := if stuck' >= StuckLimit then Some(Stuck) else None;
  }

  /**
   * `scrape_shl_catalog` after the page has loaded: the scroll loop over the
   * passes, then the records to be written, in insertion order.
   */
  method ScrapeCatalog(passes: seq<Pass>) returns (crawl: Crawl, saved: seq<Item>)
    ensures crawl == Run(NoRecords, 0, passes)
    ensures Valid(crawl.records)
    ensures saved == Saved(crawl.records.byUrl, crawl.records.order)
  {
    var records := NoRecords;
    var stuckCounter: nat := 0;
    var used := 0;
    var exit := OutOfPasses;
    ghost var whole := Run(NoRecords, 0, passes);
    assert passes[0..] == passes;
    while |records.byUrl| < TargetCount
      invariant 0 <= used <= |passes|
      invariant whole == Shift(Run(records, stuckCounter, passes[used..]), used)
      decreases |passes| - used
    {
      if used == |passes| {
        crawl := Crawl(records, stuckCounter, used, OutOfPasses);
        RunValid(NoRecords, 0, passes);
        saved := Saved(records.byUrl, records.order);
        return;
      }
      ghost var rest := passes[used..];
      assert rest[0] == passes[used] && rest[1..] == passes[used + 1..];
      ghost var (before, stuckBefore) := (records, stuckCounter);
      var stop;
      records, stuckCounter, stop := ScrollPass(records, stuckCounter, passes[used]);
      ScrollPassRuns(before, stuckBefore, rest, records, stuckCounter, stop);
      used := used + 1;
      if stop.Some? {
        exit := stop.value;
        break;
      }
    }
    // Reached only if the loop guard fails, which the breaks above rule out; the branch exists for the verifier.
    if exit == OutOfPasses {
      exit := TargetReached;
    }
    crawl := Crawl(records, stuckCounter, used, exit);
    RunValid(NoRecords, 0, passes);
    saved := Saved(records.byUrl, records.order);
  }
}
