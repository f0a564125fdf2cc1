/**
 * How the stages fit together: what the crawler saves is what ingestion needs,
 * and the records built from it never trigger the re-ranking's key.
 */
module Pipeline {
  import opened Wrappers
  import opened Text
  import opened Catalog
  import Crawler
  import Ingestion
  import Recommender

  /** Every item the crawler saves has a name, a description and test types, so ingestion of the saved catalog succeeds. */
  lemma CatalogIngests(records: Crawler.Records)
    requires Crawler.Valid(records)
    ensures var saved := Crawler.Saved(records.byUrl, records.order);
      && Ingestion.BuildDocuments(saved).Success?
      && |Ingestion.BuildDocuments(saved).value| == |records.order|
  {
    var saved := Crawler.Saved(records.byUrl, records.order);
    forall i | 0 <= i < |saved|
      ensures Ingestion.FirstMissingKey(saved[i]).None?
    {
      assert records.order[i] in records.byUrl;
      assert Crawler.IsCrawled(records.order[i], saved[i]);
    }
  }

  /** Records whose single test type never mentions "Personality" stay in search order under the re-ranking. */
  lemma SingleTypeKeepsOrder(docs: seq<Item>, t: string)
    requires !Contains(t, Recommender.Personality)
    requires forall i :: 0 <= i < |docs| ==> docs[i].testType == Some([t])
    ensures Recommender.Partition(Recommender.FormatAll(docs)) == Recommender.FormatAll(docs)
  {
    var rs := Recommender.FormatAll(docs);
    assert forall i :: 0 <= i < |rs| ==> !Recommender.HasPersonality(rs[i]);
    Recommender.UnkeyedUnmoved(rs);
  }

  /**
   * Search results whose metadata are crawled items all carry the single test
   * type "Knowledge & Skills", so the personality re-ranking leaves them in
   * search order.
   */
  lemma CrawledResultsKeepOrder(docs: seq<Item>)
    requires forall i :: 0 <= i < |docs| ==> docs[i].testType == Some([KnowledgeAndSkills])
    ensures Recommender.Partition(Recommender.FormatAll(docs)) == Recommender.FormatAll(docs)
  {
    Recommender.KnowledgeLacksPersonality();
    SingleTypeKeepsOrder(docs, KnowledgeAndSkills);
  }
}
