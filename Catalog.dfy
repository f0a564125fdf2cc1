/** The catalog record shared by the crawler, the index builder and the recommender. */
module Catalog {
  import opened Wrappers

  /**
   * One catalog entry as a JSON object: the record the crawler saves, the item the
   * index builder reads and the metadata a similarity search hands back. A key the
   * object does not carry is `None`.
   */
  datatype Item = Item(
    url: Option<string>,
    name: Option<string>,
    description: Option<string>,
    duration: Option<int>,
    adaptiveSupport: Option<string>,
    remoteSupport: Option<string>,
    testType: Option<seq<string>>)

  /** The test-type label the crawler fills in and the recommender falls back to. */
  const KnowledgeAndSkills: string := "Knowledge & Skills"

  /** Minutes assumed for an assessment whose duration is unknown. */
  const DefaultDuration: int := 30
}
