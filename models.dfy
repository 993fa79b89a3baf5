/** The in-memory database shared by all services (models.py). */
module Models {
  import opened Schemas

  class InMemoryDatabase {
    /** Category records by name. */
    var categories: map<string, Category>
    /** Hierarchy index: parent name (or `None` for root level) to its ordered child names. */
    var categoryTree: map<Option<string>, seq<string>>
    /** Similarity relation as a set of ordered name pairs. */
    var similarities: set<(string, string)>

    constructor ()
      ensures categories == map[]
      ensures categoryTree == map[None := []]
      ensures similarities == {}
    {
      categories := map[];
      categoryTree := map[None := []];
      similarities := {};
    }
  }
}
