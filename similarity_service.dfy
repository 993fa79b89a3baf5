/** The similarity service (similarity_service.py): a set of ordered name pairs kept
    symmetric by inserting and discarding both directions together. */
module Similarities {
  import opened Schemas
  import opened Models

  type Pairs = set<(string, string)>

  /** Every pair is present in both directions. */
  ghost predicate SymmetricPairs(sims: Pairs) {
    forall a, b :: (a, b) in sims ==> (b, a) in sims
  }

  /** The set after `add((a, b))` and `add((b, a))`. */
  function Added(sims: Pairs, a: string, b: string): (r: Pairs)
    ensures (a, b) in r && (b, a) in r
    ensures sims <= r && r - sims <= {(a, b), (b, a)}
    ensures SymmetricPairs(sims) ==> SymmetricPairs(r)
  {
    sims + {(a, b), (b, a)}
  }

  /** The set after `discard((a, b))` and `discard((b, a))`. */
  function Removed(sims: Pairs, a: string, b: string): (r: Pairs)
    ensures (a, b) !in r && (b, a) !in r
    ensures r <= sims && sims - r <= {(a, b), (b, a)}
    ensures SymmetricPairs(sims) ==> SymmetricPairs(r)
  {
    sims - {(a, b), (b, a)}
  }

  /** The distinct `y` with `(name, y)` in the set. */
  function SimilarNames(sims: Pairs, name: string): (r: set<string>)
    ensures forall y :: y in r <==> (name, y) in sims
  {
    set p | p in sims && p.0 == name :: p.1
  }

  /** Re-adding a pair that is already there changes nothing. */
  lemma AddExistingIsNoOp(sims: Pairs, a: string, b: string)
    requires SymmetricPairs(sims)
    requires (a, b) in sims
    ensures Added(sims, a, b) == sims
  {
  }

  /** Deleting a pair that is absent changes nothing. */
  lemma RemoveAbsentIsNoOp(sims: Pairs, a: string, b: string)
    requires SymmetricPairs(sims)
    requires (a, b) !in sims
    ensures Removed(sims, a, b) == sims
  {
  }

  /** After an add, each endpoint is among the other's similar names; after a
      delete, neither is. */
  lemma AddRemoveNeighbours(sims: Pairs, a: string, b: string)
    ensures b in SimilarNames(Added(sims, a, b), a) && a in SimilarNames(Added(sims, a, b), b)
    ensures b !in SimilarNames(Removed(sims, a, b), a) && a !in SimilarNames(Removed(sims, a, b), b)
  {
  }

  /** Deleting undoes adding a pair that was absent in both directions. */
  lemma RemoveUndoesAdd(sims: Pairs, a: string, b: string)
    requires (a, b) !in sims && (b, a) !in sims
    ensures Removed(Added(sims, a, b), a, b) == sims
  {
  }

  class SimilarityService {
    const db: InMemoryDatabase

    constructor (db: InMemoryDatabase)
      ensures this.db == db
    {
      this.db := db;
    }

    method CreateSimilarity(similarity: Similarity) returns (r: Result<(), Error>)
      modifies db`similarities
      ensures var a, b := similarity.categoryName1, similarity.categoryName2;
              if a in db.categories && b in db.categories then
                r == Success(()) && db.similarities == Added(old(db.similarities), a, b)
              else
                r == Failure(NotFound(OneOrBothNotFound)) && db.similarities == old(db.similarities)
    {
      var a, b := similarity.categoryName1, similarity.categoryName2;
      if a !in db.categories || b !in db.categories {
        return Failure(NotFound(OneOrBothNotFound));
      }
      db.similarities := db.similarities + {(a, b)};
      db.similarities := db.similarities + {(b, a)};
      return Success(());
    }

    /** Deleting never fails, whether or not the pair is present. */
    method DeleteSimilarity(similarity: Similarity) returns (r: Result<(), Error>)
      modifies db`similarities
      ensures r == Success(())
      ensures db.similarities == Removed(old(db.similarities), similarity.categoryName1, similarity.categoryName2)
    {
      var a, b := similarity.categoryName1, similarity.categoryName2;
      db.similarities := db.similarities - {(a, b)};
      db.similarities := db.similarities - {(b, a)};
      return Success(());
    }

    /** The records of the names similar to `name`, one per distinct name, in an
        unspecified order; `names` is the order the records come in. */
    method GetSimilarities(name: string) returns (r: Result<seq<Category>, Error>, ghost names: seq<string>)
      ensures name !in db.categories ==> r == Failure(NotFound(CategoryNotFound))
      ensures name in db.categories ==>
                (r.Success? <==> SimilarNames(db.similarities, name) <= db.categories.Keys)
      ensures name in db.categories && r.Failure? ==> r.error == KeyError
      ensures r.Success? ==>
                && (forall y :: y in names <==> (name, y) in db.similarities)
                && (forall i, j :: 0 <= i < j < |names| ==> names[i] != names[j])
                && |r.value| == |names|
                && (forall i :: 0 <= i < |names| ==> names[i] in db.categories && r.value[i] == db.categories[names[i]])
    {
      names := [];
      if name !in db.categories {
        return Failure(NotFound(CategoryNotFound)), names;
      }
      var similar := SimilarNames(db.similarities, name);
      var rest := similar;
      var records: seq<Category> := [];
      while rest != {}
        invariant rest <= similar
        invariant forall y :: y in names <==> y in similar && y !in rest
        invariant forall i, j :: 0 <= i < j < |names| ==> names[i] != names[j]
        invariant |records| == |names|
        invariant forall i :: 0 <= i < |names| ==> names[i] in db.categories && records[i] == db.categories[names[i]]
        decreases rest
      {
        var y :| y in rest;
        if y !in db.categories {
          return Failure(KeyError), names;
        }
        records := records + [db.categories[y]];
        names := names + [y];
        rest := rest - {y};
      }
      return Success(records), names;
    }
  }
}
