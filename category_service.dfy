/** The category service (category_service.py): each operation updates the shared
    database in place and is proved to do what the value-level operation in
    CategoryTree prescribes. */
module CategoryServices {
  import opened Schemas
  import opened Models
  import opened CategoryTree

  /** The category part of the database, as a value. */
  function StoreOf(db: InMemoryDatabase): Store
    reads db
  {
    Store(db.categories, db.categoryTree)
  }

  class CategoryService {
    const db: InMemoryDatabase

    constructor (db: InMemoryDatabase)
      ensures this.db == db
    {
      this.db := db;
    }

    method CreateCategory(category: Category) returns (r: Result<Category, Error>)
      modifies db`categories, db`categoryTree
      ensures Outcome(r, StoreOf(db)) == Create(old(StoreOf(db)), category)
    {
      if Truthy(category.parentName) {
        if category.parentName.value !in db.categories {
          return Failure(NotFound(ParentNotFound));
        }
        var siblings := ChildList(db.categoryTree, category.parentName);
        db.categoryTree := db.categoryTree[category.parentName := siblings + [category.name]];
      } else {
        if None !in db.categoryTree {
          return Failure(KeyError);
        }
        db.categoryTree := db.categoryTree[None := db.categoryTree[None] + [category.name]];
      }
      db.categories := db.categories[category.name := category];
      return Success(db.categories[category.name]);
    }

    method UpdateCategory(name: string, categoryData: CategoryUpdate) returns (r: Result<Category, Error>)
      modifies db`categories
      ensures Outcome(r, StoreOf(db)) == Update(old(StoreOf(db)), name, categoryData)
    {
      if name !in db.categories {
        return Failure(NotFound(CategoryNotFound));
      }
      var current := db.categories[name];
      // one assignment per explicitly set field
      current := current.(name := categoryData.name);
      if categoryData.description.Set? {
        current := current.(description := categoryData.description.value);
      }
      if categoryData.image.Set? {
        current := current.(image := categoryData.image.value);
      }
      if categoryData.parentName.Set? {
        current := current.(parentName := categoryData.parentName.value);
      }
      if categoryData.children.Set? {
        current := current.(children := categoryData.children.value);
      }
      db.categories := db.categories[name := current];
      return Success(db.categories[name]);
    }

    method DeleteCategory(name: string) returns (r: Result<string, Error>)
      modifies db`categories, db`categoryTree
      ensures Outcome(r, StoreOf(db)) == Delete(old(StoreOf(db)), name)
    {
      if name !in db.categories {
        return Failure(NotFound(CategoryNotFound));
      }
      var parentName := db.categories[name].parentName;
      if parentName in db.categoryTree {
        if name !in db.categoryTree[parentName] {
          return Failure(ValueError);
        }
        db.categoryTree := db.categoryTree[parentName := RemoveFirst(db.categoryTree[parentName], name)];
      }
      db.categories := db.categories - {name};
      return Success(DeletedMessage(name));
    }

    method MoveCategory(name: string, newParentName: Option<string>) returns (r: Result<Category, Error>)
      modifies db`categories, db`categoryTree
      ensures Outcome(r, StoreOf(db)) == Move(old(StoreOf(db)), name, newParentName)
    {
      if name !in db.categories {
        return Failure(NotFound(CategoryNotFound));
      }
      if newParentName.Some? && newParentName.value !in db.categories {
        return Failure(NotFound(NewParentNotFound));
      }
      var current := db.categories[name];
      var currentParentName := current.parentName;
      if currentParentName in db.categoryTree {
        if name !in db.categoryTree[currentParentName] {
          return Failure(ValueError);
        }
        db.categoryTree := db.categoryTree[currentParentName := RemoveFirst(db.categoryTree[currentParentName], name)];
      }
      current := current.(parentName := newParentName);
      db.categories := db.categories[name := current];
      if newParentName.None? {
        if None !in db.categoryTree {
          return Failure(KeyError);
        }
        db.categoryTree := db.categoryTree[None := db.categoryTree[None] + [name]];
      } else {
        var siblings := ChildList(db.categoryTree, newParentName);
        db.categoryTree := db.categoryTree[newParentName := siblings + [name]];
      }
      return Success(db.categories[name]);
    }

    method GetCategory(name: string) returns (r: Result<Category, Error>)
      ensures name !in db.categories ==> r == Failure(NotFound(CategoryNotFound))
      ensures name in db.categories ==> r == Success(db.categories[name])
      ensures r == Get(StoreOf(db), name)
    {
      if name !in db.categories {
        return Failure(NotFound(CategoryNotFound));
      }
      return Success(db.categories[name]);
    }

    /** Lists the child records of `parentName` (root level for `None`) in insertion order. */
    method GetCategories(parentName: Option<string>) returns (r: Result<seq<Category>, Error>)
      ensures parentName.Some? && parentName.value !in db.categories ==>
                r == Failure(NotFound(ParentNotFound))
      ensures (parentName.None? || parentName.value in db.categories) ==>
                var names := ChildList(db.categoryTree, parentName);
                && (r.Success? <==> forall i :: 0 <= i < |names| ==> names[i] in db.categories)
                && (r.Failure? ==> r.error == KeyError)
                && (r.Success? ==> |r.value| == |names|)
                && (r.Success? ==> forall i :: 0 <= i < |names| ==> r.value[i] == db.categories[names[i]])
    {
      r := CategoryTree.GetCategories(StoreOf(db), parentName);
    }
  }
}
