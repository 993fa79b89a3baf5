/** Record types of the category store (schemas.py) and the error results that
    stand in for the exceptions the services raise. */
module Schemas {

  datatype Option<+T> = None | Some(value: T)

  datatype Result<+R, +E> = Success(value: R) | Failure(error: E)

  /** A field of a partial update: either left unset by the caller or set to a value
      (which may itself be `None`, meaning "explicitly cleared"). */
  datatype Field<+T> = Unset | Set(value: T)

  /** A stored category. `parentName == None` means the category sits at root level.
      `children` is part of the record but no service ever fills it. */
  datatype Category = Category(
    name: string,
    description: Option<string>,
    image: Option<string>,
    parentName: Option<string>,
    children: seq<Category>)

  /** The body of an update request. `name` is a required field of the record type,
      so it is always among the explicitly set fields and is always applied. */
  datatype CategoryUpdate = CategoryUpdate(
    name: string,
    description: Field<Option<string>>,
    image: Field<Option<string>>,
    parentName: Field<Option<string>>,
    children: Field<seq<Category>>)

  /** A similarity request: an unordered pair of category names. */
  datatype Similarity = Similarity(categoryName1: string, categoryName2: string)

  /** Failures: the 404 not-found responses with their detail text, and the two
      built-in Python errors the code can run into on an inconsistent store. */
  datatype Error =
    | NotFound(detail: string)
    | KeyError    // a dictionary lookup of an absent key
    | ValueError  // `list.remove` of a name that is not in the list

  const CategoryNotFound := "Category not found"
  const ParentNotFound := "Parent category not found"
  const NewParentNotFound := "New parent category not found"
  const OneOrBothNotFound := "One or both categories not found"

  /** Python truthiness of an optional string: `None` and `""` are false. */
  predicate Truthy(s: Option<string>) {
    s.Some? && s.value != ""
  }

  function Overwrite<T>(current: T, f: Field<T>): T {
    match f
    case Unset => current
    case Set(v) => v
  }

  /** Applies the explicitly set fields of `u` to `c`; unset fields keep their value. */
  function Merge(c: Category, u: CategoryUpdate): (r: Category)
    ensures r.name == u.name
    ensures u.description.Unset? ==> r.description == c.description
    ensures u.image.Unset? ==> r.image == c.image
    ensures u.parentName.Unset? ==> r.parentName == c.parentName
    ensures u.children.Unset? ==> r.children == c.children
    ensures u.description.Set? ==> r.description == u.description.value
    ensures u.image.Set? ==> r.image == u.image.value
    ensures u.parentName.Set? ==> r.parentName == u.parentName.value
    ensures u.children.Set? ==> r.children == u.children.value
  {
    Category(u.name, Overwrite(c.description, u.description), Overwrite(c.image, u.image),
             Overwrite(c.parentName, u.parentName), Overwrite(c.children, u.children))
  }

  /** Applying the same partial update twice is the same as applying it once. */
  lemma MergeIdempotent(c: Category, u: CategoryUpdate)
    ensures Merge(Merge(c, u), u) == Merge(c, u)
  {
  }
}
