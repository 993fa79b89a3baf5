/** The category hierarchy store as values: what each operation of the category
    service does to the record map and the hierarchy index, and the invariants those
    operations keep. The class in category_service.dfy is proved against these. */
module CategoryTree {
  import opened Schemas

  /** Records by name, and the hierarchy index (parent key to ordered child names). */
  datatype Store = Store(categories: map<string, Category>, tree: map<Option<string>, seq<string>>)

  /** What an operation returns, together with the store it leaves behind. */
  datatype Outcome<+T> = Outcome(result: Result<T, Error>, store: Store)

  /** The child list under `key`, or the empty list when the index has no entry
      (`dict.get(key, [])`, and the list `setdefault(key, [])` would create). */
  function ChildList(tree: map<Option<string>, seq<string>>, key: Option<string>): seq<string> {
    if key in tree then tree[key] else []
  }

  /** Index of the first occurrence of `x` in `xs`. */
  function IndexOf(xs: seq<string>, x: string): (i: nat)
    requires x in xs
    ensures i < |xs| && xs[i] == x && x !in xs[..i]
  {
    if xs[0] == x then 0 else 1 + IndexOf(xs[1..], x)
  }

  /** `list.remove(x)`: drops the first occurrence of `x`, keeping the order of the rest. */
  function RemoveFirst(xs: seq<string>, x: string): (r: seq<string>)
    requires x in xs
    ensures r == xs[..IndexOf(xs, x)] + xs[IndexOf(xs, x) + 1..]
    ensures multiset(r) == multiset(xs) - multiset{x}
  {
    var i := IndexOf(xs, x);
    assert xs == xs[..i] + [x] + xs[i + 1..];
    xs[..i] + xs[i + 1..]
  }

  /** The list a new category is filed under: its parent when the parent name is
      truthy, the root list otherwise (so a parent name of "" files it at root). */
  function CreateKey(c: Category): Option<string> {
    if Truthy(c.parentName) then c.parentName else None
  }

  /** create_category */
  function Create(s: Store, c: Category): (o: Outcome<Category>)
    ensures Truthy(c.parentName) && c.parentName.value !in s.categories ==>
              o == Outcome(Failure(NotFound(ParentNotFound)), s)
    ensures !Truthy(c.parentName) && None !in s.tree ==> o == Outcome(Failure(KeyError), s)
    ensures o.result.Failure? ==> o.store == s
    ensures o.result.Success? <==>
              (Truthy(c.parentName) ==> c.parentName.value in s.categories) &&
              (!Truthy(c.parentName) ==> None in s.tree)
    ensures o.result.Success? ==>
              && o.result.value == c
              && o.store.categories == s.categories[c.name := c]
              && o.store.tree.Keys == s.tree.Keys + {CreateKey(c)}
              && o.store.tree[CreateKey(c)] == ChildList(s.tree, CreateKey(c)) + [c.name]
              && (forall k :: k in s.tree && k != CreateKey(c) ==> o.store.tree[k] == s.tree[k])
  {
    if Truthy(c.parentName) && c.parentName.value !in s.categories then
      Outcome(Failure(NotFound(ParentNotFound)), s)
    else if !Truthy(c.parentName) && None !in s.tree then
      Outcome(Failure(KeyError), s)
    else
      var key := CreateKey(c);
      Outcome(Success(c), Store(s.categories[c.name := c], s.tree[key := ChildList(s.tree, key) + [c.name]]))
  }

  /** update_category: the set fields of `u` overwrite the record, which stays under its old key. */
  function Update(s: Store, name: string, u: CategoryUpdate): (o: Outcome<Category>)
    ensures name !in s.categories <==> o == Outcome(Failure(NotFound(CategoryNotFound)), s)
    ensures name in s.categories ==>
              && o.result == Success(Merge(s.categories[name], u))
              && o.store.categories.Keys == s.categories.Keys
              && o.store.categories[name] == o.result.value
              && (forall n :: n in s.categories && n != name ==> o.store.categories[n] == s.categories[n])
              && o.store.tree == s.tree
  {
    if name !in s.categories then Outcome(Failure(NotFound(CategoryNotFound)), s)
    else
      var updated := Merge(s.categories[name], u);
      Outcome(Success(updated), Store(s.categories[name := updated], s.tree))
  }

  function DeletedMessage(name: string): string {
    "Category '" + name + "' deleted successfully"
  }

  /** delete_category: unlinks the name from its parent's list (when that list exists)
      and drops the record; children are left as they are. */
  function Delete(s: Store, name: string): (o: Outcome<string>)
    ensures name !in s.categories ==> o == Outcome(Failure(NotFound(CategoryNotFound)), s)
    ensures o.result.Failure? ==> o.store == s
    ensures name in s.categories && o.result.Failure? ==>
              var p := s.categories[name].parentName;
              o.result.error == ValueError && p in s.tree && name !in s.tree[p]
    ensures o.result.Success? ==>
              && o.result.value == DeletedMessage(name)
              && o.store.categories == s.categories - {name}
              && o.store.tree.Keys == s.tree.Keys
              && var p := s.categories[name].parentName;
                 && (p in s.tree ==> name in s.tree[p] && o.store.tree[p] == RemoveFirst(s.tree[p], name))
                 && (forall k :: k in s.tree && k != p ==> o.store.tree[k] == s.tree[k])
  {
    if name !in s.categories then Outcome(Failure(NotFound(CategoryNotFound)), s)
    else
      var p := s.categories[name].parentName;
      if p in s.tree && name !in s.tree[p] then Outcome(Failure(ValueError), s)
      else
        var tree := if p in s.tree then s.tree[p := RemoveFirst(s.tree[p], name)] else s.tree;
        Outcome(Success(DeletedMessage(name)), Store(s.categories - {name}, tree))
  }

  /** move_category: unlink from the old parent's list, set the parent, append to the
      new parent's list (the root list for `None`). */
  function Move(s: Store, name: string, newParent: Option<string>): (o: Outcome<Category>)
    ensures name !in s.categories ==> o == Outcome(Failure(NotFound(CategoryNotFound)), s)
    ensures name in s.categories && newParent.Some? && newParent.value !in s.categories ==>
              o == Outcome(Failure(NotFound(NewParentNotFound)), s)
    ensures o.result.Failure? && o.result.error != KeyError ==> o.store == s
    ensures o.store.categories.Keys == s.categories.Keys
    ensures forall n :: n in s.categories && n != name ==> o.store.categories[n] == s.categories[n]
    ensures o.result.Success? ==>
              && o.result.value == s.categories[name].(parentName := newParent)
              && o.store.categories[name] == o.result.value
              && Unlinkable(s, name)
              && o.store.tree.Keys == s.tree.Keys + {newParent}
              && ChildList(o.store.tree, newParent) == ChildList(MoveUnlinked(s, name), newParent) + [name]
              && (forall k :: k in s.tree && k != newParent && k != s.categories[name].parentName ==>
                    o.store.tree[k] == s.tree[k])
              && var p := s.categories[name].parentName;
                 p in s.tree && p != newParent ==> o.store.tree[p] == RemoveFirst(s.tree[p], name)
    ensures o.result.Success? <==>
              && name in s.categories && (newParent.None? || newParent.value in s.categories)
              && Unlinkable(s, name) && (newParent.Some? || None in s.tree)
    ensures name in s.categories && (newParent.None? || newParent.value in s.categories) && !Unlinkable(s, name) ==>
              o == Outcome(Failure(ValueError), s)
    ensures Unlinkable(s, name) && newParent.None? && None !in s.tree ==> o.result == Failure(KeyError)
    ensures o.result.Failure? && o.result.error == KeyError ==>
              && newParent.None? && None !in s.tree && Unlinkable(s, name)
              && o.store == Store(s.categories[name := s.categories[name].(parentName := None)], MoveUnlinked(s, name))
  {
    if name !in s.categories then Outcome(Failure(NotFound(CategoryNotFound)), s)
    else if newParent.Some? && newParent.value !in s.categories then
      Outcome(Failure(NotFound(NewParentNotFound)), s)
    else
      var current := s.categories[name];
      var oldKey := current.parentName;
      if oldKey in s.tree && name !in s.tree[oldKey] then Outcome(Failure(ValueError), s)
      else
        var unlinked := MoveUnlinked(s, name);
        var moved := current.(parentName := newParent);
        var categories := s.categories[name := moved];
        if newParent.None? && None !in unlinked then
          // `category_tree[None]` raises after the record has already been re-parented
          Outcome(Failure(KeyError), Store(categories, unlinked))
        else
          Outcome(Success(moved), Store(categories, unlinked[newParent := ChildList(unlinked, newParent) + [name]]))
  }

  /** `name` is stored and, when its parent's list exists, listed in it, so that
      `list.remove` succeeds. */
  predicate Unlinkable(s: Store, name: string) {
    name in s.categories &&
    var p := s.categories[name].parentName; p in s.tree ==> name in s.tree[p]
  }

  /** The hierarchy index once `name` has been taken out of its current parent's list. */
  function MoveUnlinked(s: Store, name: string): (tree: map<Option<string>, seq<string>>)
    requires Unlinkable(s, name)
    ensures tree.Keys == s.tree.Keys
  {
    var p := s.categories[name].parentName;
    if p in s.tree then s.tree[p := RemoveFirst(s.tree[p], name)] else s.tree
  }

  /** get_category */
  function Get(s: Store, name: string): (r: Result<Category, Error>)
    ensures name in s.categories <==> r.Success?
    ensures r.Success? ==> r.value == s.categories[name]
    ensures r.Failure? ==> r.error == NotFound(CategoryNotFound)
  {
    if name in s.categories then Success(s.categories[name]) else Failure(NotFound(CategoryNotFound))
  }

  /** The records of a list of names, in list order; a name with no record is a KeyError. */
  function Records(categories: map<string, Category>, names: seq<string>): (r: Result<seq<Category>, Error>)
    ensures r.Success? <==> forall i :: 0 <= i < |names| ==> names[i] in categories
    ensures r.Success? ==> |r.value| == |names|
    ensures r.Success? ==> forall i :: 0 <= i < |names| ==> r.value[i] == categories[names[i]]
    ensures r.Failure? ==> r.error == KeyError
  {
    if names == [] then Success([])
    else if names[0] !in categories then Failure(KeyError)
    else
      match Records(categories, names[1..])
      case Failure(e) => Failure(e)
      case Success(rest) => Success([categories[names[0]]] + rest)
  }

  /** get_categories */
  function GetCategories(s: Store, parent: Option<string>): (r: Result<seq<Category>, Error>)
    ensures parent.Some? && parent.value !in s.categories ==> r == Failure(NotFound(ParentNotFound))
    ensures (parent.None? || parent.value in s.categories) ==> r == Records(s.categories, ChildList(s.tree, parent))
  {
    if parent.Some? && parent.value !in s.categories then Failure(NotFound(ParentNotFound))
    else Records(s.categories, ChildList(s.tree, parent))
  }

  // ---------------------------------------------------------------------------
  // Invariants of the hierarchy index
  // ---------------------------------------------------------------------------

  /** Every stored name is listed exactly once, under its own parent key. */
  ghost predicate ListedOnce(s: Store) {
    forall n :: n in s.categories ==>
      (s.categories[n].parentName in s.tree && multiset(s.tree[s.categories[n].parentName])[n] == 1)
  }

  /** Every listed name is a stored category whose parent is the list's key. */
  ghost predicate ListedUnderParent(s: Store) {
    forall p, n :: p in s.tree && n in s.tree[p] ==>
      (n in s.categories && s.categories[n].parentName == p)
  }

  /** The hierarchy index agrees with the records, and the root list exists. */
  ghost predicate Valid(s: Store) {
    None in s.tree && ListedOnce(s) && ListedUnderParent(s)
  }

  /** Every record is stored under its own name. */
  ghost predicate KeysMatchNames(s: Store) {
    forall n :: n in s.categories ==> s.categories[n].name == n
  }

  /** No record names a parent that is not stored. */
  ghost predicate ParentsExist(s: Store) {
    forall n :: n in s.categories && s.categories[n].parentName.Some? ==>
      s.categories[n].parentName.value in s.categories
  }

  /** A fresh database satisfies all three invariants. */
  lemma EmptyStoreValid()
    ensures Valid(Store(map[], map[None := []]))
    ensures KeysMatchNames(Store(map[], map[None := []]))
    ensures ParentsExist(Store(map[], map[None := []]))
  {
  }

  /** Removing the only occurrence of `x` leaves exactly the other names, each as often as before. */
  lemma RemoveFirstOnly(l: seq<string>, x: string)
    requires multiset(l)[x] == 1
    ensures forall y :: y in RemoveFirst(l, x) <==> y in l && y != x
    ensures forall y :: y != x ==> multiset(RemoveFirst(l, x))[y] == multiset(l)[y]
  {
    var r := RemoveFirst(l, x);
    forall y ensures y in r <==> y in l && y != x {
      assert y in r <==> y in multiset(r);
      assert y in l <==> y in multiset(l);
    }
  }

  /** Creating a new name with a parent name other than "" keeps the index consistent. */
  lemma CreatePreservesValid(s: Store, c: Category)
    requires Valid(s)
    requires c.name !in s.categories
    requires c.parentName != Some("")
    ensures Valid(Create(s, c).store)
  {
    var o := Create(s, c);
    if o.result.Success? {
      var t := o.store;
      var key := CreateKey(c);
      var l := ChildList(s.tree, key);
      assert key == c.parentName;
      assert t.tree[key] == l + [c.name];
      assert multiset(l + [c.name]) == multiset(l) + multiset{c.name};
      assert c.name !in l;
      forall n | n in t.categories
        ensures t.categories[n].parentName in t.tree && multiset(t.tree[t.categories[n].parentName])[n] == 1
      {
      }
      forall p, n | p in t.tree && n in t.tree[p]
        ensures n in t.categories && t.categories[n].parentName == p
      {
        if p == key && n != c.name {
          assert n in l;
        }
      }
    }
  }

  /** Creating keeps every record under its own name. */
  lemma CreatePreservesKeysMatchNames(s: Store, c: Category)
    requires KeysMatchNames(s)
    ensures KeysMatchNames(Create(s, c).store)
  {
  }

  /** Creating with a parent name other than "" keeps every parent reference resolvable. */
  lemma CreatePreservesParentsExist(s: Store, c: Category)
    requires ParentsExist(s)
    requires c.parentName != Some("")
    ensures ParentsExist(Create(s, c).store)
  {
  }

  /** Creating a name that is already stored lists it a second time: the index is no
      longer consistent, whatever the new parent. */
  lemma CreateExistingBreaksValid(s: Store, c: Category)
    requires Valid(s)
    requires c.name in s.categories
    requires Create(s, c).result.Success?
    ensures !Valid(Create(s, c).store)
  {
    var t := Create(s, c).store;
    var key := CreateKey(c);
    var p := s.categories[c.name].parentName;
    var l := ChildList(s.tree, key);
    assert t.tree[key] == l + [c.name];
    assert c.name in t.tree[key] by {
      assert (l + [c.name])[|l|] == c.name;
    }
    assert c.name in multiset(s.tree[p]);
    if p == key {
      assert multiset(t.tree[key]) == multiset(s.tree[key]) + multiset{c.name};
      assert multiset(t.tree[key])[c.name] == 2;
      assert t.categories[c.name] == c;
      if c.parentName == key {
        assert !ListedOnce(t);
      } else {
        assert !ListedUnderParent(t);
      }
    } else {
      assert t.tree[p] == s.tree[p] && t.categories[c.name] == c;
      assert c.name in t.tree[p] && c.name in t.tree[key];
      assert t.categories[c.name].parentName != p || t.categories[c.name].parentName != key;
      assert !ListedUnderParent(t);
    }
  }

  /** An update that leaves `parent_name` unset keeps the index consistent. */
  lemma UpdatePreservesValid(s: Store, name: string, u: CategoryUpdate)
    requires Valid(s)
    requires u.parentName.Unset?
    ensures Valid(Update(s, name, u).store)
  {
    var t := Update(s, name, u).store;
    if name in s.categories {
      assert forall n :: n in t.categories ==> t.categories[n].parentName == s.categories[n].parentName;
    }
  }

  /** An update that sets a different parent breaks the index: the name is still
      listed under the old parent while the record names the new one. */
  lemma UpdateParentBreaksValid(s: Store, name: string, u: CategoryUpdate)
    requires Valid(s)
    requires name in s.categories
    requires u.parentName.Set? && u.parentName.value != s.categories[name].parentName
    ensures !Valid(Update(s, name, u).store)
  {
    var p := s.categories[name].parentName;
    var t := Update(s, name, u).store;
    assert name in multiset(s.tree[p]);
    assert name in t.tree[p] && t.categories[name].parentName != p;
  }

  /** The record stays under the old key: the key and the name agree afterwards
      exactly when the update carries the old name. */
  lemma UpdateKeysMatchNames(s: Store, name: string, u: CategoryUpdate)
    requires KeysMatchNames(s)
    requires name in s.categories
    ensures KeysMatchNames(Update(s, name, u).store) <==> u.name == name
  {
    var t := Update(s, name, u).store;
    if u.name != name {
      assert t.categories[name].name != name;
    }
  }

  /** Deleting keeps the index consistent (the children stay listed under the deleted name). */
  lemma DeletePreservesValid(s: Store, name: string)
    requires Valid(s)
    ensures Valid(Delete(s, name).store)
  {
    var o := Delete(s, name);
    if o.result.Success? {
      var t := o.store;
      var p := s.categories[name].parentName;
      assert t.tree == s.tree[p := RemoveFirst(s.tree[p], name)];
      RemoveFirstOnly(s.tree[p], name);
      DropListedOnce(s, t, name);
      DropListedUnderParent(s, t, name);
    }
  }

  lemma DropListedOnce(s: Store, t: Store, name: string)
    requires ListedOnce(s) && name in s.categories
    requires var p := s.categories[name].parentName;
             && multiset(s.tree[p])[name] == 1
             && (forall y :: y != name ==> multiset(RemoveFirst(s.tree[p], name))[y] == multiset(s.tree[p])[y])
             && t.tree == s.tree[p := RemoveFirst(s.tree[p], name)]
    requires t.categories == s.categories - {name}
    ensures ListedOnce(t)
  {
  }

  lemma DropListedUnderParent(s: Store, t: Store, name: string)
    requires ListedUnderParent(s) && name in s.categories
    requires var p := s.categories[name].parentName;
             && p in s.tree && name in s.tree[p]
             && (forall y :: y in RemoveFirst(s.tree[p], name) <==> y in s.tree[p] && y != name)
             && t.tree == s.tree[p := RemoveFirst(s.tree[p], name)]
    requires t.categories == s.categories - {name}
    ensures ListedUnderParent(t)
  {
  }

  /** Deleting keeps every record under its own name. */
  lemma DeletePreservesKeysMatchNames(s: Store, name: string)
    requires KeysMatchNames(s)
    ensures KeysMatchNames(Delete(s, name).store)
  {
  }

  /** Deleting a category that no other stored category names as parent keeps every
      parent reference resolvable; deleting one that has children leaves them dangling. */
  lemma DeleteParentsExist(s: Store, name: string)
    requires ParentsExist(s)
    requires Delete(s, name).result.Success?
    ensures ParentsExist(Delete(s, name).store) <==>
              forall n :: n in s.categories && n != name ==> s.categories[n].parentName != Some(name)
  {
    var t := Delete(s, name).store;
    if exists n :: n in s.categories && n != name && s.categories[n].parentName == Some(name) {
      var n :| n in s.categories && n != name && s.categories[n].parentName == Some(name);
      assert n in t.categories && name !in t.categories;
    }
  }

  /** After a successful move, the moved name is in no list of the unlinked index. */
  lemma UnlinkedLacksName(s: Store, name: string)
    requires Valid(s)
    requires Unlinkable(s, name)
    ensures forall q :: q in MoveUnlinked(s, name) ==> name !in MoveUnlinked(s, name)[q]
    ensures forall q, n :: q in MoveUnlinked(s, name) && n in MoveUnlinked(s, name)[q] ==> n in s.tree[q]
    ensures forall q, n :: q in s.tree && n != name ==>
              multiset(MoveUnlinked(s, name)[q])[n] == multiset(s.tree[q])[n]
  {
    var p := s.categories[name].parentName;
    RemoveFirstOnly(s.tree[p], name);
  }

  /** Moving keeps every name listed exactly once, under its parent. */
  lemma MovePreservesListedOnce(s: Store, name: string, newParent: Option<string>)
    requires Valid(s)
    requires Move(s, name, newParent).result.Success?
    ensures ListedOnce(Move(s, name, newParent).store)
  {
    var t := Move(s, name, newParent).store;
    var u := MoveUnlinked(s, name);
    UnlinkedLacksName(s, name);
    assert t.tree == u[newParent := ChildList(u, newParent) + [name]];
    assert t.categories == s.categories[name := s.categories[name].(parentName := newParent)];
    RelinkedListedOnce(s, u, t, name, newParent);
  }

  /** Listing a name, after unlinking it, at the end of one list keeps every name
      listed exactly once under its parent. */
  lemma RelinkedListedOnce(s: Store, u: map<Option<string>, seq<string>>, t: Store, name: string,
                           newParent: Option<string>)
    requires ListedOnce(s) && name in s.categories
    requires u.Keys == s.tree.Keys
    requires forall q :: q in u ==> name !in u[q]
    requires forall q, n :: q in s.tree && n != name ==> multiset(u[q])[n] == multiset(s.tree[q])[n]
    requires t.tree == u[newParent := ChildList(u, newParent) + [name]]
    requires t.categories == s.categories[name := s.categories[name].(parentName := newParent)]
    ensures ListedOnce(t)
  {
    var l := ChildList(u, newParent);
    assert multiset(l + [name]) == multiset(l) + multiset{name};
    assert name !in l;
    forall n | n in t.categories
      ensures t.categories[n].parentName in t.tree && multiset(t.tree[t.categories[n].parentName])[n] == 1
    {
      var q := t.categories[n].parentName;
      if n == name {
        assert multiset(t.tree[q])[n] == multiset(l)[n] + 1;
      } else {
        assert q == s.categories[n].parentName;
        assert multiset(u[q])[n] == multiset(s.tree[q])[n];
        if q == newParent {
          assert multiset(t.tree[q])[n] == multiset(u[q])[n];
        } else {
          assert t.tree[q] == u[q];
        }
      }
    }
  }

  /** Moving keeps every listed name stored and under the list's key. */
  lemma MovePreservesListedUnderParent(s: Store, name: string, newParent: Option<string>)
    requires Valid(s)
    requires Move(s, name, newParent).result.Success?
    ensures ListedUnderParent(Move(s, name, newParent).store)
  {
    var u := MoveUnlinked(s, name);
    assert Move(s, name, newParent).store ==
           Store(s.categories[name := s.categories[name].(parentName := newParent)],
                 u[newParent := ChildList(u, newParent) + [name]]);
    RelinkedListedUnderParent(s, name, newParent);
  }

  /** Re-parenting the record and listing the unlinked name at the end of its new
      parent's list keeps every listed name stored under the list's key. */
  lemma RelinkedListedUnderParent(s: Store, name: string, newParent: Option<string>)
    requires Valid(s)
    requires Unlinkable(s, name)
    ensures var u := MoveUnlinked(s, name);
            ListedUnderParent(Store(s.categories[name := s.categories[name].(parentName := newParent)],
                                    u[newParent := ChildList(u, newParent) + [name]]))
  {
    var u := MoveUnlinked(s, name);
    UnlinkedLacksName(s, name);
    var l := ChildList(u, newParent);
    var t := Store(s.categories[name := s.categories[name].(parentName := newParent)], u[newParent := l + [name]]);
    forall q, n | q in t.tree && n in t.tree[q]
      ensures n in t.categories && t.categories[n].parentName == q
    {
      if n != name {
        assert n in u[q] by {
          if q == newParent {
            assert n in l;
          }
        }
      }
    }
  }

  /** Moving keeps the index consistent. */
  lemma MovePreservesValid(s: Store, name: string, newParent: Option<string>)
    requires Valid(s)
    ensures Valid(Move(s, name, newParent).store)
  {
    if Move(s, name, newParent).result.Success? {
      MovePreservesListedOnce(s, name, newParent);
      MovePreservesListedUnderParent(s, name, newParent);
    }
  }

  /** On a consistent store, moving a stored category under the root or under another
      stored category always succeeds. */
  lemma MoveSucceedsOnValid(s: Store, name: string, newParent: Option<string>)
    requires Valid(s)
    requires name in s.categories
    requires newParent.None? || newParent.value in s.categories
    ensures Move(s, name, newParent).result.Success?
  {
    assert name in multiset(s.tree[s.categories[name].parentName]);
  }

  /** Moving does not change which names are stored, so not their number either. */
  lemma MoveKeepsCount(s: Store, name: string, newParent: Option<string>)
    ensures |Move(s, name, newParent).store.categories| == |s.categories|
  {
    assert Move(s, name, newParent).store.categories.Keys == s.categories.Keys;
  }

  /** Moving leaves the moved category's own child list alone (unless it is moved
      under itself or was its own parent), and its children keep their records. */
  lemma MoveKeepsOwnChildren(s: Store, name: string, newParent: Option<string>)
    requires Move(s, name, newParent).result.Success?
    requires newParent != Some(name) && s.categories[name].parentName != Some(name)
    ensures ChildList(Move(s, name, newParent).store.tree, Some(name)) == ChildList(s.tree, Some(name))
    ensures forall n :: n in ChildList(s.tree, Some(name)) && n != name && n in s.categories ==>
              Move(s, name, newParent).store.categories[n] == s.categories[n]
  {
  }

  /** Moving keeps every parent reference resolvable. */
  lemma MovePreservesParentsExist(s: Store, name: string, newParent: Option<string>)
    requires ParentsExist(s)
    ensures ParentsExist(Move(s, name, newParent).store)
  {
  }

  /** Moving keeps every record under its own name. */
  lemma MovePreservesKeysMatchNames(s: Store, name: string, newParent: Option<string>)
    requires KeysMatchNames(s)
    ensures KeysMatchNames(Move(s, name, newParent).store)
  {
  }

  /** On a consistent store, listing children never hits a missing record, and every
      record returned has the listed parent. */
  lemma GetCategoriesOnValid(s: Store, parent: Option<string>)
    requires Valid(s)
    requires parent.None? || parent.value in s.categories
    ensures GetCategories(s, parent).Success?
    ensures forall c :: c in GetCategories(s, parent).value ==> c.parentName == parent
  {
    var r := GetCategories(s, parent);
    var l := ChildList(s.tree, parent);
    assert forall i :: 0 <= i < |l| ==> l[i] in l;
    forall c | c in r.value ensures c.parentName == parent {
      var i :| 0 <= i < |r.value| && r.value[i] == c;
      assert l[i] in l;
    }
  }

  /** A created category can be read back by its name. */
  lemma CreateThenGet(s: Store, c: Category)
    requires Create(s, c).result.Success?
    ensures Get(Create(s, c).store, c.name) == Success(c)
  {
  }

  /** A deleted category can no longer be read. */
  lemma DeleteThenGet(s: Store, name: string)
    requires Delete(s, name).result.Success?
    ensures Get(Delete(s, name).store, name) == Failure(NotFound(CategoryNotFound))
  {
  }

  /** A moved category reads back with its new parent and otherwise unchanged. */
  lemma MoveThenGet(s: Store, name: string, newParent: Option<string>)
    requires Move(s, name, newParent).result.Success?
    ensures Get(Move(s, name, newParent).store, name) == Success(s.categories[name].(parentName := newParent))
  {
  }

  /** Records of a list whose names are all unaffected by a map update stay the same. */
  lemma {:induction false} RecordsUnchanged(cats: map<string, Category>, names: seq<string>, n: string, c: Category)
    requires n !in names
    ensures Records(cats[n := c], names) == Records(cats, names)
  {
    if names != [] {
      RecordsUnchanged(cats, names[1..], n, c);
    }
  }

  /** Records of a list with one more name at the end. */
  lemma RecordsAppend(cats: map<string, Category>, names: seq<string>, n: string)
    requires n in cats
    requires Records(cats, names).Success?
    ensures Records(cats, names + [n]) == Success(Records(cats, names).value + [cats[n]])
  {
    var longer := names + [n];
    assert forall i :: 0 <= i < |longer| ==> longer[i] in cats by {
      forall i | 0 <= i < |longer| ensures longer[i] in cats {
        if i < |names| { assert longer[i] == names[i]; }
      }
    }
    var r := Records(cats, longer);
    assert r.value == Records(cats, names).value + [cats[n]];
  }

  /** Creating a new category and then listing its parent's children yields the
      children listed before, followed by the new record. */
  lemma CreateThenList(s: Store, c: Category)
    requires Valid(s)
    requires c.name !in s.categories
    requires Create(s, c).result.Success?
    ensures GetCategories(s, CreateKey(c)).Success?
    ensures GetCategories(Create(s, c).store, CreateKey(c)) ==
              Success(GetCategories(s, CreateKey(c)).value + [c])
  {
    var key := CreateKey(c);
    var t := Create(s, c).store;
    var l := ChildList(s.tree, key);
    assert t.categories == s.categories[c.name := c];
    assert ChildList(t.tree, key) == l + [c.name];
    GetCategoriesOnValid(s, key);
    assert GetCategories(t, key) == Records(t.categories, l + [c.name]);
    assert c.name !in l;
    RecordsUnchanged(s.categories, l, c.name, c);
    RecordsAppend(t.categories, l, c.name);
  }
}
