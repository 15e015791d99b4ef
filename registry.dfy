/** The program's global owner tree and the main-menu operations on it:
    creating an owner, deleting one, and writing an owner's pokedex back
    after the per-owner operations. */
module Registry {
  import opened Wrappers
  import opened Strings
  import opened Catalog
  import opened OwnerTree

  // ---------------------------------------------------------------------
  // Writing a pokedex back into the tree

  /** The tree with the pokedex of the owner under lower-cased name `q`
      replaced: what the per-owner operations do, through the node lookup
      returned, to the tree. In a registry ordered by lower-cased names that
      owner is the only one under `q`. */
  function WithPokedex(t: Tree, q: string, dex: seq<Pokemon>): (r: Tree)
    ensures Size(r) == Size(t)
  {
    if t.Leaf? then Leaf
    else
      var p := if Lower(t.name) == Lower(q) then dex else t.pokedex;
      Node(t.name, p, WithPokedex(t.left, q, dex), WithPokedex(t.right, q, dex))
  }

  lemma {:induction false} WithPokedexKeys(t: Tree, q: string, dex: seq<Pokemon>, order: Ordering)
    ensures Keys(WithPokedex(t, q, dex), order) == Keys(t, order)
  {
    if t.Node? {
      WithPokedexKeys(t.left, q, dex, order);
      WithPokedexKeys(t.right, q, dex, order);
    }
  }

  lemma {:induction false} WithPokedexOrdered(t: Tree, q: string, dex: seq<Pokemon>, order: Ordering)
    requires OrderedBy(t, order)
    ensures OrderedBy(WithPokedex(t, q, dex), order)
  {
    if t.Node? {
      WithPokedexKeys(t.left, q, dex, order);
      WithPokedexKeys(t.right, q, dex, order);
      WithPokedexOrdered(t.left, q, dex, order);
      WithPokedexOrdered(t.right, q, dex, order);
    }
  }

  /** An owner under `q` reappears with the new pokedex. */
  lemma {:induction false} WithPokedexReplaces(t: Tree, q: string, dex: seq<Pokemon>, o: Owner)
    requires o in InOrder(t) && Lower(o.name) == Lower(q)
    ensures Owner(o.name, dex) in InOrder(WithPokedex(t, q, dex))
  {
    if o in InOrder(t.left) {
      WithPokedexReplaces(t.left, q, dex, o);
    } else if o in InOrder(t.right) {
      WithPokedexReplaces(t.right, q, dex, o);
    }
  }

  /** After the write-back, lookup finds the same owner with the new pokedex. */
  lemma WithPokedexFound(t: Tree, q: string, dex: seq<Pokemon>)
    requires LowerOrdered(t) && Find(t, q).Some?
    ensures Find(WithPokedex(t, q, dex), q) == Some(Owner(Find(t, q).value.name, dex))
  {
    var o := Find(t, q).value;
    WithPokedexReplaces(t, q, dex, o);
    WithPokedexOrdered(t, q, dex, Folded);
    FindComplete(WithPokedex(t, q, dex), q);
  }

  /** Owners under any other lower-cased name are untouched. */
  lemma {:induction false} WithPokedexOthers(t: Tree, q: string, dex: seq<Pokemon>, o: Owner)
    requires Lower(o.name) != Lower(q)
    ensures multiset(InOrder(WithPokedex(t, q, dex)))[o] == multiset(InOrder(t))[o]
  {
    if t.Node? {
      WithPokedexOthers(t.left, q, dex, o);
      WithPokedexOthers(t.right, q, dex, o);
    }
  }

  /** Lookups of every other name give what they gave before. */
  lemma WithPokedexFindOthers(t: Tree, q: string, dex: seq<Pokemon>, q': string)
    requires LowerOrdered(t) && Lower(q') != Lower(q)
    ensures Find(WithPokedex(t, q, dex), q') == Find(t, q')
  {
    var t' := WithPokedex(t, q, dex);
    WithPokedexOrdered(t, q, dex, Folded);
    WithPokedexKeys(t, q, dex, Folded);
    FindComplete(t, q');
    FindComplete(t', q');
    if Find(t, q').Some? {
      var o := Find(t, q').value;
      WithPokedexOthers(t, q, dex, o);
      assert o in multiset(InOrder(t));
    }
  }

  /** No owner of the tree matches a lower-cased name that is not a key. */
  lemma NoOwnerUnder(t: Tree, q: string)
    requires Lower(q) !in Keys(t, Folded)
    ensures forall j :: 0 <= j < |InOrder(t)| ==> Lower(InOrder(t)[j].name) != Lower(q)
  {
    forall j | 0 <= j < |InOrder(t)| ensures Lower(InOrder(t)[j].name) != Lower(q) {
      KeyOfMember(t, Folded, InOrder(t)[j]);
    }
  }

  // ---------------------------------------------------------------------
  // The registry

  datatype CreateStatus = AlreadyExists | InvalidStarter | StarterMissing | Created

  /** The owner tree the main menu works on. Owners are placed by their
      lower-cased names, the ordering lookup and deletion rely on. */
  class Registry {
    var root: Tree

    ghost predicate Valid()
      reads this
    {
      LowerOrdered(root)
    }

    constructor()
      ensures Valid() && root == Leaf
    {
      root := Leaf;
    }

    /** Menu choice "New Pokedex": refuse a name already present (compared
        stripped and lower-cased), refuse a starter choice other than 1, 2 or
        3, stop when the catalog lacks the chosen position, otherwise insert
        an owner with the stripped name and the starter as the only pokemon. */
    method CreateOwner(name: string, choice: int, catalog: seq<Pokemon>) returns (status: CreateStatus)
      requires Valid()
      modifies this
      ensures Valid()
      ensures status == AlreadyExists <==> old(Find(root, Lower(Strip(name)))).Some?
      ensures status == InvalidStarter <==>
        old(Find(root, Lower(Strip(name)))).None? && Starter(choice, catalog) == Failure(NotAChoice)
      ensures status == StarterMissing <==>
        old(Find(root, Lower(Strip(name)))).None? && Starter(choice, catalog) == Failure(CatalogTooShort)
      ensures status != Created ==> root == old(root)
      ensures status == Created ==>
        && root == InsertLower(old(root), Owner(Strip(name), [Starter(choice, catalog).value]))
        && multiset(InOrder(root)) == old(multiset(InOrder(root))) + multiset{Owner(Strip(name), [Starter(choice, catalog).value])}
        && Find(root, Strip(name)) == Some(Owner(Strip(name), [Starter(choice, catalog).value]))
    {
      var key := Strip(name);
      var existing := Find(root, Lower(key));
      if existing.Some? {
        return AlreadyExists;
      }
      var starter := Starter(choice, catalog);
      if starter.Failure? {
        return if starter.error == NotAChoice then InvalidStarter else StarterMissing;
      }
      var owner := Owner(key, [starter.value]);
      LowerIdempotent(key);
      FindComplete(root, Lower(key));
      InsertLowerFinds(root, owner, key);
      InsertAbsent(root, owner, Folded);
      root := InsertLower(root, owner);
      status := Created;
    }

    /** Menu choice "Delete a Pokedex": the stripped name is looked up and,
        when present, its owner is deleted; otherwise nothing changes. */
    method DeleteOwner(name: string) returns (deleted: bool)
      requires Valid()
      modifies this
      ensures Valid()
      ensures deleted <==> old(Find(root, Strip(name))).Some?
      ensures !deleted ==> root == old(root)
      ensures deleted ==> Delete(old(root), Strip(name)) == Some(root)
      ensures InOrder(root) == Without(old(InOrder(root)), Strip(name))
      ensures Keys(root, Folded) == old(Keys(root, Folded)) - {Lower(Strip(name))}
    {
      var key := Strip(name);
      FindComplete(root, key);
      var existing := Find(root, key);
      if existing.None? {
        NoOwnerUnder(root, key);
        var i := WithoutFirst(InOrder(root), key);
        return false;
      }
      DeleteRemoves(root, key);
      root := Delete(root, key).value;
      deleted := true;
    }

    /** Writing back the pokedex of the owner found under `name` after add,
        release or evolve; an unknown name changes nothing. */
    method UpdatePokedex(name: string, dex: seq<Pokemon>) returns (found: bool)
      requires Valid()
      modifies this
      ensures Valid()
      ensures found <==> old(Find(root, Lower(Strip(name)))).Some?
      ensures !found ==> root == old(root)
      ensures found ==> root == WithPokedex(old(root), Strip(name), dex)
      ensures found ==> Find(root, Strip(name)) == Some(Owner(old(Find(root, Lower(Strip(name)))).value.name, dex))
      ensures forall q :: Lower(q) != Lower(Strip(name)) ==> Find(root, q) == old(Find(root, q))
      ensures Keys(root, Folded) == old(Keys(root, Folded))
    {
      var key := Strip(name);
      LowerIdempotent(key);
      var existing := Find(root, Lower(key));
      if existing.None? {
        return false;
      }
      ghost var before := root;
      WithPokedexOrdered(root, key, dex, Folded);
      WithPokedexKeys(root, key, dex, Folded);
      FindComplete(root, key);
      FindComplete(root, Lower(key));
      WithPokedexFound(root, key, dex);
      forall q | Lower(q) != Lower(key) ensures Find(WithPokedex(before, key, dex), q) == Find(before, q) {
        WithPokedexFindOthers(before, key, dex, q);
      }
      root := WithPokedex(root, key, dex);
      found := true;
    }
  }
}
