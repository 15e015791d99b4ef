/** The owner registry: an unbalanced binary search tree of owners, each
    holding a pokedex. Insertion places by Python's case-sensitive `<` on
    names; lookup and deletion compare lower-cased names. */
module OwnerTree {
  import opened Wrappers
  import opened Strings
  import opened Catalog

  /** What a node carries: an owner's name (original casing) and pokedex. */
  datatype Owner = Owner(name: string, pokedex: seq<Pokemon>)

  datatype Tree = Leaf | Node(name: string, pokedex: seq<Pokemon>, left: Tree, right: Tree)

  function Record(t: Tree): Owner
    requires t.Node?
  {
    Owner(t.name, t.pokedex)
  }

  function Size(t: Tree): nat
  {
    if t.Leaf? then 0 else Size(t.left) + 1 + Size(t.right)
  }

  /** Which form of a name the tree is ordered by: the name itself, as
      insertion compares, or its lower-cased form, as lookup and deletion do. */
  datatype Ordering = Exact | Folded

  function Key(order: Ordering, name: string): string
  {
    if order.Folded? then Lower(name) else name
  }

  /** The keys of the nodes of `t` under `order`. */
  function Keys(t: Tree, order: Ordering): set<string>
  {
    if t.Leaf? then {} else Keys(t.left, order) + {Key(order, t.name)} + Keys(t.right, order)
  }

  /** Binary-search-tree ordering under `order`: at every node, every key on the
      left is smaller and every key on the right is larger. Strictness makes
      keys unique. */
  ghost predicate OrderedBy(t: Tree, order: Ordering)
  {
    t.Node? ==>
      && (forall k :: k in Keys(t.left, order) ==> Less(k, Key(order, t.name)))
      && (forall k :: k in Keys(t.right, order) ==> Less(Key(order, t.name), k))
      && OrderedBy(t.left, order)
      && OrderedBy(t.right, order)
  }

  /** The ordering lookup and deletion rely on. */
  ghost predicate LowerOrdered(t: Tree)
  {
    OrderedBy(t, Folded)
  }

  /** The owners in left, node, right order: the registry's contents. */
  function InOrder(t: Tree): (s: seq<Owner>)
    ensures |s| == Size(t)
  {
    if t.Leaf? then [] else InOrder(t.left) + ([Record(t)] + InOrder(t.right))
  }

  /** Every owner of the in-order sequence contributes its key. */
  lemma {:induction false} KeyOfMember(t: Tree, order: Ordering, o: Owner)
    requires o in InOrder(t)
    ensures Key(order, o.name) in Keys(t, order)
  {
    if t.Node? {
      if o in InOrder(t.left) {
        KeyOfMember(t.left, order, o);
      } else if o in InOrder(t.right) {
        KeyOfMember(t.right, order, o);
      }
    }
  }

  /** Every key comes from an owner of the in-order sequence. */
  lemma {:induction false} MemberOfKey(t: Tree, order: Ordering, k: string) returns (o: Owner)
    requires k in Keys(t, order)
    ensures o in InOrder(t) && Key(order, o.name) == k
  {
    if k in Keys(t.left, order) {
      o := MemberOfKey(t.left, order, k);
    } else if k in Keys(t.right, order) {
      o := MemberOfKey(t.right, order, k);
    } else {
      o := Record(t);
    }
  }

  // ---------------------------------------------------------------------
  // Insertion

  /** `insert_owner_bst` as written: descend by case-sensitive `<` and `>`;
      a node with the very same name is dropped. On a tree ordered by raw
      names, the ordering is kept and exactly the new name joins the keys. */
  function Insert(t: Tree, o: Owner): (r: Tree)
    ensures r == t || multiset(InOrder(r)) == multiset(InOrder(t)) + multiset{o}
    ensures OrderedBy(t, Exact) ==> OrderedBy(r, Exact) && Keys(r, Exact) == Keys(t, Exact) + {o.name}
  {
    InsertKeeps(t, o, Exact);
    InsertDropsOrAdds(t, o, Exact);
    InsertBy(t, o, Exact)
  }

  /** Insertion under the lower-cased ordering that lookup and deletion use:
      it keeps that ordering, and exactly the new lower-cased name joins the
      keys. */
  function InsertLower(t: Tree, o: Owner): (r: Tree)
    ensures r == t || multiset(InOrder(r)) == multiset(InOrder(t)) + multiset{o}
    ensures LowerOrdered(t) ==> LowerOrdered(r) && Keys(r, Folded) == Keys(t, Folded) + {Lower(o.name)}
  {
    InsertKeeps(t, o, Folded);
    InsertDropsOrAdds(t, o, Folded);
    InsertBy(t, o, Folded)
  }

  /** Descend by `order`; attach the owner where the descent leaves the
      tree, or drop it at a node with the same key. */
  function InsertBy(t: Tree, o: Owner, order: Ordering): Tree
  {
    match t
    case Leaf => Node(o.name, o.pokedex, Leaf, Leaf)
    case Node(n, p, l, r) =>
      if Less(Key(order, o.name), Key(order, n)) then Node(n, p, InsertBy(l, o, order), r)
      else if Less(Key(order, n), Key(order, o.name)) then Node(n, p, l, InsertBy(r, o, order))
      else t
  }

  /** `t` holds `o` in a node without children. */
  predicate HasLeaf(t: Tree, o: Owner)
  {
    t.Node? &&
    ((t.left.Leaf? && t.right.Leaf? && Record(t) == o) || HasLeaf(t.left, o) || HasLeaf(t.right, o))
  }

  /** Insertion adds the new key and nothing else to the key set. */
  lemma {:induction false} InsertKeys(t: Tree, o: Owner, order: Ordering)
    requires OrderedBy(t, order)
    ensures Keys(InsertBy(t, o, order), order) == Keys(t, order) + {Key(order, o.name)}
  {
    if t.Node? {
      LessTotal(Key(order, o.name), Key(order, t.name));
      InsertKeys(t.left, o, order);
      InsertKeys(t.right, o, order);
    }
  }

  /** Insertion keeps the ordering. */
  lemma {:induction false} InsertOrdered(t: Tree, o: Owner, order: Ordering)
    requires OrderedBy(t, order)
    ensures OrderedBy(InsertBy(t, o, order), order)
  {
    if t.Node? {
      InsertOrdered(t.left, o, order);
      InsertOrdered(t.right, o, order);
      InsertKeys(t.left, o, order);
      InsertKeys(t.right, o, order);
    }
  }

  /** On any tree, ordered or not, insertion either drops the owner or adds
      exactly it. */
  lemma {:induction false} InsertDropsOrAdds(t: Tree, o: Owner, order: Ordering)
    ensures InsertBy(t, o, order) == t || multiset(InOrder(InsertBy(t, o, order))) == multiset(InOrder(t)) + multiset{o}
  {
    if t.Node? {
      var k, n := Key(order, o.name), Key(order, t.name);
      if Less(k, n) {
        InsertDropsOrAdds(t.left, o, order);
        var l' := InsertBy(t.left, o, order);
        if l' != t.left {
          JoinBag(t.left, l', Record(t), InOrder(t.right), o);
        }
      } else if Less(n, k) {
        InsertDropsOrAdds(t.right, o, order);
        var r' := InsertBy(t.right, o, order);
        if r' != t.right {
          JoinBag2(InOrder(t.left), Record(t), t.right, r', o);
        }
      }
    }
  }

  /** Growing the left part of an in-order join by `o` grows the join by `o`. */
  lemma JoinBag(l: Tree, l': Tree, x: Owner, b: seq<Owner>, o: Owner)
    requires multiset(InOrder(l')) == multiset(InOrder(l)) + multiset{o}
    ensures multiset(InOrder(l') + [x] + b) == multiset(InOrder(l) + [x] + b) + multiset{o}
  {
  }

  /** Growing the right part of an in-order join by `o` grows the join by `o`. */
  lemma JoinBag2(a: seq<Owner>, x: Owner, r: Tree, r': Tree, o: Owner)
    requires multiset(InOrder(r')) == multiset(InOrder(r)) + multiset{o}
    ensures multiset(a + [x] + InOrder(r')) == multiset(a + [x] + InOrder(r)) + multiset{o}
  {
  }

  /** What insertion keeps on an ordered tree, stated for any tree. */
  lemma InsertKeeps(t: Tree, o: Owner, order: Ordering)
    ensures OrderedBy(t, order) ==>
      OrderedBy(InsertBy(t, o, order), order) && Keys(InsertBy(t, o, order), order) == Keys(t, order) + {Key(order, o.name)}
  {
    if OrderedBy(t, order) {
      InsertOrdered(t, o, order);
      InsertKeys(t, o, order);
    }
  }

  /** A key already present leaves the tree unchanged. */
  lemma {:induction false} InsertPresent(t: Tree, o: Owner, order: Ordering)
    requires OrderedBy(t, order)
    requires Key(order, o.name) in Keys(t, order)
    ensures InsertBy(t, o, order) == t
  {
    if t.Node? {
      var k, n := Key(order, o.name), Key(order, t.name);
      if Less(k, n) {
        if k in Keys(t.right, order) {
          LessTransitive(k, n, k);
          LessIrreflexive(k);
        }
        if k == n {
          LessIrreflexive(k);
        }
        InsertPresent(t.left, o, order);
      } else if Less(n, k) {
        if k in Keys(t.left, order) {
          LessTransitive(k, n, k);
          LessIrreflexive(k);
        }
        if k == n {
          LessIrreflexive(k);
        }
        InsertPresent(t.right, o, order);
      }
    }
  }

  /** A new key adds exactly one owner and keeps every other owner. */
  lemma {:induction false} InsertAbsent(t: Tree, o: Owner, order: Ordering)
    requires Key(order, o.name) !in Keys(t, order)
    ensures multiset(InOrder(InsertBy(t, o, order))) == multiset(InOrder(t)) + multiset{o}
  {
    if t.Node? {
      var Node(n, p, l, r) := t;
      if Less(Key(order, o.name), Key(order, n)) {
        InsertAbsent(l, o, order);
        var l' := InsertBy(l, o, order);
        assert InsertBy(t, o, order) == Node(n, p, l', r);
        assert InOrder(InsertBy(t, o, order)) == InOrder(l') + ([Record(t)] + InOrder(r));
      } else {
        LessTotal(Key(order, o.name), Key(order, n));
        InsertAbsent(r, o, order);
        var r' := InsertBy(r, o, order);
        assert InsertBy(t, o, order) == Node(n, p, l, r');
        assert InOrder(InsertBy(t, o, order)) == InOrder(l) + ([Record(t)] + InOrder(r'));
      }
    }
  }

  /** The owner a new key brings is placed as a leaf. */
  lemma {:induction false} InsertAsLeaf(t: Tree, o: Owner, order: Ordering)
    requires Key(order, o.name) !in Keys(t, order)
    ensures HasLeaf(InsertBy(t, o, order), o)
  {
    if t.Node? {
      if Less(Key(order, o.name), Key(order, t.name)) {
        InsertAsLeaf(t.left, o, order);
      } else {
        LessTotal(Key(order, o.name), Key(order, t.name));
        InsertAsLeaf(t.right, o, order);
      }
    }
  }

  // ---------------------------------------------------------------------
  // Lookup

  /** `find_owner_bst`: descend comparing lower-cased names. */
  function Find(t: Tree, q: string): (r: Option<Owner>)
    ensures t.Leaf? ==> r.None?
    ensures r.Some? ==> r.value in InOrder(t) && Lower(r.value.name) == Lower(q)
  {
    match t
    case Leaf => None
    case Node(n, p, l, r) =>
      if Less(Lower(q), Lower(n)) then Find(l, q)
      else if Less(Lower(n), Lower(q)) then Find(r, q)
      else
        LessTotal(Lower(q), Lower(n));
        Some(Owner(n, p))
  }

  /** On an ordered tree, lookup finds an owner exactly when one has the
      query's lower-cased name, and then it is that owner. */
  lemma {:induction false} FindComplete(t: Tree, q: string)
    requires LowerOrdered(t)
    ensures Find(t, q).Some? <==> Lower(q) in Keys(t, Folded)
    ensures forall o :: o in InOrder(t) && Lower(o.name) == Lower(q) ==> Find(t, q) == Some(o)
  {
    if t.Node? {
      var k, n := Lower(q), Lower(t.name);
      FindComplete(t.left, q);
      FindComplete(t.right, q);
      LessIrreflexive(k);
      forall o | o in InOrder(t) && Lower(o.name) == k
        ensures Find(t, q) == Some(o)
      {
        if o in InOrder(t.left) {
          KeyOfMember(t.left, Folded, o);
          if !Less(k, n) {
            LessTotal(k, n);
            if Less(n, k) { LessAsymmetric(n, k); }
          }
        } else if o in InOrder(t.right) {
          KeyOfMember(t.right, Folded, o);
          if !Less(n, k) {
            LessTotal(k, n);
            if Less(k, n) { LessAsymmetric(k, n); }
          }
          LessAsymmetric(n, k);
        } else {
          assert o == Record(t);
        }
      }
      if Less(k, n) {
        if k in Keys(t.right, Folded) {
          LessTransitive(k, n, k);
        }
      } else if Less(n, k) {
        if k in Keys(t.left, Folded) {
          LessTransitive(k, n, k);
        }
      }
    }
  }

  // ---------------------------------------------------------------------
  // Minimum

  /** The node `min_node` reaches: follow left links to the end. */
  function Leftmost(t: Tree): (m: Tree)
    requires t.Node?
    ensures m.Node? && m.left.Leaf?
    ensures Record(m) == InOrder(t)[0]
  {
    if t.left.Leaf? then t else Leftmost(t.left)
  }

  /** The leftmost key of an ordered tree is its smallest key. */
  lemma {:induction false} LeftmostIsMin(t: Tree, order: Ordering)
    requires t.Node? && OrderedBy(t, order)
    ensures forall k :: k in Keys(t, order) ==> k == Key(order, Leftmost(t).name) || Less(Key(order, Leftmost(t).name), k)
  {
    var m := Key(order, Leftmost(t).name);
    if t.left.Node? {
      LeftmostIsMin(t.left, order);
      assert m in Keys(t.left, order) by { KeyOfMember(t.left, order, Record(Leftmost(t.left))); }
      forall k | k in Keys(t.right, order) ensures Less(m, k) {
        LessTransitive(m, Key(order, t.name), k);
      }
    }
  }

  /** `min_node`: walk left links with a loop. */
  method MinNode(t: Tree) returns (m: Tree)
    ensures t.Leaf? ==> m.Leaf?
    ensures t.Node? ==> m.Node? && m.left.Leaf? && Record(m) == InOrder(t)[0]
    ensures t.Node? && LowerOrdered(t) ==>
      forall k :: k in Keys(t, Folded) ==> k == Lower(m.name) || Less(Lower(m.name), k)
  {
    m := t;
    while m.Node? && m.left.Node?
      invariant t.Node? ==> m.Node? && Leftmost(m) == Leftmost(t)
      invariant t.Leaf? ==> m.Leaf?
      decreases Size(m)
    {
      m := m.left;
    }
    if t.Node? {
      if LowerOrdered(t) {
        LeftmostIsMin(t, Folded);
      }
    }
  }

  // ---------------------------------------------------------------------
  // Deletion

  /** `delete_owner_bst`. `None` stands for the crash of the program when the
      search runs off the tree (indexing `None` at its first comparison). The
      cases are tried in the program's order: leaf, no left child, no right
      child, two children (promote the in-order successor, then delete it
      from the right subtree by name). */
  function Delete(t: Tree, q: string): (r: Option<Tree>)
    ensures r.Some? ==> Size(r.value) + 1 == Size(t)
  {
    match t
    case Leaf => None
    case Node(n, p, l, r) =>
      if Less(Lower(q), Lower(n)) then
        match Delete(l, q)
        case None => None
        case Some(l') => Some(Node(n, p, l', r))
      else if Less(Lower(n), Lower(q)) then
        match Delete(r, q)
        case None => None
        case Some(r') => Some(Node(n, p, l, r'))
      else if l.Leaf? && r.Leaf? then Some(Leaf)
      else if l.Leaf? then Some(r)
      else if r.Leaf? then Some(l)
      else
        var s := Leftmost(r);
        match Delete(r, s.name)
        case None => None
        case Some(r') => Some(Node(s.name, s.pokedex, l, r'))
  }

  /** Deleting a name that lookup does not find runs off the tree. */
  lemma {:induction false} DeleteAbsentFails(t: Tree, q: string)
    requires Find(t, q).None?
    ensures Delete(t, q).None?
  {
    if t.Node? {
      if Less(Lower(q), Lower(t.name)) {
        DeleteAbsentFails(t.left, q);
      } else if Less(Lower(t.name), Lower(q)) {
        DeleteAbsentFails(t.right, q);
      }
    }
  }

  /** `s` without its first owner whose lower-cased name is that of `q`. */
  function Without(s: seq<Owner>, q: string): seq<Owner>
  {
    if s == [] then []
    else if Lower(s[0].name) == Lower(q) then s[1..]
    else [s[0]] + Without(s[1..], q)
  }

  /** `Without` drops exactly the first owner whose lower-cased name matches,
      keeping the rest in order, and is the identity when none matches. */
  lemma {:induction false} WithoutFirst(s: seq<Owner>, q: string) returns (i: int)
    ensures -1 <= i < |s|
    ensures i == -1 ==> Without(s, q) == s
    ensures i == -1 ==> forall j :: 0 <= j < |s| ==> Lower(s[j].name) != Lower(q)
    ensures i >= 0 ==> Lower(s[i].name) == Lower(q) && Without(s, q) == s[..i] + s[i + 1..]
    ensures forall j :: 0 <= j < i ==> Lower(s[j].name) != Lower(q)
  {
    if s == [] {
      i := -1;
    } else if Lower(s[0].name) == Lower(q) {
      i := 0;
      assert s[..0] + s[1..] == s[1..];
    } else {
      var k := WithoutFirst(s[1..], q);
      i := if k == -1 then -1 else k + 1;
      WithoutFirstStep(s, q, k);
    }
  }

  lemma WithoutFirstStep(s: seq<Owner>, q: string, k: int)
    requires s != [] && Lower(s[0].name) != Lower(q)
    requires -1 <= k < |s| - 1
    requires k == -1 ==> Without(s[1..], q) == s[1..]
    requires k == -1 ==> forall j :: 0 <= j < |s| - 1 ==> Lower(s[1..][j].name) != Lower(q)
    requires k >= 0 ==> Without(s[1..], q) == s[1..][..k] + s[1..][k + 1..]
    requires forall j :: 0 <= j < k ==> Lower(s[1..][j].name) != Lower(q)
    ensures k == -1 ==> Without(s, q) == s
    ensures k == -1 ==> forall j :: 0 <= j < |s| ==> Lower(s[j].name) != Lower(q)
    ensures k >= 0 ==> Without(s, q) == s[..k + 1] + s[k + 2..]
    ensures forall j :: 0 <= j < k + 1 ==> Lower(s[j].name) != Lower(q)
  {
    ShiftIndex(s);
    if k == -1 {
      ConsTail(s);
    } else {
      ConsSlices(s, k);
    }
  }

  lemma ShiftIndex<T>(s: seq<T>)
    requires s != []
    ensures forall j :: 0 < j < |s| ==> s[j] == s[1..][j - 1]
  {
  }

  lemma ConsTail<T>(s: seq<T>)
    requires s != []
    ensures s == [s[0]] + s[1..]
  {
  }

  lemma ConsSlices<T>(s: seq<T>, k: int)
    requires 0 <= k < |s| - 1
    ensures s[..k + 1] + s[k + 2..] == [s[0]] + (s[1..][..k] + s[1..][k + 1..])
  {
    assert s[..k + 1] == [s[0]] + s[1..][..k];
    assert s[k + 2..] == s[1..][k + 1..];
  }

  lemma {:induction false} WithoutSkips(a: seq<Owner>, b: seq<Owner>, q: string)
    requires forall o :: o in a ==> Lower(o.name) != Lower(q)
    ensures Without(a + b, q) == a + Without(b, q)
  {
    if a != [] {
      assert a[0] in a;
      WithoutSkips(a[1..], b, q);
      calc {
        Without(a + b, q);
        { assert (a + b)[0] == a[0] && (a + b)[1..] == a[1..] + b; }
        [a[0]] + Without(a[1..] + b, q);
        [a[0]] + (a[1..] + Without(b, q));
        { assert a == [a[0]] + a[1..]; }
        a + Without(b, q);
      }
    } else {
      assert a + b == b;
    }
  }

  lemma {:induction false} WithoutStops(a: seq<Owner>, b: seq<Owner>, q: string, o: Owner)
    requires o in a && Lower(o.name) == Lower(q)
    ensures Without(a + b, q) == Without(a, q) + b
  {
    if Lower(a[0].name) != Lower(q) {
      WithoutStops(a[1..], b, q, o);
      assert (a + b)[1..] == a[1..] + b;
    } else {
      assert (a + b)[1..] == a[1..] + b;
    }
  }

  /** No key of `t` equals `k` when `k` is below (or above) all of them. */
  lemma NotAKey(t: Tree, k: string, bound: string, below: bool)
    requires below ==> forall x :: x in Keys(t, Folded) ==> Less(bound, x)
    requires !below ==> forall x :: x in Keys(t, Folded) ==> Less(x, bound)
    requires below ==> k == bound || Less(k, bound)
    requires !below ==> k == bound || Less(bound, k)
    ensures k !in Keys(t, Folded)
    ensures forall o :: o in InOrder(t) ==> Lower(o.name) != k
  {
    if k in Keys(t, Folded) {
      if k != bound {
        if below { LessAsymmetric(k, bound); } else { LessAsymmetric(bound, k); }
      }
      LessIrreflexive(k);
    }
    forall o | o in InOrder(t) ensures Lower(o.name) != k {
      KeyOfMember(t, Folded, o);
    }
  }

  /** Deleting a present name from an ordered tree succeeds, keeps the
      ordering, removes exactly that owner from the in-order sequence and
      exactly its key from the key set. */
  lemma {:induction false} DeleteRemoves(t: Tree, q: string)
    requires LowerOrdered(t)
    requires Lower(q) in Keys(t, Folded)
    ensures Delete(t, q).Some?
    ensures LowerOrdered(Delete(t, q).value)
    ensures InOrder(Delete(t, q).value) == Without(InOrder(t), q)
    ensures Keys(Delete(t, q).value, Folded) == Keys(t, Folded) - {Lower(q)}
    decreases t, 3
  {
    var k, nk := Lower(q), Lower(t.name);
    if Less(k, nk) {
      DeleteGoesLeft(t, q);
    } else if Less(nk, k) {
      DeleteGoesRight(t, q);
    } else {
      DeleteHere(t, q);
    }
  }

  /** What `DeleteRemoves` promises, for its case lemmas. */
  ghost predicate Removed(t: Tree, q: string)
  {
    && Delete(t, q).Some?
    && LowerOrdered(Delete(t, q).value)
    && InOrder(Delete(t, q).value) == Without(InOrder(t), q)
    && Keys(Delete(t, q).value, Folded) == Keys(t, Folded) - {Lower(q)}
  }

  lemma {:induction false} DeleteGoesLeft(t: Tree, q: string)
    requires t.Node? && LowerOrdered(t) && Lower(q) in Keys(t, Folded)
    requires Less(Lower(q), Lower(t.name))
    ensures Removed(t, q)
    decreases t, 2
  {
    var Node(n, p, l, r) := t;
    var k, nk := Lower(q), Lower(n);
    assert k in Keys(l, Folded) by {
      NotAKey(r, k, nk, true);
      LessIrreflexive(k);
    }
    DeleteRemoves(l, q);
    var l' := Delete(l, q).value;
    assert Delete(t, q) == Some(Node(n, p, l', r));
    RemovedOnLeft(t, l', q);
  }

  lemma {:induction false} DeleteGoesRight(t: Tree, q: string)
    requires t.Node? && LowerOrdered(t) && Lower(q) in Keys(t, Folded)
    requires !Less(Lower(q), Lower(t.name)) && Less(Lower(t.name), Lower(q))
    ensures Removed(t, q)
    decreases t, 2
  {
    var Node(n, p, l, r) := t;
    var k, nk := Lower(q), Lower(n);
    assert k in Keys(r, Folded) by {
      NotAKey(l, k, nk, false);
      LessIrreflexive(k);
    }
    DeleteRemoves(r, q);
    var r' := Delete(r, q).value;
    assert Delete(t, q) == Some(Node(n, p, l, r'));
    RemovedOnRight(t, r', q);
  }

  /** Replacing the left subtree by that subtree without `q` removes `q` from the whole tree. */
  lemma RemovedOnLeft(t: Tree, l': Tree, q: string)
    requires t.Node? && LowerOrdered(t) && Less(Lower(q), Lower(t.name))
    requires Lower(q) in Keys(t.left, Folded)
    requires LowerOrdered(l') && InOrder(l') == Without(InOrder(t.left), q)
    requires Keys(l', Folded) == Keys(t.left, Folded) - {Lower(q)}
    ensures LowerOrdered(Node(t.name, t.pokedex, l', t.right))
    ensures InOrder(Node(t.name, t.pokedex, l', t.right)) == Without(InOrder(t), q)
    ensures Keys(Node(t.name, t.pokedex, l', t.right), Folded) == Keys(t, Folded) - {Lower(q)}
  {
    var k, nk := Lower(q), Lower(t.name);
    NotAKey(t.right, k, nk, true);
    LessIrreflexive(k);
    InOrderWithoutLeft(t, l', q);
  }

  lemma InOrderWithoutLeft(t: Tree, l': Tree, q: string)
    requires t.Node? && Lower(q) in Keys(t.left, Folded)
    requires InOrder(l') == Without(InOrder(t.left), q)
    ensures InOrder(Node(t.name, t.pokedex, l', t.right)) == Without(InOrder(t), q)
  {
    var Node(n, p, l, r) := t;
    var o := MemberOfKey(l, Folded, Lower(q));
    var x, rest := InOrder(l), [Record(t)] + InOrder(r);
    WithoutStops(x, rest, q, o);
  }

  /** Replacing the right subtree by that subtree without `q` removes `q` from the whole tree. */
  lemma RemovedOnRight(t: Tree, r': Tree, q: string)
    requires t.Node? && LowerOrdered(t) && Less(Lower(t.name), Lower(q))
    requires Lower(q) in Keys(t.right, Folded)
    requires LowerOrdered(r') && InOrder(r') == Without(InOrder(t.right), q)
    requires Keys(r', Folded) == Keys(t.right, Folded) - {Lower(q)}
    ensures LowerOrdered(Node(t.name, t.pokedex, t.left, r'))
    ensures InOrder(Node(t.name, t.pokedex, t.left, r')) == Without(InOrder(t), q)
    ensures Keys(Node(t.name, t.pokedex, t.left, r'), Folded) == Keys(t, Folded) - {Lower(q)}
  {
    var k, nk := Lower(q), Lower(t.name);
    NotAKey(t.left, k, nk, false);
    LessIrreflexive(k);
    InOrderWithoutRight(t, r', q);
  }

  lemma InOrderWithoutRight(t: Tree, r': Tree, q: string)
    requires t.Node? && Lower(t.name) != Lower(q)
    requires forall o :: o in InOrder(t.left) ==> Lower(o.name) != Lower(q)
    requires InOrder(r') == Without(InOrder(t.right), q)
    ensures InOrder(Node(t.name, t.pokedex, t.left, r')) == Without(InOrder(t), q)
  {
    WithoutSkips(InOrder(t.left), [Record(t)] + InOrder(t.right), q);
    assert ([Record(t)] + InOrder(t.right))[1..] == InOrder(t.right);
  }

  lemma {:induction false} DeleteHere(t: Tree, q: string)
    requires t.Node? && LowerOrdered(t)
    requires !Less(Lower(q), Lower(t.name)) && !Less(Lower(t.name), Lower(q))
    ensures Removed(t, q)
    decreases t, 2
  {
    var k, nk := Lower(q), Lower(t.name);
    assert k == nk by { LessTotal(k, nk); }
    NotAKey(t.left, k, nk, false);
    NotAKey(t.right, k, nk, true);
    InOrderWithoutHere(t, q);
    if t.left.Node? && t.right.Node? {
      DeleteHereTwoChildren(t, q);
    } else {
      DeleteHereOneChild(t, q);
    }
  }

  /** The facts about a root whose name is being deleted. */
  ghost predicate DeletingRoot(t: Tree, q: string)
  {
    && t.Node? && LowerOrdered(t)
    && !Less(Lower(q), Lower(t.name)) && !Less(Lower(t.name), Lower(q))
    && Lower(q) == Lower(t.name)
    && Lower(q) !in Keys(t.left, Folded) && Lower(q) !in Keys(t.right, Folded)
    && Without(InOrder(t), q) == InOrder(t.left) + InOrder(t.right)
  }

  lemma DeleteHereOneChild(t: Tree, q: string)
    requires DeletingRoot(t, q) && (t.left.Leaf? || t.right.Leaf?)
    ensures Removed(t, q)
  {
    var Node(n, p, l, r) := t;
    if l.Leaf? && r.Leaf? {
      assert Delete(t, q) == Some(Leaf);
    } else if l.Leaf? {
      assert Delete(t, q) == Some(r);
      assert InOrder(l) + InOrder(r) == InOrder(r);
    } else {
      assert Delete(t, q) == Some(l);
      assert InOrder(l) + InOrder(r) == InOrder(l);
    }
  }

  lemma DeleteHereTwoChildren(t: Tree, q: string)
    requires DeletingRoot(t, q) && t.left.Node? && t.right.Node?
    ensures Removed(t, q)
    decreases t, 1
  {
    var Node(n, p, l, r) := t;
    DeleteSuccessor(t);
    var s := Leftmost(r);
    PromoteSuccessor(t, q);
  }

  /** At a node with two children whose name is `q`, deletion promotes the
      in-order successor and deletes it from the right subtree. */
  lemma PromoteSuccessor(t: Tree, q: string)
    requires t.Node? && t.left.Node? && t.right.Node?
    requires !Less(Lower(q), Lower(t.name)) && !Less(Lower(t.name), Lower(q))
    requires Delete(t.right, Leftmost(t.right).name).Some?
    ensures Delete(t, q) ==
      Some(Node(Leftmost(t.right).name, Leftmost(t.right).pokedex, t.left, Delete(t.right, Leftmost(t.right).name).value))
  {
  }

  /** Removing the owner at the root leaves the two subtrees' owners. */
  lemma InOrderWithoutHere(t: Tree, q: string)
    requires t.Node? && Lower(t.name) == Lower(q)
    requires forall o :: o in InOrder(t.left) ==> Lower(o.name) != Lower(q)
    ensures Without(InOrder(t), q) == InOrder(t.left) + InOrder(t.right)
  {
    WithoutSkips(InOrder(t.left), [Record(t)] + InOrder(t.right), q);
    assert ([Record(t)] + InOrder(t.right))[1..] == InOrder(t.right);
  }

  /** The two-children case of `DeleteRemoves`. */
  lemma {:induction false} DeleteSuccessor(t: Tree)
    requires t.Node? && LowerOrdered(t) && t.left.Node? && t.right.Node?
    ensures
      var s := Leftmost(t.right);
      && Delete(t.right, s.name).Some?
      && var r' := Delete(t.right, s.name).value;
      && LowerOrdered(Node(s.name, s.pokedex, t.left, r'))
      && InOrder(Node(s.name, s.pokedex, t.left, r')) == InOrder(t.left) + InOrder(t.right)
      && Keys(Node(s.name, s.pokedex, t.left, r'), Folded) == Keys(t.left, Folded) + Keys(t.right, Folded)
    decreases t, 0
  {
    var Node(n, p, l, r) := t;
    var s := Leftmost(r);
    var sk := Lower(s.name);
    assert sk in Keys(r, Folded) by { KeyOfMember(r, Folded, Record(s)); }
    DeleteRemoves(r, s.name);
    var r' := Delete(r, s.name).value;
    LeftmostIsMin(r, Folded);
    LessIrreflexive(sk);
    assert InOrder(r) == [Record(s)] + InOrder(r)[1..];
    assert InOrder(r') == InOrder(r)[1..];
    forall x | x in Keys(l, Folded) ensures Less(x, sk) {
      LessTransitive(x, Lower(n), sk);
    }
  }

  // ---------------------------------------------------------------------
  // In-order sequence and ordering

  /** The keys of `s` strictly increase under `order`. */
  ghost predicate Ascending(s: seq<Owner>, order: Ordering)
  {
    forall i, j :: 0 <= i < j < |s| ==> Less(Key(order, s[i].name), Key(order, s[j].name))
  }

  /** A tree is a binary search tree under `order` exactly when its in-order
      sequence strictly increases under `order`. */
  lemma OrderedIffAscending(t: Tree, order: Ordering)
    ensures OrderedBy(t, order) <==> Ascending(InOrder(t), order)
  {
    if OrderedBy(t, order) {
      OrderedAscending(t, order);
    }
    if Ascending(InOrder(t), order) {
      AscendingOrdered(t, order);
    }
  }

  lemma {:induction false} OrderedAscending(t: Tree, order: Ordering)
    requires OrderedBy(t, order)
    ensures Ascending(InOrder(t), order)
  {
    if t.Node? {
      var a, b := InOrder(t.left), InOrder(t.right);
      OrderedAscending(t.left, order);
      OrderedAscending(t.right, order);
      forall y | y in a ensures Less(Key(order, y.name), Key(order, t.name)) {
        KeyOfMember(t.left, order, y);
      }
      forall y | y in b ensures Less(Key(order, t.name), Key(order, y.name)) {
        KeyOfMember(t.right, order, y);
      }
      AscendingJoin(a, Record(t), b, order);
    }
  }

  lemma {:induction false} AscendingOrdered(t: Tree, order: Ordering)
    requires Ascending(InOrder(t), order)
    ensures OrderedBy(t, order)
  {
    if t.Node? {
      var a, b := InOrder(t.left), InOrder(t.right);
      AscendingSplit(a, Record(t), b, order);
      forall k | k in Keys(t.left, order) ensures Less(k, Key(order, t.name)) {
        var o := MemberOfKey(t.left, order, k);
      }
      forall k | k in Keys(t.right, order) ensures Less(Key(order, t.name), k) {
        var o := MemberOfKey(t.right, order, k);
      }
      AscendingOrdered(t.left, order);
      AscendingOrdered(t.right, order);
    }
  }

  /** Positions of `a + [x] + b`. */
  lemma ConcatAt<T>(a: seq<T>, x: T, b: seq<T>)
    ensures |a + ([x] + b)| == |a| + 1 + |b|
    ensures forall i :: 0 <= i < |a| ==> (a + ([x] + b))[i] == a[i]
    ensures (a + ([x] + b))[|a|] == x
    ensures forall i :: 0 <= i < |b| ==> (a + ([x] + b))[|a| + 1 + i] == b[i]
  {
  }

  /** An ascending sequence split around one of its elements. */
  lemma AscendingSplit(a: seq<Owner>, x: Owner, b: seq<Owner>, order: Ordering)
    requires Ascending(a + ([x] + b), order)
    ensures Ascending(a, order) && Ascending(b, order)
    ensures forall y :: y in a ==> Less(Key(order, y.name), Key(order, x.name))
    ensures forall y :: y in b ==> Less(Key(order, x.name), Key(order, y.name))
  {
    var s := a + ([x] + b);
    ConcatAt(a, x, b);
    forall i, j | 0 <= i < j < |a| ensures Less(Key(order, a[i].name), Key(order, a[j].name)) {
      assert s[i] == a[i] && s[j] == a[j];
    }
    forall i, j | 0 <= i < j < |b| ensures Less(Key(order, b[i].name), Key(order, b[j].name)) {
      assert s[|a| + 1 + i] == b[i] && s[|a| + 1 + j] == b[j];
    }
    forall y | y in a ensures Less(Key(order, y.name), Key(order, x.name)) {
      var i :| 0 <= i < |a| && a[i] == y;
      assert s[i] == y && s[|a|] == x;
    }
    forall y | y in b ensures Less(Key(order, x.name), Key(order, y.name)) {
      var i :| 0 <= i < |b| && b[i] == y;
      assert s[|a| + 1 + i] == y && s[|a|] == x;
    }
  }

  /** Two ascending sequences joined around an element between them ascend. */
  lemma AscendingJoin(a: seq<Owner>, x: Owner, b: seq<Owner>, order: Ordering)
    requires Ascending(a, order) && Ascending(b, order)
    requires forall y :: y in a ==> Less(Key(order, y.name), Key(order, x.name))
    requires forall y :: y in b ==> Less(Key(order, x.name), Key(order, y.name))
    ensures Ascending(a + ([x] + b), order)
  {
    var s := a + ([x] + b);
    ConcatAt(a, x, b);
    forall i, j | 0 <= i < j < |s| ensures Less(Key(order, s[i].name), Key(order, s[j].name)) {
      if i < |a| {
        assert s[i] in a;
        if j > |a| {
          assert s[j] == b[j - |a| - 1];
          assert s[j] in b;
          LessTransitive(Key(order, s[i].name), Key(order, x.name), Key(order, s[j].name));
        }
      } else if i == |a| {
        assert s[j] == b[j - |a| - 1];
        assert s[j] in b;
      } else {
        assert s[i] == b[i - |a| - 1] && s[j] == b[j - |a| - 1];
      }
    }
  }

  /** Insertion by case-sensitive names keeps the in-order sequence of names
      strictly increasing under case-sensitive comparison. */
  lemma InsertAscending(t: Tree, o: Owner)
    requires Ascending(InOrder(t), Exact)
    ensures Ascending(InOrder(Insert(t, o)), Exact)
  {
    OrderedIffAscending(t, Exact);
    InsertOrdered(t, o, Exact);
    OrderedIffAscending(Insert(t, o), Exact);
  }

  // ---------------------------------------------------------------------
  // Placement by exact names against lookup by lower-cased names

  /** As written, inserting "alice" and then "Bob" places "Bob" to the left
      ('B' precedes 'a'), where lookup of "bob" (which compares "bob" with
      "alice" and goes right) cannot reach it; the duplicate check of the
      main menu then lets "bob" in as a second owner. */
  lemma InsertCaseMismatch()
    ensures var t := Insert(Insert(Leaf, Owner("alice", [])), Owner("Bob", []));
      && Owner("Bob", []) in InOrder(t)
      && Find(t, "bob").None?
      && !LowerOrdered(t)
      && var t2 := Insert(t, Owner("bob", []));
      && |InOrder(t2)| == 3
      && Owner("Bob", []) in InOrder(t2) && Owner("bob", []) in InOrder(t2)
  {
    assert Lower("alice") == "alice";
    assert Lower("Bob") == "bob";
    assert Lower("bob") == "bob";
    assert Less("Bob", "alice");
    assert !Less("bob", "alice") && Less("alice", "bob");
    var t := Insert(Insert(Leaf, Owner("alice", [])), Owner("Bob", []));
    assert t == Node("alice", [], Node("Bob", [], Leaf, Leaf), Leaf);
    assert "bob" in Keys(t.left, Folded);
  }

  /** The same mismatch lets deletion crash on a name lookup finds: "Z"
      goes left of "b" by raw names, so after "Z" is promoted as the
      successor of "M" its deletion from the right subtree descends by
      "z" > "b" and runs off the tree. */
  lemma DeletePresentCrashes()
    ensures var t := Insert(Insert(Insert(Insert(Leaf, Owner("M", [])), Owner("A", [])), Owner("b", [])), Owner("Z", []));
      && Find(t, "M").Some?
      && Delete(t, "M").None?
  {
    assert Less("A", "M");
    assert Less("M", "b");
    assert Less("M", "Z");
    assert Less("Z", "b");
    var t := Insert(Insert(Insert(Insert(Leaf, Owner("M", [])), Owner("A", [])), Owner("b", [])), Owner("Z", []));
    assert t == Node("M", [], Node("A", [], Leaf, Leaf), Node("b", [], Node("Z", [], Leaf, Leaf), Leaf));
    assert Lower("M") == "m";
    assert Lower("Z") == "z";
    assert Lower("b") == "b";
    assert Less("b", "z") && !Less("z", "b");
    assert Leftmost(t.right).name == "Z";
    assert Delete(t.right, "Z").None?;
  }

  /** Placing by lower-cased names keeps the ordering lookup relies on:
      the new owner is found under its name and every other lookup is
      unaffected. */
  lemma InsertLowerFinds(t: Tree, o: Owner, q: string)
    requires LowerOrdered(t)
    requires Lower(o.name) !in Keys(t, Folded)
    ensures LowerOrdered(InsertLower(t, o))
    ensures Find(InsertLower(t, o), o.name) == Some(o)
    ensures Lower(q) != Lower(o.name) ==> Find(InsertLower(t, o), q) == Find(t, q)
  {
    var t' := InsertLower(t, o);
    InsertOrdered(t, o, Folded);
    InsertKeys(t, o, Folded);
    InsertAbsent(t, o, Folded);
    assert o in multiset(InOrder(t'));
    FindComplete(t', o.name);
    FindComplete(t', q);
    FindComplete(t, q);
    if Lower(q) != Lower(o.name) && Find(t, q).Some? {
      var f := Find(t, q).value;
      assert f in multiset(InOrder(t));
      assert f in multiset(InOrder(t'));
    }
  }
}
