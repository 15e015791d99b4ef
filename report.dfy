/** The owners report: every owner, gathered in in-order, sorted by the key
    (number of pokemon, lower-cased name). */
module Report {
  import opened Strings
  import opened OwnerTree
  import opened Traversals

  /** The sort key comparison: fewer pokemon first, then lower-cased names
      in Python's string order (tuples compare component by component). */
  predicate KeyLess(a: Owner, b: Owner)
  {
    |a.pokedex| < |b.pokedex| || (|a.pokedex| == |b.pokedex| && Less(Lower(a.name), Lower(b.name)))
  }

  /** No owner is followed by one with a smaller key. */
  predicate SortedByKey(s: seq<Owner>)
  {
    forall i, j :: 0 <= i < j < |s| ==> !KeyLess(s[j], s[i])
  }

  /** Lower-cased names are pairwise distinct, as the registry keeps them. */
  predicate DistinctNames(s: seq<Owner>)
  {
    forall i, j :: 0 <= i < j < |s| ==> Lower(s[i].name) != Lower(s[j].name)
  }

  /** "Not smaller" is transitive. */
  lemma NotKeyLessTransitive(a: Owner, b: Owner, c: Owner)
    requires !KeyLess(a, b) && !KeyLess(b, c)
    ensures !KeyLess(a, c)
  {
    var la, lb, lc := Lower(a.name), Lower(b.name), Lower(c.name);
    LessTotal(la, lb);
    if KeyLess(a, c) && la != lb {
      LessTransitive(lb, la, lc);
    }
  }

  /** Owners with distinct lower-cased names are strictly ordered by the key. */
  lemma KeyLessTotal(a: Owner, b: Owner)
    requires Lower(a.name) != Lower(b.name)
    ensures KeyLess(a, b) || KeyLess(b, a)
  {
    LessTotal(Lower(a.name), Lower(b.name));
  }

  // ---------------------------------------------------------------------
  // The sort

  /** Insert `x` before the first element whose key is not smaller than
      its own. */
  function InsertByKey(x: Owner, s: seq<Owner>): (r: seq<Owner>)
    ensures |r| == |s| + 1
  {
    if s == [] then [x]
    else if KeyLess(s[0], x) then [s[0]] + InsertByKey(x, s[1..])
    else [x] + s
  }

  /** Sorting by the key, inserting each owner into the sorted rest: the
      result is sorted and a permutation of the input. */
  function SortByKey(s: seq<Owner>): (r: seq<Owner>)
    ensures SortedByKey(r)
    ensures multiset(r) == multiset(s)
  {
    if s == [] then []
    else
      var rest := SortByKey(s[1..]);
      InsertByKeySorted(s[0], rest);
      InsertByKeyPermutes(s[0], rest);
      assert s == [s[0]] + s[1..];
      InsertByKey(s[0], rest)
  }

  /** Two owners have the same sort key. */
  predicate SameKey(a: Owner, b: Owner)
  {
    |a.pokedex| == |b.pokedex| && Lower(a.name) == Lower(b.name)
  }

  /** The owners of `s` whose key is that of `k`, in their order in `s`. */
  function Ties(s: seq<Owner>, k: Owner): seq<Owner>
  {
    if s == [] then []
    else (if SameKey(s[0], k) then [s[0]] else []) + Ties(s[1..], k)
  }

  /** Inserting `x` puts it ahead of every owner with its key. */
  lemma {:induction false} InsertByKeyTies(x: Owner, s: seq<Owner>, k: Owner)
    ensures Ties(InsertByKey(x, s), k) == (if SameKey(x, k) then [x] else []) + Ties(s, k)
  {
    if s != [] && KeyLess(s[0], x) {
      InsertByKeyTies(x, s[1..], k);
      if SameKey(s[0], k) && SameKey(x, k) {
        LessIrreflexive(Lower(x.name));
      }
      assert ([s[0]] + InsertByKey(x, s[1..]))[1..] == InsertByKey(x, s[1..]);
    } else {
      assert ([x] + s)[1..] == s;
    }
  }

  /** The sort is stable: owners with equal keys keep their input order. */
  lemma {:induction false} SortByKeyStable(s: seq<Owner>, k: Owner)
    ensures Ties(SortByKey(s), k) == Ties(s, k)
  {
    if s != [] {
      SortByKeyStable(s[1..], k);
      InsertByKeyTies(s[0], SortByKey(s[1..]), k);
    }
  }

  lemma {:induction false} InsertByKeyPermutes(x: Owner, s: seq<Owner>)
    ensures multiset(InsertByKey(x, s)) == multiset(s) + multiset{x}
  {
    if s != [] && KeyLess(s[0], x) {
      InsertByKeyPermutes(x, s[1..]);
      assert s == [s[0]] + s[1..];
    }
  }

  /** A sorted sequence extended at the front by an owner no larger than
      any of its elements stays sorted. */
  lemma SortedCons(y: Owner, s: seq<Owner>)
    requires SortedByKey(s)
    requires forall z :: z in s ==> !KeyLess(z, y)
    ensures SortedByKey([y] + s)
  {
    var r := [y] + s;
    forall i, j | 0 <= i < j < |r| ensures !KeyLess(r[j], r[i]) {
      assert r[j] == s[j - 1];
      if i > 0 {
        assert r[i] == s[i - 1];
      } else {
        assert r[j] in s;
      }
    }
  }

  lemma {:induction false} InsertByKeySorted(x: Owner, s: seq<Owner>)
    requires SortedByKey(s)
    ensures SortedByKey(InsertByKey(x, s))
  {
    if s == [] {
    } else if KeyLess(s[0], x) {
      var t := s[1..];
      assert SortedByKey(t) by {
        forall i, j | 0 <= i < j < |t| ensures !KeyLess(t[j], t[i]) {
          assert t[i] == s[i + 1] && t[j] == s[j + 1];
        }
      }
      InsertByKeySorted(x, t);
      InsertByKeyPermutes(x, t);
      forall z | z in InsertByKey(x, t) ensures !KeyLess(z, s[0]) {
        assert z in multiset(InsertByKey(x, t));
        if z != x {
          assert z in t;
          var j :| 0 <= j < |t| && t[j] == z;
          assert s[j + 1] == z;
        } else {
          KeyLessAsymmetric(s[0], x);
        }
      }
      SortedCons(s[0], InsertByKey(x, t));
    } else {
      forall z | z in s ensures !KeyLess(z, x) {
        var j :| 0 <= j < |s| && s[j] == z;
        if j > 0 {
          NotKeyLessTransitive(z, s[0], x);
        }
      }
      SortedCons(x, s);
    }
  }

  lemma KeyLessAsymmetric(a: Owner, b: Owner)
    ensures KeyLess(a, b) ==> !KeyLess(b, a)
  {
    LessAsymmetric(Lower(a.name), Lower(b.name));
  }

  /** Owners of a collection that share a lower-cased name are one and the
      same owner, held once. */
  ghost predicate UniqueNames(m: multiset<Owner>)
  {
    forall x, y :: x in m && y in m && Lower(x.name) == Lower(y.name) ==> x == y && m[x] == 1
  }

  lemma UniqueNamesSub(m: multiset<Owner>, m': multiset<Owner>)
    requires UniqueNames(m) && m' <= m
    ensures UniqueNames(m')
  {
  }

  /** Under unique lower-cased names the key is a strict order, so there is
      only one sorted arrangement of a given collection of owners. */
  lemma {:induction false} SortedUnique(a: seq<Owner>, b: seq<Owner>)
    requires SortedByKey(a) && SortedByKey(b)
    requires multiset(a) == multiset(b) && UniqueNames(multiset(a))
    ensures a == b
    decreases |a|
  {
    assert |a| == |b| by {
      assert |multiset(a)| == |multiset(b)|;
    }
    if a != [] {
      SortedHeads(a, b);
      var a', b' := a[1..], b[1..];
      assert a == [a[0]] + a' && b == [b[0]] + b';
      assert multiset(a) == multiset{a[0]} + multiset(a');
      assert multiset(b) == multiset{b[0]} + multiset(b');
      SortedTail(a);
      SortedTail(b);
      UniqueNamesSub(multiset(a), multiset(a'));
      SortedUnique(a', b');
    }
  }

  /** Two sorted arrangements of the same owners start with the same owner. */
  lemma SortedHeads(a: seq<Owner>, b: seq<Owner>)
    requires a != [] && SortedByKey(a) && SortedByKey(b)
    requires multiset(a) == multiset(b) && UniqueNames(multiset(a))
    ensures b != [] && a[0] == b[0]
  {
    assert a[0] in multiset(b);
    var j :| 0 <= j < |b| && b[j] == a[0];
    assert b[0] in multiset(a);
    var i :| 0 <= i < |a| && a[i] == b[0];
    if Lower(a[0].name) != Lower(b[0].name) {
      KeyLessTotal(a[0], b[0]);
    }
  }

  lemma SortedTail(s: seq<Owner>)
    requires s != [] && SortedByKey(s)
    ensures SortedByKey(s[1..])
  {
    var t := s[1..];
    forall i, j | 0 <= i < j < |t| ensures !KeyLess(t[j], t[i]) {
      assert t[i] == s[i + 1] && t[j] == s[j + 1];
    }
  }

  // ---------------------------------------------------------------------
  // The report

  /** In a registry ordered by lower-cased names, those names are distinct. */
  lemma RegistryNamesDistinct(t: Tree)
    requires LowerOrdered(t)
    ensures DistinctNames(InOrder(t))
  {
    OrderedIffAscending(t, Folded);
    var s := InOrder(t);
    forall i, j | 0 <= i < j < |s| ensures Lower(s[i].name) != Lower(s[j].name) {
      LessIrreflexive(Lower(s[i].name));
    }
  }

  /** `sort_owners_by_num_pokemon`: gather the owners in in-order, then sort
      them by (number of pokemon, lower-cased name), owners with equal keys
      staying in in-order. An empty registry gives an empty report. */
  method SortOwnersByNumPokemon(root: Tree) returns (report: seq<Owner>)
    ensures SortedByKey(report)
    ensures multiset(report) == NodeBag(root)
    ensures root.Leaf? <==> report == []
    ensures LowerOrdered(root) ==> report == SortByKey(InOrder(root))
    ensures forall k :: Ties(report, k) == Ties(InOrder(root), k)
  {
    if root.Leaf? {
      return [];
    }
    var owners := GatherAllOwners(root, []);
    assert owners == InOrder(root);
    report := SortByKey(owners);
    InOrderVisitsEachOnce(root);
    forall k {
      SortByKeyStable(owners, k);
    }
  }

  /** Any sorted arrangement of the registry's owners is the report: it does
      not depend on how the sort breaks ties, because there are none. */
  lemma ReportDetermined(root: Tree, s: seq<Owner>)
    requires LowerOrdered(root)
    requires SortedByKey(s) && multiset(s) == multiset(InOrder(root))
    ensures s == SortByKey(InOrder(root))
  {
    var o := InOrder(root);
    RegistryNamesDistinct(root);
    DistinctNamesUnique(o);
    SortedUnique(s, SortByKey(o));
  }

  lemma DistinctNamesUnique(o: seq<Owner>)
    requires DistinctNames(o)
    ensures UniqueNames(multiset(o))
  {
    var m := multiset(o);
    forall x, y | x in m && y in m && Lower(x.name) == Lower(y.name) ensures x == y && m[x] == 1 {
      var p :| 0 <= p < |o| && o[p] == x;
      var q :| 0 <= q < |o| && o[q] == y;
      assert p == q;
      NamesDistinctCount(o, p);
    }
  }

  /** An owner occurs once in a sequence with distinct lower-cased names. */
  lemma NamesDistinctCount(o: seq<Owner>, p: int)
    requires DistinctNames(o) && 0 <= p < |o|
    ensures multiset(o)[o[p]] == 1
  {
    var x := o[p];
    assert o == o[..p] + [x] + o[p + 1..];
    NotIn(o[..p], o, p, 0);
    NotIn(o[p + 1..], o, p, p + 1);
  }

  /** A stretch of `o` that skips position `p` does not hold `o[p]`. */
  lemma NotIn(part: seq<Owner>, o: seq<Owner>, p: int, at: int)
    requires DistinctNames(o) && 0 <= p < |o|
    requires 0 <= at && at + |part| <= |o| && part == o[at..at + |part|]
    requires p < at || at + |part| <= p
    ensures o[p] !in part
  {
    forall k | 0 <= k < |part| ensures part[k] != o[p] {
      assert part[k] == o[at + k];
    }
  }
}
