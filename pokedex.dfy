/** The per-owner collection operations: add by catalog ID, release by name,
    evolve by name, and the display filters. A pokedex is a sequence of
    catalog entries; an operation returns the owner's new pokedex and what
    happened, which the console program reports. */
module Pokedex {
  import opened Wrappers
  import opened Strings
  import opened Catalog

  /** Some entry of `dex` has ID `id`. */
  predicate HoldsId(dex: seq<Pokemon>, id: int)
  {
    exists p :: p in dex && p.id == id
  }

  /** No two entries share an ID: the set-like uniqueness add and evolve keep. */
  predicate UniqueIds(dex: seq<Pokemon>)
  {
    forall i, j :: 0 <= i < j < |dex| ==> dex[i].id != dex[j].id
  }

  /** The scan for an entry with a given ID, shared by add and evolve. */
  method HasId(dex: seq<Pokemon>, id: int) returns (found: bool)
    ensures found <==> HoldsId(dex, id)
  {
    var i := 0;
    while i < |dex|
      invariant 0 <= i <= |dex|
      invariant forall j :: 0 <= j < i ==> dex[j].id != id
    {
      if dex[i].id == id {
        return true;
      }
      i := i + 1;
    }
    found := false;
  }

  /** Appending an entry whose ID is not held keeps IDs unique. */
  lemma AppendKeepsUnique(dex: seq<Pokemon>, p: Pokemon)
    requires UniqueIds(dex) && !HoldsId(dex, p.id)
    ensures UniqueIds(dex + [p])
  {
    var r := dex + [p];
    forall i, j | 0 <= i < j < |r| ensures r[i].id != r[j].id {
      assert r[i] == dex[i];
      if j == |dex| {
        assert r[i] in dex;
      } else {
        assert r[j] == dex[j];
      }
    }
  }

  // ---------------------------------------------------------------------
  // Add

  datatype AddStatus = NotInCatalog | AlreadyHeld | Added

  /** `add_pokemon_to_owner`: look the ID up in the catalog; if it is there
      and not yet held, append the catalog entry at the end. */
  method AddPokemonToOwner(dex: seq<Pokemon>, catalog: seq<Pokemon>, id: int)
    returns (dex': seq<Pokemon>, status: AddStatus)
    ensures status == NotInCatalog <==> GetPokeById(catalog, id).None?
    ensures status == AlreadyHeld <==> GetPokeById(catalog, id).Some? && HoldsId(dex, id)
    ensures status != Added ==> dex' == dex
    ensures status == Added ==> dex' == dex + [GetPokeById(catalog, id).value]
    ensures status == Added ==> dex'[|dex|].id == id
    ensures UniqueIds(dex) ==> UniqueIds(dex')
  {
    var pokemon := GetPokeById(catalog, id);
    if pokemon.None? {
      return dex, NotInCatalog;
    }
    var held := HasId(dex, pokemon.value.id);
    if held {
      return dex, AlreadyHeld;
    }
    dex' := dex + [pokemon.value];
    status := Added;
    if UniqueIds(dex) {
      AppendKeepsUnique(dex, pokemon.value);
    }
  }

  // ---------------------------------------------------------------------
  // Matching by name, release

  /** The name comparison of release and evolve: both sides stripped and
      lower-cased. */
  predicate NameMatches(p: Pokemon, query: string)
  {
    Lower(Strip(p.name)) == Lower(Strip(query))
  }

  /** The position of the first entry whose name matches, or -1. */
  function FirstMatch(dex: seq<Pokemon>, query: string): (i: int)
    ensures -1 <= i < |dex|
    ensures i >= 0 ==> NameMatches(dex[i], query)
    ensures forall j :: 0 <= j < (if i < 0 then |dex| else i) ==> !NameMatches(dex[j], query)
  {
    if dex == [] then -1
    else if NameMatches(dex[0], query) then 0
    else
      var k := FirstMatch(dex[1..], query);
      assert forall j :: 0 < j < |dex| ==> dex[j] == dex[1..][j - 1];
      if k < 0 then -1 else k + 1
  }

  /** The scan of release and evolve: walk the pokedex up to the first match. */
  method ScanForName(dex: seq<Pokemon>, query: string) returns (i: int)
    ensures i == FirstMatch(dex, query)
  {
    i := 0;
    while i < |dex|
      invariant 0 <= i <= |dex|
      invariant forall j :: 0 <= j < i ==> !NameMatches(dex[j], query)
    {
      if NameMatches(dex[i], query) {
        FirstMatchIs(dex, query, i);
        return;
      }
      i := i + 1;
    }
    FirstMatchNone(dex, query);
    i := -1;
  }

  /** The first match is determined by the entries before it. */
  lemma FirstMatchIs(dex: seq<Pokemon>, query: string, i: int)
    requires 0 <= i < |dex| && NameMatches(dex[i], query)
    requires forall j :: 0 <= j < i ==> !NameMatches(dex[j], query)
    ensures FirstMatch(dex, query) == i
  {
  }

  lemma FirstMatchNone(dex: seq<Pokemon>, query: string)
    requires forall j :: 0 <= j < |dex| ==> !NameMatches(dex[j], query)
    ensures FirstMatch(dex, query) == -1
  {
  }

  /** `list.remove` of the entry at position `i`: every other entry stays,
      in order. */
  function RemoveAt(dex: seq<Pokemon>, i: int): (r: seq<Pokemon>)
    requires 0 <= i < |dex|
    ensures |r| == |dex| - 1
    ensures forall j :: 0 <= j < i ==> r[j] == dex[j]
    ensures forall j :: i <= j < |r| ==> r[j] == dex[j + 1]
  {
    dex[..i] + dex[i + 1..]
  }

  lemma RemoveAtPermutes(dex: seq<Pokemon>, i: int)
    requires 0 <= i < |dex|
    ensures multiset(RemoveAt(dex, i)) + multiset{dex[i]} == multiset(dex)
  {
    assert dex == dex[..i] + [dex[i]] + dex[i + 1..];
  }

  lemma RemoveAtKeepsUnique(dex: seq<Pokemon>, i: int)
    requires 0 <= i < |dex| && UniqueIds(dex)
    ensures UniqueIds(RemoveAt(dex, i))
  {
    var r := RemoveAt(dex, i);
    forall a, b | 0 <= a < b < |r| ensures r[a].id != r[b].id {
      var a' := if a < i then a else a + 1;
      var b' := if b < i then b else b + 1;
      assert r[a] == dex[a'] && r[b] == dex[b'];
    }
  }

  /** `release_pokemon_by_name`: remove the first entry whose name matches;
      with no match, nothing changes. */
  method ReleasePokemonByName(dex: seq<Pokemon>, query: string)
    returns (dex': seq<Pokemon>, released: bool)
    ensures released <==> exists j :: 0 <= j < |dex| && NameMatches(dex[j], query)
    ensures !released ==> dex' == dex
    ensures released ==> dex' == RemoveAt(dex, FirstMatch(dex, query))
    ensures |dex'| == if released then |dex| - 1 else |dex|
    ensures UniqueIds(dex) ==> UniqueIds(dex')
  {
    var i := ScanForName(dex, query);
    if i < 0 {
      return dex, false;
    }
    dex' := RemoveAt(dex, i);
    released := true;
    if UniqueIds(dex) {
      RemoveAtKeepsUnique(dex, i);
    }
  }

  // ---------------------------------------------------------------------
  // Evolve

  datatype EvolveStatus = NoSuchPokemon | CannotEvolve | NoEvolution | EvolvedAlreadyHeld | Evolved

  /** `evolve_pokemon_by_name`: find the first entry whose name matches; if
      its "Can Evolve" field is exactly "FALSE", or the catalog has no entry
      with the next ID, nothing changes. Otherwise the original is removed
      and the catalog entry with the next ID is appended, unless that ID is
      already held, in which case the evolved form is not added. */
  method EvolvePokemonByName(dex: seq<Pokemon>, catalog: seq<Pokemon>, query: string)
    returns (dex': seq<Pokemon>, status: EvolveStatus)
    ensures status == NoSuchPokemon <==> FirstMatch(dex, query) < 0
    ensures status == CannotEvolve <==>
      FirstMatch(dex, query) >= 0 && dex[FirstMatch(dex, query)].canEvolve == "FALSE"
    ensures status == NoEvolution <==>
      && FirstMatch(dex, query) >= 0
      && dex[FirstMatch(dex, query)].canEvolve != "FALSE"
      && GetPokeById(catalog, dex[FirstMatch(dex, query)].id + 1).None?
    ensures status in {NoSuchPokemon, CannotEvolve, NoEvolution} ==> dex' == dex
    ensures status == EvolvedAlreadyHeld ==>
      && dex' == RemoveAt(dex, FirstMatch(dex, query))
      && HoldsId(dex', dex[FirstMatch(dex, query)].id + 1)
    ensures status == Evolved ==>
      && !HoldsId(RemoveAt(dex, FirstMatch(dex, query)), dex[FirstMatch(dex, query)].id + 1)
      && dex' == RemoveAt(dex, FirstMatch(dex, query)) + [GetPokeById(catalog, dex[FirstMatch(dex, query)].id + 1).value]
    ensures UniqueIds(dex) ==> UniqueIds(dex')
  {
    var i := ScanForName(dex, query);
    if i < 0 {
      return dex, NoSuchPokemon;
    }
    var poke := dex[i];
    if poke.canEvolve == "FALSE" {
      return dex, CannotEvolve;
    }
    var evolved := GetPokeById(catalog, poke.id + 1);
    if evolved.None? {
      return dex, NoEvolution;
    }
    dex' := RemoveAt(dex, i);
    if UniqueIds(dex) {
      RemoveAtKeepsUnique(dex, i);
    }
    var held := HasId(dex', evolved.value.id);
    if held {
      status := EvolvedAlreadyHeld;
      return;
    }
    if UniqueIds(dex') {
      AppendKeepsUnique(dex', evolved.value);
    }
    dex' := dex' + [evolved.value];
    status := Evolved;
  }

  /** A completed evolution (the successor was not held) replaces the
      original by its successor: the pokedex keeps its size and exactly those
      two entries are swapped. */
  lemma EvolveSize(dex: seq<Pokemon>, i: int, e: Pokemon)
    requires 0 <= i < |dex|
    ensures |RemoveAt(dex, i) + [e]| == |dex|
    ensures multiset(RemoveAt(dex, i) + [e]) == multiset(dex) - multiset{dex[i]} + multiset{e}
  {
    RemoveAtPermutes(dex, i);
  }

  // ---------------------------------------------------------------------
  // Display filters

  /** The six choices of the display filter menu, with the values read from
      the console as parameters. */
  datatype Criterion =
    | OfType(kind: string)
    | Evolvable
    | AttackAbove(threshold: int)
    | HpAbove(threshold: int)
    | NameStartsWith(prefix: string)
    | Everything

  /** Whether the chosen filter shows an entry. "All of them" and a blank
      name prefix show every entry. */
  predicate Keeps(c: Criterion, p: Pokemon)
    ensures c.Everything? ==> Keeps(c, p)
    ensures c.NameStartsWith? && Strip(c.prefix) == [] ==> Keeps(c, p)
  {
    match c
    case OfType(kind) => Lower(p.kind) == Lower(Strip(kind))
    case Evolvable => p.canEvolve == "TRUE"
    case AttackAbove(t) => p.attack > t
    case HpAbove(t) => p.hp > t
    case NameStartsWith(prefix) => StartsWith(Lower(p.name), Lower(Strip(prefix)))
    case Everything => true
  }

  /** The type and name-prefix filters lower-case what is typed, so typing
      it in capitals ("GRASS") filters exactly as typing it in small letters. */
  lemma KeepsIgnoresCase(text: string, p: Pokemon)
    ensures Keeps(OfType(Upper(text)), p) == Keeps(OfType(text), p)
    ensures Keeps(NameStartsWith(Upper(text)), p) == Keeps(NameStartsWith(text), p)
  {
    StripUpper(text);
    LowerUpper(Strip(text));
  }

  /** The list comprehension of the filter menu: the entries the criterion
      keeps, in their original order. */
  function Filter(dex: seq<Pokemon>, c: Criterion): (r: seq<Pokemon>)
    ensures |r| <= |dex|
  {
    if dex == [] then []
    else if Keeps(c, dex[0]) then [dex[0]] + Filter(dex[1..], c)
    else Filter(dex[1..], c)
  }

  /** Each entry occurs in the result as often as in the pokedex when the
      criterion keeps it, and not at all otherwise. */
  lemma {:induction false} FilterCounts(dex: seq<Pokemon>, c: Criterion, p: Pokemon)
    ensures multiset(Filter(dex, c))[p] == if Keeps(c, p) then multiset(dex)[p] else 0
  {
    if dex != [] {
      FilterCounts(dex[1..], c, p);
      assert dex == [dex[0]] + dex[1..];
    }
  }

  /** Filtering preserves order: it distributes over concatenation. */
  lemma {:induction false} FilterConcat(a: seq<Pokemon>, b: seq<Pokemon>, c: Criterion)
    ensures Filter(a + b, c) == Filter(a, c) + Filter(b, c)
  {
    if a == [] {
      assert a + b == b;
    } else {
      assert (a + b)[0] == a[0];
      assert (a + b)[1..] == a[1..] + b;
      FilterConcat(a[1..], b, c);
    }
  }

  /** Filtering again by the same criterion changes nothing. */
  lemma {:induction false} FilterIdempotent(dex: seq<Pokemon>, c: Criterion)
    ensures Filter(Filter(dex, c), c) == Filter(dex, c)
  {
    if dex != [] {
      FilterIdempotent(dex[1..], c);
      if Keeps(c, dex[0]) {
        var r := [dex[0]] + Filter(dex[1..], c);
        assert r[0] == dex[0] && r[1..] == Filter(dex[1..], c);
      }
    }
  }

  /** "All of them" shows the whole pokedex. */
  lemma {:induction false} FilterEverything(dex: seq<Pokemon>)
    ensures Filter(dex, Everything) == dex
  {
    if dex != [] {
      FilterEverything(dex[1..]);
      assert dex == [dex[0]] + dex[1..];
    }
  }
}
