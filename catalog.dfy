/** The reference catalog of creatures: its record, the two catalog lookups,
    the starter choice and the row loop of the catalog reader. */
module Catalog {
  import opened Wrappers
  import opened Strings

  /** One catalog row. `kind` is the "Type" column; `canEvolve` keeps the
      upper-cased text of the "Can Evolve" column, normally "TRUE" or "FALSE". */
  datatype Pokemon = Pokemon(id: int, name: string, kind: string, hp: int, attack: int, canEvolve: string)

  /** `get_poke_dict_by_id`: the first catalog entry with the given ID, if any. */
  function GetPokeById(catalog: seq<Pokemon>, id: int): (r: Option<Pokemon>)
    ensures r.None? <==> forall i :: 0 <= i < |catalog| ==> catalog[i].id != id
    ensures r.Some? ==> exists i :: 0 <= i < |catalog| && catalog[i] == r.value && r.value.id == id
                                   && forall j :: 0 <= j < i ==> catalog[j].id != id
  {
    if catalog == [] then None
    else if catalog[0].id == id then Some(catalog[0])
    else
      var r := GetPokeById(catalog[1..], id);
      assert r.Some? ==> exists i :: 1 <= i < |catalog| && catalog[i] == r.value && r.value.id == id
                                     && forall j :: 0 <= j < i ==> catalog[j].id != id by {
        if r.Some? {
          var i :| 0 <= i < |catalog[1..]| && catalog[1..][i] == r.value && r.value.id == id
                   && forall j :: 0 <= j < i ==> catalog[1..][j].id != id;
          assert catalog[i + 1] == r.value;
          assert forall j :: 1 <= j < i + 1 ==> catalog[j].id != id by {
            forall j | 1 <= j < i + 1 ensures catalog[j].id != id {
              assert catalog[j] == catalog[1..][j - 1];
            }
          }
        }
      }
      r
  }

  /** The name comparison of `get_poke_dict_by_name`: the query is stripped
      and lower-cased, the catalog name only lower-cased. */
  predicate NameIs(p: Pokemon, query: string)
  {
    Lower(p.name) == Lower(Strip(query))
  }

  /** `get_poke_dict_by_name`: the first catalog entry whose name matches. */
  function GetPokeByName(catalog: seq<Pokemon>, query: string): (r: Option<Pokemon>)
    ensures r.None? <==> forall i :: 0 <= i < |catalog| ==> !NameIs(catalog[i], query)
    ensures r.Some? ==> exists i :: 0 <= i < |catalog| && catalog[i] == r.value && NameIs(r.value, query)
                                   && forall j :: 0 <= j < i ==> !NameIs(catalog[j], query)
  {
    if catalog == [] then None
    else if NameIs(catalog[0], query) then Some(catalog[0])
    else
      var r := GetPokeByName(catalog[1..], query);
      assert r.Some? ==> exists i :: 1 <= i < |catalog| && catalog[i] == r.value && NameIs(r.value, query)
                                     && forall j :: 0 <= j < i ==> !NameIs(catalog[j], query) by {
        if r.Some? {
          var i :| 0 <= i < |catalog[1..]| && catalog[1..][i] == r.value && NameIs(r.value, query)
                   && forall j :: 0 <= j < i ==> !NameIs(catalog[1..][j], query);
          assert catalog[i + 1] == r.value;
          forall j | 1 <= j < i + 1 ensures !NameIs(catalog[j], query) {
            assert catalog[j] == catalog[1..][j - 1];
          }
        }
      }
      r
  }

  /** Why no starter is picked: a choice other than 1, 2 or 3, or a catalog
      too short for the position the choice reads (the program's IndexError). */
  datatype StarterError = NotAChoice | CatalogTooShort

  /** The starter choice of `create_owner_node`: 1, 2 and 3 pick catalog
      positions 0, 3 and 6 (Treecko, Torchic, Mudkip); anything else picks none. */
  function Starter(choice: int, catalog: seq<Pokemon>): (r: Result<Pokemon, StarterError>)
    ensures r == Failure(NotAChoice) <==> !(1 <= choice <= 3)
    ensures r.Success? <==> 1 <= choice <= 3 && 3 * (choice - 1) < |catalog|
    ensures r.Success? ==> r.value == catalog[3 * (choice - 1)]
  {
    if choice == 1 then Pick(catalog, 0)
    else if choice == 2 then Pick(catalog, 3)
    else if choice == 3 then Pick(catalog, 6)
    else Failure(NotAChoice)
  }

  /** Indexing the catalog, failing where Python raises IndexError. */
  function Pick(catalog: seq<Pokemon>, i: nat): Result<Pokemon, StarterError>
  {
    if i < |catalog| then Success(catalog[i]) else Failure(CatalogTooShort)
  }

  /** Why a data row cannot be read: a field that `int()` rejects, or a row
      too short for the field being read. */
  datatype FieldError = NotANumber | MissingField

  /** Reading the catalog fails at a row, for a reason. */
  datatype LoadError = LoadError(row: nat, error: FieldError)

  /** A row that ends the data: empty, or with a blank first field. */
  predicate IsSentinel(row: seq<string>)
  {
    row == [] || Strip(row[0]) == []
  }

  /** One data row as `read_hoenn_csv` builds it, with `parseInt` standing for
      Python's `int()`. Fields are read in the order the program reads them,
      so the first failing field decides the error. */
  function ParseRow(row: seq<string>, parseInt: string -> Option<int>): (r: Result<Pokemon, FieldError>)
    requires row != []
    ensures r.Success? <==>
      |row| >= 6 && parseInt(row[0]).Some? && parseInt(row[3]).Some? && parseInt(row[4]).Some?
    ensures r.Success? ==>
      r.value == Pokemon(parseInt(row[0]).value, row[1], row[2], parseInt(row[3]).value,
                         parseInt(row[4]).value, Upper(row[5]))
    ensures r == Failure(MissingField) ==> |row| < 6
    ensures r == Failure(NotANumber) <==>
      || parseInt(row[0]).None?
      || (|row| >= 4 && parseInt(row[3]).None?)
      || (|row| >= 5 && parseInt(row[3]).Some? && parseInt(row[4]).None?)
  {
    match parseInt(row[0])
    case None => Failure(NotANumber)
    case Some(id) =>
      if |row| < 4 then Failure(MissingField)
      else match parseInt(row[3])
      case None => Failure(NotANumber)
      case Some(hp) =>
        if |row| < 5 then Failure(MissingField)
        else match parseInt(row[4])
        case None => Failure(NotANumber)
        case Some(attack) =>
          if |row| < 6 then Failure(MissingField)
          else Success(Pokemon(id, row[1], row[2], hp, attack, Upper(row[5])))
  }

  /** Index of the first sentinel row at or after `from`, or `|rows|`. */
  function SentinelFrom(rows: seq<seq<string>>, from: nat): (e: nat)
    requires from <= |rows|
    ensures from <= e <= |rows|
    ensures e < |rows| ==> IsSentinel(rows[e])
    ensures forall k :: from <= k < e ==> !IsSentinel(rows[k])
    decreases |rows| - from
  {
    if from == |rows| || IsSentinel(rows[from]) then from else SentinelFrom(rows, from + 1)
  }

  /** The data rows: everything after the header, up to the first sentinel. */
  function DataEnd(rows: seq<seq<string>>): (e: nat)
    ensures e <= |rows|
  {
    if rows == [] then 0 else SentinelFrom(rows, 1)
  }

  /** The row loop of `read_hoenn_csv` over rows already split into fields:
      skip the header, stop at the first sentinel row, convert the rest; the
      first row that cannot be converted ends the load with its error. */
  method ReadRows(rows: seq<seq<string>>, parseInt: string -> Option<int>)
    returns (r: Result<seq<Pokemon>, LoadError>)
    ensures r.Success? <==> forall k :: 1 <= k < DataEnd(rows) ==> ParseRow(rows[k], parseInt).Success?
    ensures r.Success? ==> |r.value| + 1 == DataEnd(rows) || (rows == [] && r.value == [])
    ensures r.Success? ==> forall k :: 1 <= k < DataEnd(rows) ==> ParseRow(rows[k], parseInt) == Success(r.value[k - 1])
    ensures r.Failure? ==>
      && 1 <= r.error.row < DataEnd(rows)
      && ParseRow(rows[r.error.row], parseInt) == Failure(r.error.error)
      && forall k :: 1 <= k < r.error.row ==> ParseRow(rows[k], parseInt).Success?
  {
    var data: seq<Pokemon> := [];
    if rows == [] {
      return Success(data);
    }
    var end := DataEnd(rows);
    var k := 1;
    while k < |rows|
      invariant 1 <= k <= end
      invariant |data| == k - 1
      invariant forall j :: 1 <= j < k ==> ParseRow(rows[j], parseInt) == Success(data[j - 1])
    {
      var row := rows[k];
      if IsSentinel(row) {
        break;
      }
      var p := ParseRow(row, parseInt);
      if p.Failure? {
        return Failure(LoadError(k, p.error));
      }
      data := data + [p.value];
      k := k + 1;
    }
    return Success(data);
  }
}
