/**
 * The bidirectional name <-> hex table of pixelate/utility/bidict.py.
 *
 * A `BiDict` keeps one dictionary holding both directions of every pair,
 * plus the set of primary keys and the set of values.  `Table` is the value
 * of those three fields; the functions on `Table` say what each operation
 * does to them, and the class `BiDict` performs the same updates in place.
 */
module Bidict {
  import opened Results

  datatype Error =
    | DuplicateKeyOrValue(key: string, value: string)  // "Duplicate key or value"
    | SameKeyAndValue(key: string)                     // "The key and value cannot be the same"
    | KeyNotFound(key: string)                         // Python's KeyError

  /** The fields `_dictionary`, `_keys` and `_values`. */
  datatype Table = Table(dictionary: map<string, string>, keys: set<string>, values: set<string>)

  /**
   * The invariant every operation keeps: keys and values are disjoint and
   * together are the domain of the dictionary, each key maps to a value and
   * each value to a key, and the dictionary is an involution without fixed points.
   */
  ghost predicate Consistent(t: Table) {
    && t.keys !! t.values
    && t.dictionary.Keys == t.keys + t.values
    && (forall k :: k in t.keys ==> t.dictionary[k] in t.values)
    && (forall v :: v in t.values ==> t.dictionary[v] in t.keys)
    && (forall x :: x in t.dictionary ==> t.dictionary[x] != x && t.dictionary[t.dictionary[x]] == x)
  }

  /** The state right after `__init__` has created the empty fields. */
  const Empty: Table := Table(map[], {}, {})

  /** `__setitem__`: reject a key or value already present, or a key equal to its value; else add both directions. */
  function Insert(t: Table, key: string, value: string): Result<Table, Error> {
    if key in t.dictionary || value in t.dictionary.Values then Err(DuplicateKeyOrValue(key, value))
    else if key == value then Err(SameKeyAndValue(key))
    else Ok(Table(t.dictionary[key := value][value := key], t.keys + {key}, t.values + {value}))
  }

  /** `__getitem__`: lookup in either direction. */
  function Get(t: Table, key: string): Result<string, Error> {
    if key in t.dictionary then Ok(t.dictionary[key]) else Err(KeyNotFound(key))
  }

  /** `__delitem__`: only a primary key can be deleted; both directions go. */
  function Delete(t: Table, key: string): Result<Table, Error>
    requires Consistent(t)
  {
    if key !in t.keys then Err(KeyNotFound(key))
    else
      var value := t.dictionary[key];
      Ok(Table(t.dictionary - {value} - {key}, t.keys - {key}, t.values - {value}))
  }

  /** `__len__` */
  function Len(t: Table): int {
    |t.dictionary| / 2
  }

  /** `__contains__` */
  predicate Contains(t: Table, key: string) {
    key in t.dictionary
  }

  /** `items()`: the entries whose key is a primary key. */
  function Items(t: Table): map<string, string> {
    map k | k in t.dictionary && k in t.keys :: t.dictionary[k]
  }

  /** `__init__(**kwargs)`: the pairs inserted one by one into the empty table. */
  function Build(pairs: seq<(string, string)>): Result<Table, Error> {
    InsertAll(Empty, pairs)
  }

  /** The loop of `__init__`, from a given table. */
  function InsertAll(t: Table, pairs: seq<(string, string)>): Result<Table, Error>
    decreases |pairs|
  {
    if pairs == [] then Ok(t)
    else
      match Insert(t, pairs[0].0, pairs[0].1)
      case Ok(t') => InsertAll(t', pairs[1..])
      case Err(e) => Err(e)
  }

  /** The map a sequence of pairs denotes, later pairs winning. */
  function PairsMap(pairs: seq<(string, string)>): map<string, string> {
    if pairs == [] then map[] else PairsMap(pairs[..|pairs| - 1])[pairs[|pairs| - 1].0 := pairs[|pairs| - 1].1]
  }

  // ---------------------------------------------------------------------
  // Properties of the table operations
  // ---------------------------------------------------------------------

  lemma EmptyConsistent()
    ensures Consistent(Empty) && Len(Empty) == 0 && Items(Empty) == map[]
  {
  }

  /** Under the invariant, the values of the dictionary are exactly its keys. */
  lemma ValuesAreDomain(t: Table)
    requires Consistent(t)
    ensures t.dictionary.Values == t.keys + t.values
  {
    forall x | x in t.dictionary.Values
      ensures x in t.keys + t.values
    {
      var y :| y in t.dictionary && t.dictionary[y] == x;
    }
    forall x | x in t.keys + t.values
      ensures x in t.dictionary.Values
    {
      assert t.dictionary[t.dictionary[x]] == x;
    }
  }

  /** `__setitem__` fails exactly when key or value is already present, or they are equal, and says which. */
  lemma InsertRejects(t: Table, key: string, value: string)
    requires Consistent(t)
    ensures Insert(t, key, value).Err? <==>
              key in t.keys || key in t.values || value in t.keys || value in t.values || key == value
    ensures Insert(t, key, value) == Err(DuplicateKeyOrValue(key, value)) <==>
              key in t.keys || key in t.values || value in t.keys || value in t.values
    ensures Insert(t, key, value) == Err(SameKeyAndValue(key)) <==>
              key !in t.keys && key !in t.values && value !in t.keys && value !in t.values && key == value
  {
    ValuesAreDomain(t);
  }

  /** A successful insert keeps the invariant. */
  lemma InsertConsistent(t: Table, key: string, value: string)
    requires Consistent(t) && Insert(t, key, value).Ok?
    ensures Consistent(Insert(t, key, value).value)
  {
    ValuesAreDomain(t);
    var d := t.dictionary[key := value][value := key];
    assert key !in t.dictionary && value !in t.dictionary && key != value;
    forall x | x in d
      ensures d[x] != x && d[x] in d && d[d[x]] == x
    {
      if x != key && x != value {
        assert d[x] == t.dictionary[x];
      }
    }
  }

  /** After a successful insert both directions resolve and every earlier entry is unchanged. */
  lemma InsertEffect(t: Table, key: string, value: string)
    requires Consistent(t) && Insert(t, key, value).Ok?
    ensures var t' := Insert(t, key, value).value;
      && Get(t', key) == Ok(value) && Get(t', value) == Ok(key)
      && (forall x :: x in t.dictionary ==> Get(t', x) == Get(t, x))
      && t'.dictionary.Keys == t.dictionary.Keys + {key, value}
  {
    ValuesAreDomain(t);
  }

  /** A successful insert adds exactly two entries, one pair. */
  lemma InsertSize(t: Table, key: string, value: string)
    requires Consistent(t) && Insert(t, key, value).Ok?
    ensures |Insert(t, key, value).value.dictionary| == |t.dictionary| + 2
    ensures Len(Insert(t, key, value).value) == Len(t) + 1
  {
    var d := t.dictionary;
    var d' := Insert(t, key, value).value.dictionary;
    assert key !in d && value !in d && key != value by { ValuesAreDomain(t); }
    assert d'.Keys == d.Keys + {key} + {value};
    assert |d'.Keys| == |d.Keys| + 2;
  }

  /** A successful insert adds exactly one primary pair to `items()`. */
  lemma InsertItems(t: Table, key: string, value: string)
    requires Consistent(t) && Insert(t, key, value).Ok?
    ensures Items(Insert(t, key, value).value) == Items(t)[key := value]
  {
    ValuesAreDomain(t);
    var t' := Insert(t, key, value).value;
    assert key !in t.dictionary && value !in t.dictionary && key != value;
    assert value !in t'.keys;
    forall k | k in Items(t)
      ensures k in Items(t') && Items(t')[k] == Items(t)[k]
    {
      assert k != key && k != value;
    }
    assert Items(t').Keys == Items(t).Keys + {key};
  }

  /** `__contains__` holds for keys and for values, and for nothing else. */
  lemma ContainsKeysAndValues(t: Table, x: string)
    requires Consistent(t)
    ensures Contains(t, x) <==> x in t.keys || x in t.values
    ensures Contains(t, x) <==> Get(t, x).Ok?
  {
  }

  /** `items()` has exactly the primary keys and maps them onto exactly the values. */
  lemma ItemsArePrimaryPairs(t: Table)
    requires Consistent(t)
    ensures Items(t).Keys == t.keys
    ensures Items(t).Values == t.values
    ensures forall k :: k in t.keys ==> Items(t)[k] == t.dictionary[k] && t.dictionary[t.dictionary[k]] == k
  {
    forall v | v in t.values
      ensures v in Items(t).Values
    {
      var k := t.dictionary[v];
      assert Items(t)[k] == v;
    }
  }

  /** Deleting a primary key removes it and its value from all three fields and keeps the invariant. */
  lemma DeleteEffect(t: Table, key: string)
    requires Consistent(t) && key in t.keys
    ensures Delete(t, key).Ok?
    ensures var t' := Delete(t, key).value; var value := t.dictionary[key];
      && Consistent(t')
      && t'.keys == t.keys - {key} && t'.values == t.values - {value}
      && t'.dictionary.Keys == t.dictionary.Keys - {key, value}
      && (forall x :: x in t'.dictionary ==> t'.dictionary[x] == t.dictionary[x])
      && !Contains(t', key) && !Contains(t', value)
  {
    var value := t.dictionary[key];
    var t' := Delete(t, key).value;
    forall x | x in t'.dictionary
      ensures t'.dictionary[x] != x && t'.dictionary[t'.dictionary[x]] == x
    {
      var y := t.dictionary[x];
      assert t.dictionary[y] == x;
      assert y != key && y != value;
    }
  }

  /** Only a primary key can be deleted: a value or an absent name is a KeyError. */
  lemma DeleteRejects(t: Table, key: string)
    requires Consistent(t)
    ensures Delete(t, key).Err? <==> key !in t.keys
    ensures Delete(t, key).Err? ==> Delete(t, key).error == KeyNotFound(key)
  {
  }

  /** Deleting the key just inserted restores the table. */
  lemma InsertThenDelete(t: Table, key: string, value: string)
    requires Consistent(t) && Insert(t, key, value).Ok?
    ensures Consistent(Insert(t, key, value).value)
    ensures Delete(Insert(t, key, value).value, key) == Ok(t)
  {
    InsertConsistent(t, key, value);
    ValuesAreDomain(t);
    var t' := Insert(t, key, value).value;
    assert t'.dictionary[key] == value;
    var d := t'.dictionary - {value} - {key};
    assert d.Keys == t.dictionary.Keys;
    assert d == t.dictionary;
    assert t'.keys - {key} == t.keys;
    assert t'.values - {value} == t.values;
  }

  /** `len` is the number of pairs: half the dictionary, the number of keys, the number of values. */
  lemma {:induction false} LenCountsPairs(t: Table)
    requires Consistent(t)
    ensures |t.dictionary| == 2 * |t.keys|
    ensures |t.keys| == |t.values|
    ensures Len(t) == |t.keys| == |Items(t)|
    decreases |t.keys|
  {
    ItemsArePrimaryPairs(t);
    assert |Items(t)| == |Items(t).Keys|;
    if t.keys == {} {
      assert t.values == {};
      assert t.dictionary.Keys == {};
    } else {
      var k :| k in t.keys;
      var v := t.dictionary[k];
      DeleteEffect(t, k);
      var t' := Delete(t, k).value;
      LenCountsPairs(t');
      assert |t'.keys| == |t.keys| - 1;
      assert |t'.values| == |t.values| - 1;
      assert |t'.dictionary.Keys| == |t.dictionary.Keys| - 2;
    }
  }

  /** Inserting pairs one by one only ever adds entries. */
  lemma {:induction false} InsertAllGrows(t: Table, pairs: seq<(string, string)>)
    requires Consistent(t) && InsertAll(t, pairs).Ok?
    ensures forall x :: x in t.dictionary ==>
              x in InsertAll(t, pairs).value.dictionary && InsertAll(t, pairs).value.dictionary[x] == t.dictionary[x]
    decreases |pairs|
  {
    if pairs != [] {
      var t' := Insert(t, pairs[0].0, pairs[0].1).value;
      InsertConsistent(t, pairs[0].0, pairs[0].1);
      InsertEffect(t, pairs[0].0, pairs[0].1);
      InsertAllGrows(t', pairs[1..]);
    }
  }

  /** Two pairs with the same value make construction fail (the second insert is a duplicate). */
  lemma {:induction false} InsertAllSharedValueFails(t: Table, pairs: seq<(string, string)>, i: nat, j: nat)
    requires Consistent(t) && i < j < |pairs| && pairs[i].1 == pairs[j].1
    ensures InsertAll(t, pairs).Err?
    decreases |pairs|
  {
    var ins := Insert(t, pairs[0].0, pairs[0].1);
    if ins.Ok? {
      var t' := ins.value;
      InsertConsistent(t, pairs[0].0, pairs[0].1);
      if i == 0 {
        var v := pairs[0].1;
        assert t'.dictionary[pairs[0].0] == v;
        assert v in t'.dictionary.Values;
        InsertAllValueFails(t', pairs[1..], j - 1);
      } else {
        InsertAllSharedValueFails(t', pairs[1..], i - 1, j - 1);
      }
    }
  }

  /** A later pair whose value is already a value of the table makes the inserts fail. */
  lemma {:induction false} InsertAllValueFails(t: Table, pairs: seq<(string, string)>, j: nat)
    requires Consistent(t) && j < |pairs| && pairs[j].1 in t.dictionary.Values
    ensures InsertAll(t, pairs).Err?
    decreases |pairs|
  {
    var ins := Insert(t, pairs[0].0, pairs[0].1);
    if ins.Ok? && j > 0 {
      var t' := ins.value;
      InsertConsistent(t, pairs[0].0, pairs[0].1);
      ValuesAreDomain(t);
      var v := pairs[j].1;
      var y :| y in t.dictionary && t.dictionary[y] == v;
      assert y != pairs[0].0 && y != pairs[0].1;
      assert t'.dictionary[y] == v;
      InsertAllValueFails(t', pairs[1..], j - 1);
    }
  }

  lemma BuildSharedValueFails(pairs: seq<(string, string)>, i: nat, j: nat)
    requires i < j < |pairs| && pairs[i].1 == pairs[j].1
    ensures Build(pairs).Err?
  {
    InsertAllSharedValueFails(Empty, pairs, i, j);
  }

  /** Whatever the constructor builds is consistent, holds exactly the given pairs and has one entry per pair. */
  lemma {:induction false} InsertAllContents(t: Table, pairs: seq<(string, string)>)
    requires Consistent(t) && InsertAll(t, pairs).Ok?
    ensures Consistent(InsertAll(t, pairs).value)
    ensures Items(InsertAll(t, pairs).value) == Items(t) + PairsMap(pairs)
    ensures Len(InsertAll(t, pairs).value) == Len(t) + |pairs|
    decreases |pairs|
  {
    if pairs != [] {
      var t' := Insert(t, pairs[0].0, pairs[0].1).value;
      InsertConsistent(t, pairs[0].0, pairs[0].1);
      InsertSize(t, pairs[0].0, pairs[0].1);
      InsertItems(t, pairs[0].0, pairs[0].1);
      InsertAllContents(t', pairs[1..]);
      var r := InsertAll(t, pairs).value;
      assert r == InsertAll(t', pairs[1..]).value;
      PairsMapCons(pairs, t);
    }
  }

  /** Helper of `InsertAllContents`: peeling the first pair off `PairsMap`. */
  lemma PairsMapCons(pairs: seq<(string, string)>, t: Table)
    requires pairs != [] && Consistent(t)
    requires Insert(t, pairs[0].0, pairs[0].1).Ok?
    requires InsertAll(Insert(t, pairs[0].0, pairs[0].1).value, pairs[1..]).Ok?
    ensures Items(t)[pairs[0].0 := pairs[0].1] + PairsMap(pairs[1..]) == Items(t) + PairsMap(pairs)
  {
    PairsMapFirst(pairs);
  }

  lemma {:induction false} PairsMapFirst(pairs: seq<(string, string)>)
    requires pairs != []
    ensures PairsMap(pairs) == map[pairs[0].0 := pairs[0].1] + PairsMap(pairs[1..])
    decreases |pairs|
  {
    if |pairs| > 1 {
      var n := |pairs|;
      PairsMapFirst(pairs[..n - 1]);
      assert pairs[..n - 1][1..] == pairs[1..][..n - 2];
      assert pairs[..n - 1][0] == pairs[0];
    }
  }

  lemma BuildContents(pairs: seq<(string, string)>)
    requires Build(pairs).Ok?
    ensures Consistent(Build(pairs).value)
    ensures Items(Build(pairs).value) == PairsMap(pairs)
    ensures Len(Build(pairs).value) == |pairs|
  {
    EmptyConsistent();
    InsertAllContents(Empty, pairs);
    EmptyUnion(PairsMap(pairs));
  }

  lemma EmptyUnion(m: map<string, string>)
    ensures map[] + m == m
  {
  }

  // ---------------------------------------------------------------------
  // The class, updated in place
  // ---------------------------------------------------------------------

  class BiDict {
    var dictionary: map<string, string>
    var keys: set<string>
    var values: set<string>

    /** The three fields as one value. */
    function State(): Table
      reads this
    {
      Table(dictionary, keys, values)
    }

    ghost predicate Valid()
      reads this
    {
      Consistent(State())
    }

    /** The empty table `__init__` starts from. */
    constructor ()
      ensures Valid() && State() == Empty
    {
      dictionary, keys, values := map[], {}, {};
    }

    /** `BiDict(**kwargs)`: an empty table followed by one `__setitem__` per pair, failing on the first rejected pair. */
    static method New(pairs: seq<(string, string)>) returns (r: Result<BiDict, Error>)
      ensures r.Ok? ==> fresh(r.value) && r.value.Valid() && Build(pairs) == Ok(r.value.State())
      ensures r.Err? ==> Build(pairs) == Err(r.error)
    {
      var d := new BiDict();
      var i := 0;
      while i < |pairs|
        invariant 0 <= i <= |pairs|
        invariant d.Valid()
        invariant Build(pairs) == InsertAll(d.State(), pairs[i..])
      {
        var outcome := d.Set(pairs[i].0, pairs[i].1);
        if outcome.Fail? {
          return Err(outcome.error);
        }
        assert pairs[i..][1..] == pairs[i + 1..];
        i := i + 1;
      }
      return Ok(d);
    }

    /** `__setitem__` */
    method Set(key: string, value: string) returns (r: Outcome<Error>)
      requires Valid()
      modifies this
      ensures Valid()
      ensures match Insert(old(State()), key, value)
              case Ok(t) => r == Pass && State() == t
              case Err(e) => r == Fail(e) && State() == old(State())
    {
      if key in dictionary || value in dictionary.Values {
        return Fail(DuplicateKeyOrValue(key, value));
      }
      if key == value {
        return Fail(SameKeyAndValue(key));
      }
      InsertConsistent(State(), key, value);
      dictionary := dictionary[key := value];
      dictionary := dictionary[value := key];
      keys := keys + {key};
      values := values + {value};
      return Pass;
    }

    /** `__getitem__` */
    method Lookup(key: string) returns (r: Result<string, Error>)
      ensures r == Get(State(), key)
      ensures r.Ok? <==> key in dictionary
    {
      if key in dictionary {
        return Ok(dictionary[key]);
      }
      return Err(KeyNotFound(key));
    }

    /** `__delitem__` */
    method Remove(key: string) returns (r: Outcome<Error>)
      requires Valid()
      modifies this
      ensures Valid()
      ensures match Delete(old(State()), key)
              case Ok(t) => r == Pass && State() == t
              case Err(e) => r == Fail(e) && State() == old(State())
    {
      if key !in keys {
        return Fail(KeyNotFound(key));
      }
      DeleteEffect(State(), key);
      var value := dictionary[key];
      keys := keys - {key};
      values := values - {value};
      dictionary := dictionary - {value};
      dictionary := dictionary - {key};
      return Pass;
    }

    /** `__len__` */
    method Length() returns (n: int)
      requires Valid()
      ensures n == |keys| && n == |Items(State())|
    {
      LenCountsPairs(State());
      n := |dictionary| / 2;
    }

    /** `__contains__` */
    method Has(key: string) returns (b: bool)
      requires Valid()
      ensures b <==> key in keys || key in values
    {
      b := key in dictionary;
    }

    /** `keys()` */
    method PrimaryKeys() returns (s: set<string>)
      requires Valid()
      ensures s == Items(State()).Keys
    {
      ItemsArePrimaryPairs(State());
      s := keys;
    }

    /** `values()` */
    method PairedValues() returns (s: set<string>)
      requires Valid()
      ensures s == Items(State()).Values
    {
      ItemsArePrimaryPairs(State());
      s := values;
    }

    /** `items()` */
    method PrimaryItems() returns (m: map<string, string>)
      requires Valid()
      ensures m.Keys == keys && m.Values == values
      ensures forall k :: k in m ==> m[k] == dictionary[k]
    {
      ItemsArePrimaryPairs(State());
      m := map k | k in dictionary && k in keys :: dictionary[k];
      assert m == Items(State());
    }
  }
}
