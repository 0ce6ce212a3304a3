/** The Python values that flow between the CSV reader, the loaders and the
    driver: `None`, strings and integers, Python truthiness, and the dicts
    that hold one record. */
module Values {

  datatype Option<T> = None | Some(value: T)

  /** A field value. The cleaner produces `Null` and `Str`; the employee
      loader adds `Int` when it numbers the records. */
  datatype Value = Null | Str(s: string) | Int(i: int)

  /** Python truthiness: `None`, the empty string and `0` are false. */
  predicate Truthy(v: Value) {
    match v
    case Null => false
    case Str(s) => s != []
    case Int(i) => i != 0
  }

  /** One CSV record or one result row, as a Python dict. */
  type Record = map<string, Value>

  /** Python's `d.get(key)`: the value, or `None` when the key is absent. */
  function Get(r: Record, key: string): (v: Value)
    ensures key !in r ==> v == Null
  {
    if key in r then r[key] else Null
  }

  /** The dict built by assigning `pairs` in order, `d[key] = value`: a later
      pair overwrites an earlier one with the same key. */
  function Assign<K, V>(pairs: seq<(K, V)>): map<K, V>
    decreases |pairs|
  {
    if pairs == [] then map[]
    else
      var last := pairs[|pairs| - 1];
      Assign(pairs[..|pairs| - 1])[last.0 := last.1]
  }

  /** The keys of the dict are exactly the keys assigned. */
  lemma {:induction false} AssignKeys<K, V>(pairs: seq<(K, V)>)
    ensures Assign(pairs).Keys == set k | 0 <= k < |pairs| :: pairs[k].0
  {
    if pairs != [] {
      var init := pairs[..|pairs| - 1];
      AssignKeys(init);
      assert forall k | 0 <= k < |init| :: init[k] == pairs[k];
    }
  }

  /** A key holds the value of the last pair that assigned it. */
  lemma {:induction false} AssignAt<K, V>(pairs: seq<(K, V)>, i: int)
    requires 0 <= i < |pairs|
    requires forall j | i < j < |pairs| :: pairs[j].0 != pairs[i].0
    ensures pairs[i].0 in Assign(pairs) && Assign(pairs)[pairs[i].0] == pairs[i].1
  {
    if i < |pairs| - 1 {
      var init := pairs[..|pairs| - 1];
      assert init[i] == pairs[i];
      AssignAt(init, i);
    }
  }

  /** Every entry of the dict is one of the pairs assigned. */
  lemma {:induction false} AssignEntries<K, V>(pairs: seq<(K, V)>)
    ensures forall key | key in Assign(pairs) :: exists k | 0 <= k < |pairs| :: pairs[k] == (key, Assign(pairs)[key])
  {
    if pairs != [] {
      var init := pairs[..|pairs| - 1];
      AssignEntries(init);
      assert forall k | 0 <= k < |init| :: init[k] == pairs[k];
    }
  }

  /** Assigning one more pair. */
  lemma AssignNext<K, V>(pairs: seq<(K, V)>, i: int)
    requires 0 <= i < |pairs|
    ensures Assign(pairs[..i + 1]) == Assign(pairs[..i])[pairs[i].0 := pairs[i].1]
  {
    assert pairs[..i + 1][..i] == pairs[..i];
  }
}
