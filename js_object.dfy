/** A plain JavaScript object with string keys, as the upload handler builds
    rows: the value stored under each key, and the keys in the order their
    properties were created, which is the order `Object.keys` reports.
    Assigning an existing key overwrites its value and keeps its position. */
module JsObject {
  import opened JsValues

  datatype Row = Row(keys: seq<string>, values: map<string, Value>)

  /** The empty object `{}`. */
  const Empty := Row([], map[])

  /** Every listed key has a value. */
  predicate Stored(row: Row) {
    forall i | 0 <= i < |row.keys| :: row.keys[i] in row.values
  }

  /** Every key is listed exactly once, and exactly the stored keys are listed. */
  predicate Valid(row: Row) {
    && (forall i, j | 0 <= i < j < |row.keys| :: row.keys[i] != row.keys[j])
    && (forall k | k in row.values :: k in row.keys)
    && Stored(row)
  }

  /** `row[k]`: the value stored under `k`, `undefined` when there is none. */
  function Lookup(row: Row, k: string): Option<Value> {
    if k in row.values then Some(row.values[k]) else None
  }

  /** `row[k] = v`. */
  function Assign(row: Row, k: string, v: Value): Row {
    Row(if k in row.keys then row.keys else row.keys + [k], row.values[k := v])
  }

  /** After `row[k] = v`, reading `k` gives `v` and every other key reads as before. */
  lemma AssignLookup(row: Row, k: string, v: Value, k': string)
    ensures Lookup(Assign(row, k, v), k') == if k' == k then Some(v) else Lookup(row, k')
  {
  }

  /** Assignment keeps every existing property where it is, and a new key
      goes last. */
  lemma AssignKeys(row: Row, k: string, v: Value)
    ensures var r := Assign(row, k, v);
      && (forall i | 0 <= i < |row.keys| :: r.keys[i] == row.keys[i])
      && (k in row.keys <==> |r.keys| == |row.keys|)
      && (k !in row.keys <==> |r.keys| == |row.keys| + 1 && r.keys[|row.keys|] == k)
  {
  }

  /** Assignment keeps an object well formed. */
  lemma AssignValid(row: Row, k: string, v: Value)
    requires Valid(row)
    ensures Valid(Assign(row, k, v))
  {
    var r := Assign(row, k, v);
    forall k' | k' in r.values ensures k' in r.keys {
      if k' != k { assert k' in row.values; }
    }
  }
}
