/**
 Materialized view storage. A view's rows carry secondary indexes: per column, from the
 printed value to the keys of the rows that have it. Looking a value up in the index is
 proved to be scanning the rows.
 */
module MaterializedView {
  import opened Wrappers
  import opened Sequences

  type Key = string
  type Column = string
  type ViewId = string

  datatype Value = Null | Boolean(b: bool) | Integer(n: int) | Text(s: string)

  type Row = map<Column, Value>

  type Index = map<Column, map<string, seq<Key>>>

  datatype Storage = Storage(rows: map<Key, Row>, indexes: Index)

  const EMPTY_STORAGE := Storage(map[], map[])

  // ---------------------------------------------------------------------------
  // The index invariant
  // ---------------------------------------------------------------------------

  function Bucket(ix: Index, col: Column, shown: string): seq<Key> {
    if col in ix && shown in ix[col] then ix[col][shown] else []
  }

  predicate HasValue(show: Value -> string, row: Row, col: Column, shown: string) {
    col in row && show(row[col]) == shown
  }

  /** Whether the key belongs in the bucket. */
  predicate Belongs(show: Value -> string, rows: map<Key, Row>, col: Column, shown: string, key: Key) {
    key in rows && HasValue(show, rows[key], col, shown)
  }

  /** Every bucket lists the keys that belong there, each once, and no others. */
  ghost predicate Indexed(show: Value -> string, st: Storage) {
    forall col, shown, key ::
      multiset(Bucket(st.indexes, col, shown))[key] == if Belongs(show, st.rows, col, shown, key) then 1 else 0
  }

  function Without(keys: seq<Key>, key: Key): (r: seq<Key>)
    ensures forall k :: multiset(r)[k] == if k == key then 0 else multiset(keys)[k]
  {
    if keys == [] then []
    else
      assert keys == [keys[0]] + keys[1..];
      if keys[0] == key then Without(keys[1..], key) else [keys[0]] + Without(keys[1..], key)
  }

  // ---------------------------------------------------------------------------
  // Maintaining the index
  // ---------------------------------------------------------------------------

  function SetBucket(ix: Index, col: Column, shown: string, keys: seq<Key>): (r: Index)
    ensures Bucket(r, col, shown) == keys
    ensures forall c, s :: c != col || s != shown ==> Bucket(r, c, s) == Bucket(ix, c, s)
  {
    ix[col := (if col in ix then ix[col] else map[])[shown := keys]]
  }

  function DropBucket(ix: Index, col: Column, shown: string): (r: Index)
    ensures Bucket(r, col, shown) == []
    ensures forall c, s :: c != col || s != shown ==> Bucket(r, c, s) == Bucket(ix, c, s)
  {
    if col in ix then ix[col := ix[col] - {shown}] else ix
  }

  /** `ix` is `ix0` with the key taken out of the buckets of the row's values. */
  ghost predicate UnindexedFrom(show: Value -> string, ix0: Index, ix: Index, key: Key, row: Row) {
    forall col, shown ::
      Bucket(ix, col, shown) == if HasValue(show, row, col, shown) then Without(Bucket(ix0, col, shown), key)
                                else Bucket(ix0, col, shown)
  }

  /** `ix` is `ix0` with the key appended to the buckets of the row's values. */
  ghost predicate IndexedFrom(show: Value -> string, ix0: Index, ix: Index, key: Key, row: Row) {
    forall col, shown ::
      Bucket(ix, col, shown) == Bucket(ix0, col, shown) + if HasValue(show, row, col, shown) then [key] else []
  }

  /** Takes the key out of the buckets of the row's values. An upsert also drops a bucket that
      becomes empty; a delete leaves it. */
  method Unindex(show: Value -> string, ix0: Index, key: Key, row: Row, dropEmpty: bool) returns (ix: Index)
    ensures UnindexedFrom(show, ix0, ix, key, row)
  {
    ix := ix0;
    var rest := row;
    while rest != map[]
      invariant forall col :: col in rest ==> col in row && row[col] == rest[col]
      invariant forall col, shown ::
                  Bucket(ix, col, shown) == if HasValue(show, row, col, shown) && col !in rest
                                            then Without(Bucket(ix0, col, shown), key)
                                            else Bucket(ix0, col, shown)
      decreases |rest|
    {
      var col :| col in rest;
      var shown := show(rest[col]);
      if col in ix && shown in ix[col] {
        var keys := Without(ix[col][shown], key);
        ix := if keys == [] && dropEmpty then DropBucket(ix, col, shown) else SetBucket(ix, col, shown, keys);
      }
      rest := rest - {col};
    }
  }

  /** Appends the key to the buckets of the row's values. */
  method IndexRow(show: Value -> string, ix0: Index, key: Key, row: Row) returns (ix: Index)
    ensures IndexedFrom(show, ix0, ix, key, row)
  {
    ix := ix0;
    var rest := row;
    while rest != map[]
      invariant forall col :: col in rest ==> col in row && row[col] == rest[col]
      invariant forall col, shown ::
                  Bucket(ix, col, shown) == Bucket(ix0, col, shown) +
                                            if HasValue(show, row, col, shown) && col !in rest then [key] else []
      decreases |rest|
    {
      var col :| col in rest;
      var shown := show(rest[col]);
      ix := SetBucket(ix, col, shown, Bucket(ix, col, shown) + [key]);
      rest := rest - {col};
    }
  }

  lemma UnindexKeeps(show: Value -> string, st: Storage, ix: Index, key: Key)
    requires Indexed(show, st) && key in st.rows && UnindexedFrom(show, st.indexes, ix, key, st.rows[key])
    ensures Indexed(show, Storage(st.rows - {key}, ix))
  {
    forall col, shown, k
      ensures multiset(Bucket(ix, col, shown))[k] == if Belongs(show, st.rows - {key}, col, shown, k) then 1 else 0
    {
      UnindexedCount(show, st, Bucket(ix, col, shown), key, col, shown, k);
    }
  }

  lemma UnindexedCount(show: Value -> string, st: Storage, keys: seq<Key>, key: Key, col: Column, shown: string, k: Key)
    requires key in st.rows
    requires var before := Bucket(st.indexes, col, shown);
             && multiset(before)[k] == (if Belongs(show, st.rows, col, shown, k) then 1 else 0)
             && keys == if HasValue(show, st.rows[key], col, shown) then Without(before, key) else before
    ensures multiset(keys)[k] == if Belongs(show, st.rows - {key}, col, shown, k) then 1 else 0
  {
  }

  lemma IndexKeeps(show: Value -> string, st: Storage, ix: Index, key: Key, row: Row)
    requires Indexed(show, st) && key !in st.rows && IndexedFrom(show, st.indexes, ix, key, row)
    ensures Indexed(show, Storage(st.rows[key := row], ix))
  {
    forall col, shown, k
      ensures multiset(Bucket(ix, col, shown))[k] == if Belongs(show, st.rows[key := row], col, shown, k) then 1 else 0
    {
      assert multiset(Bucket(st.indexes, col, shown))[k] == if Belongs(show, st.rows, col, shown, k) then 1 else 0;
    }
  }

  lemma BucketIsExact(show: Value -> string, st: Storage, col: Column, shown: string, key: Key)
    requires Indexed(show, st)
    ensures key in Bucket(st.indexes, col, shown) <==> Belongs(show, st.rows, col, shown, key)
  {
    assert key in multiset(Bucket(st.indexes, col, shown)) <==> multiset(Bucket(st.indexes, col, shown))[key] > 0;
  }

  lemma BucketIsDistinct(show: Value -> string, st: Storage, col: Column, shown: string, i: nat, j: nat)
    requires Indexed(show, st) && i < j < |Bucket(st.indexes, col, shown)|
    ensures Bucket(st.indexes, col, shown)[i] != Bucket(st.indexes, col, shown)[j]
  {
    var keys := Bucket(st.indexes, col, shown);
    if keys[i] == keys[j] { TwiceCounts(keys, i, j); }
  }

  /** Following a bucket's keys to their rows is filtering the rows. */
  lemma LookupIsScan(show: Value -> string, st: Storage, col: Column, shown: string, found: seq<(Key, Row)>)
    requires Indexed(show, st)
    requires var keys := Bucket(st.indexes, col, shown);
             && |found| == |keys|
             && forall j :: 0 <= j < |keys| ==> keys[j] in st.rows && found[j] == (keys[j], st.rows[keys[j]])
    ensures forall k, row :: (k, row) in found <==>
              k in st.rows && st.rows[k] == row && HasValue(show, row, col, shown)
    ensures forall i, j :: 0 <= i < j < |found| ==> found[i].0 != found[j].0
  {
    var keys := Bucket(st.indexes, col, shown);
    forall k, row ensures (k, row) in found <==> k in st.rows && st.rows[k] == row && HasValue(show, row, col, shown) {
      BucketIsExact(show, st, col, shown, k);
      if k in keys {
        var j :| 0 <= j < |keys| && keys[j] == k;
        assert found[j] == (k, st.rows[k]);
      }
      if (k, row) in found {
        var j :| 0 <= j < |found| && found[j] == (k, row);
        assert keys[j] == k;
      }
    }
    forall i, j | 0 <= i < j < |found| ensures found[i].0 != found[j].0 {
      BucketIsDistinct(show, st, col, shown, i, j);
    }
  }

  // ---------------------------------------------------------------------------
  // The view manager
  // ---------------------------------------------------------------------------

  datatype ViewError = ViewNotFound

  class ViewManager {
    const show: Value -> string
    var storage: map<ViewId, Storage>

    ghost predicate Valid()
      reads this
    {
      forall v :: v in storage ==> Indexed(show, storage[v])
    }

    ghost function Rows(): map<ViewId, map<Key, Row>>
      reads this
    {
      map v | v in storage :: storage[v].rows
    }

    constructor (show: Value -> string)
      ensures Valid() && Rows() == map[] && this.show == show
    {
      this.show, storage := show, map[];
    }

    /** `view` is a fresh id. */
    method CreateView(view: ViewId)
      requires Valid()
      modifies this
      ensures Valid() && Rows() == old(Rows())[view := map[]]
    {
      storage := storage[view := EMPTY_STORAGE];
    }

    method UpsertRow(view: ViewId, key: Key, row: Row) returns (r: Option<ViewError>)
      requires Valid()
      modifies this
      ensures Valid() && (r.Some? <==> view !in old(Rows()))
      ensures Rows() == if view in old(Rows()) then old(Rows())[view := old(Rows())[view][key := row]] else old(Rows())
    {
      if view !in storage {
        return Some(ViewNotFound);
      }
      var st := storage[view];
      if key in st.rows {
        var ix := Unindex(show, st.indexes, key, st.rows[key], true);
        UnindexKeeps(show, st, ix, key);
        st := Storage(st.rows - {key}, ix);
      }
      var ix := IndexRow(show, st.indexes, key, row);
      IndexKeeps(show, st, ix, key, row);
      assert st.rows[key := row] == storage[view].rows[key := row];
      storage := storage[view := Storage(st.rows[key := row], ix)];
      r := None;
    }

    method DeleteRow(view: ViewId, key: Key) returns (r: Option<ViewError>)
      requires Valid()
      modifies this
      ensures Valid() && (r.Some? <==> view !in old(Rows()))
      ensures Rows() == if view in old(Rows()) then old(Rows())[view := old(Rows())[view] - {key}] else old(Rows())
    {
      if view !in storage {
        return Some(ViewNotFound);
      }
      var st := storage[view];
      if key in st.rows {
        var ix := Unindex(show, st.indexes, key, st.rows[key], false);
        UnindexKeeps(show, st, ix, key);
        storage := storage[view := Storage(st.rows - {key}, ix)];
      } else {
        assert st.rows - {key} == st.rows;
      }
      r := None;
    }

    /** The index lookup lists exactly the rows whose column prints like the value, each once. */
    method QueryByColumn(view: ViewId, col: Column, value: Value) returns (found: Option<seq<(Key, Row)>>)
      requires Valid()
      ensures found.None? <==> view !in storage
      ensures found.Some? ==>
                && (forall k, row :: (k, row) in found.value <==>
                      k in storage[view].rows && storage[view].rows[k] == row && HasValue(show, row, col, show(value)))
                && forall i, j :: 0 <= i < j < |found.value| ==> found.value[i].0 != found.value[j].0
    {
      if view !in storage {
        return None;
      }
      var st, shown := storage[view], show(value);
      var keys := Bucket(st.indexes, col, shown);
      var rows: seq<(Key, Row)> := [];
      for i := 0 to |keys|
        invariant |rows| == i && forall j :: 0 <= j < i ==> keys[j] in st.rows && rows[j] == (keys[j], st.rows[keys[j]])
      {
        BucketIsExact(show, st, col, shown, keys[i]);
        if keys[i] in st.rows {
          rows := rows + [(keys[i], st.rows[keys[i]])];
        }
      }
      LookupIsScan(show, st, col, shown, rows);
      found := Some(rows);
    }
  }
}
