/**
 * The order tables `buy_orders` and `sell_orders` of OrderManager
 * (ceshi.py:138-139): dictionaries keyed by exchange order id. A Python
 * dictionary remembers insertion order, and the controller depends on it
 * (the loops walk the items in that order, and cycle completion deletes the
 * last key walked), so a table is the map together with its key order.
 */
module OrderTable {
  import opened Exchange

  predicate Distinct(s: seq<OrderId>) {
    forall i, j :: 0 <= i < j < |s| ==> s[i] != s[j]
  }

  predicate DistinctIds(items: seq<Order>) {
    forall i, j :: 0 <= i < j < |items| ==> items[i].id != items[j].id
  }

  /** The ids of a sequence of orders, in order. */
  function Ids(items: seq<Order>): (r: seq<OrderId>)
    ensures |r| == |items|
    ensures forall i :: 0 <= i < |items| ==> r[i] == items[i].id
  {
    seq(|items|, i requires 0 <= i < |items| => items[i].id)
  }

  lemma IdsCons(items: seq<Order>)
    requires items != []
    ensures Ids(items) == [items[0].id] + Ids(items[1..])
  {
    assert forall i :: 1 <= i < |items| ==> items[1..][i - 1] == items[i];
  }

  /** `keys` without `id`, the other keys keeping their order. */
  function RemoveKey(keys: seq<OrderId>, id: OrderId): (r: seq<OrderId>)
    ensures forall k :: k in r <==> k in keys && k != id
    ensures id !in keys ==> r == keys
    ensures Distinct(keys) ==> Distinct(r)
    ensures Distinct(keys) && id in keys ==> |r| == |keys| - 1
    ensures |r| <= |keys|
  {
    if keys == [] then []
    else if keys[0] == id then RemoveKey(keys[1..], id)
    else
      var r := RemoveKey(keys[1..], id);
      if Distinct(keys) then
        assert Distinct(keys[1..]) && keys[0] !in keys[1..];
        DistinctCons(keys[0], r);
        [keys[0]] + r
      else [keys[0]] + r
  }

  lemma DistinctCons(x: OrderId, s: seq<OrderId>)
    requires Distinct(s) && x !in s
    ensures Distinct([x] + s)
  {
    forall i, j | 0 <= i < j < |[x] + s|
      ensures ([x] + s)[i] != ([x] + s)[j]
    {
      if i > 0 {
        assert ([x] + s)[i] == s[i - 1];
      }
      assert ([x] + s)[j] == s[j - 1];
    }
  }

  /** Removing the last of a sequence of distinct keys drops exactly that key. */
  lemma {:induction false} RemoveLastKey(keys: seq<OrderId>)
    requires Distinct(keys) && |keys| > 0
    ensures RemoveKey(keys, keys[|keys| - 1]) == keys[..|keys| - 1]
  {
    var last := keys[|keys| - 1];
    if |keys| > 1 {
      assert keys[0] != last;
      var rest := keys[1..];
      assert Distinct(rest);
      RemoveLastKey(rest);
      assert rest[|rest| - 1] == last;
      assert [keys[0]] + rest[..|rest| - 1] == keys[..|keys| - 1];
    }
  }

  /** Removing the first of a sequence of distinct keys leaves the rest. */
  lemma RemoveFirstKey(keys: seq<OrderId>)
    requires Distinct(keys) && |keys| > 0
    ensures RemoveKey(keys, keys[0]) == keys[1..]
  {
  }

  /**
   * Removing the key at position k of a sequence of distinct keys leaves
   * the keys before it and the keys after it, in their order.
   */
  lemma {:induction false} RemoveKeyAt(keys: seq<OrderId>, k: nat)
    requires Distinct(keys) && k < |keys|
    ensures RemoveKey(keys, keys[k]) == keys[..k] + keys[k + 1..]
    decreases k
  {
    if k == 0 {
      RemoveFirstKey(keys);
      assert keys[..0] + keys[1..] == keys[1..];
    } else {
      var rest := keys[1..];
      assert Distinct(rest);
      assert keys[0] != keys[k] && rest[k - 1] == keys[k];
      RemoveKeyAt(rest, k - 1);
      assert rest[..k - 1] == keys[1..k] && rest[k..] == keys[k + 1..];
      assert [keys[0]] + keys[1..k] == keys[..k];
    }
  }

  /** A dictionary of orders with its insertion order. */
  datatype Table = Table(keys: seq<OrderId>, entries: map<OrderId, Order>) {

    /** Keys appear once, the key order lists exactly the map's keys, and each order is filed under its own id. */
    ghost predicate Valid() {
      && Distinct(keys)
      && (forall k :: k in entries <==> k in keys)
      && (forall k :: k in entries ==> entries[k].id == k)
    }

    /** Number of tracked orders. */
    function Size(): nat {
      |keys|
    }

    /**
     * `table[o.id] = o`: a new id is appended to the key order, an existing
     * one keeps its place and gets the new value.
     */
    function Put(o: Order): (t: Table)
      requires Valid()
      ensures t.Valid()
      ensures t.entries == entries[o.id := o]
      ensures t.keys == if o.id in entries then keys else keys + [o.id]
    {
      if o.id in entries then Table(keys, entries[o.id := o])
      else Table(keys + [o.id], entries[o.id := o])
    }

    /** `del table[id]` when `id` is present; no change otherwise. */
    function Remove(id: OrderId): (t: Table)
      requires Valid()
      ensures t.Valid()
      ensures t.entries == entries - {id}
      ensures t.keys == RemoveKey(keys, id)
      ensures t.Size() == if id in entries then Size() - 1 else Size()
    {
      Table(RemoveKey(keys, id), entries - {id})
    }

    /** `list(table.items())`: the orders in insertion order. */
    function Items(): (r: seq<Order>)
      requires Valid()
      ensures |r| == |keys| && Ids(r) == keys
      ensures forall i :: 0 <= i < |r| ==> keys[i] in entries && r[i] == entries[keys[i]]
      ensures DistinctIds(r)
    {
      assert forall i :: 0 <= i < |keys| ==> keys[i] in keys && keys[i] in entries;
      var r := seq(|keys|, i requires 0 <= i < |keys| && keys[i] in entries => entries[keys[i]]);
      assert Ids(r) == keys;
      r
    }
  }

  const Empty: Table := Table([], map[])

  /** A table without keys is the empty table. */
  lemma NoKeysEmpty(t: Table)
    requires t.Valid() && t.keys == []
    ensures t == Empty
  {
    assert forall k :: k in t.entries ==> k in t.keys;
    assert t.entries == map[];
  }

  /** Stores the orders one after another, as a loop of `table[o.id] = o` does. */
  function PutAll(t: Table, os: seq<Order>): (r: Table)
    requires t.Valid()
    ensures r.Valid()
    decreases |os|
  {
    if os == [] then t else PutAll(t.Put(os[0]), os[1..])
  }

  /**
   * Storing orders never drops a key and adds at most one key per order.
   */
  lemma {:induction false} PutAllGrowth(t: Table, os: seq<Order>)
    requires t.Valid()
    ensures forall k :: k in t.entries ==> k in PutAll(t, os).entries
    ensures forall i :: 0 <= i < |os| ==> os[i].id in PutAll(t, os).entries
    ensures t.Size() <= PutAll(t, os).Size() <= t.Size() + |os|
    decreases |os|
  {
    if os != [] {
      PutAllGrowth(t.Put(os[0]), os[1..]);
      forall i | 1 <= i < |os|
        ensures os[i].id in PutAll(t, os).entries
      {
        assert os[1..][i - 1] == os[i];
      }
    }
  }

  /** The first of the stored orders is new to the table, and what follows it stays fresh once it is stored. */
  lemma FreshHead(t: Table, os: seq<Order>)
    requires t.Valid() && os != []
    requires Distinct(t.keys + Ids(os))
    ensures os[0].id !in t.entries
    ensures t.Put(os[0]).keys + Ids(os[1..]) == t.keys + Ids(os)
  {
    var all := t.keys + Ids(os);
    IdsCons(os);
    assert all[|t.keys|] == os[0].id;
    forall i | 0 <= i < |t.keys|
      ensures t.keys[i] != os[0].id
    {
      assert all[i] == t.keys[i];
    }
    assert (t.keys + [os[0].id]) + Ids(os[1..]) == t.keys + ([os[0].id] + Ids(os[1..]));
  }

  /**
   * Storing orders whose ids are new to the table and distinct from each
   * other appends exactly their ids to the key order.
   */
  lemma {:induction false} PutAllFreshKeys(t: Table, os: seq<Order>)
    requires t.Valid()
    requires Distinct(t.keys + Ids(os))
    ensures PutAll(t, os).keys == t.keys + Ids(os)
    decreases |os|
  {
    if os != [] {
      FreshHead(t, os);
      PutAllFreshKeys(t.Put(os[0]), os[1..]);
    }
  }

  /**
   * Storing orders with new, distinct ids files each under its id and
   * leaves every existing entry as it was.
   */
  lemma {:induction false} PutAllFreshEntries(t: Table, os: seq<Order>)
    requires t.Valid()
    requires Distinct(t.keys + Ids(os))
    ensures forall k :: k in t.entries ==> k in PutAll(t, os).entries && PutAll(t, os).entries[k] == t.entries[k]
    ensures forall i :: 0 <= i < |os| ==> os[i].id in PutAll(t, os).entries && PutAll(t, os).entries[os[i].id] == os[i]
    decreases |os|
  {
    if os != [] {
      var t1 := t.Put(os[0]);
      var rest := os[1..];
      var r := PutAll(t1, rest);
      assert PutAll(t, os) == r;
      FreshHead(t, os);
      PutAllFreshEntries(t1, rest);
      forall k | k in t.entries
        ensures k in r.entries && r.entries[k] == t.entries[k]
      {
        assert t1.entries[k] == t.entries[k];
      }
      forall i | 0 <= i < |os|
        ensures os[i].id in r.entries && r.entries[os[i].id] == os[i]
      {
        if i > 0 {
          assert rest[i - 1] == os[i];
        }
      }
    }
  }
}
