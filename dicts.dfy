/** Python's `dict` from `str` to `str`, as the editor uses it: a sequence of
    key/value items in insertion order, no key twice. Assigning to a present
    key keeps its position; deleting a key closes the gap. */
module Dicts {

  datatype Item = Item(key: string, value: string)

  function Keys(items: seq<Item>): seq<string> {
    seq(|items|, i requires 0 <= i < |items| => items[i].key)
  }

  /** No key occurs twice. */
  predicate UniqueKeys(items: seq<Item>) {
    forall i, j :: 0 <= i < j < |items| ==> items[i].key != items[j].key
  }

  /** A dictionary: its items in insertion order, keys unique. */
  type Dict = d: seq<Item> | UniqueKeys(d) witness []

  lemma {:induction false} InKeys(items: seq<Item>, k: string)
    ensures k in Keys(items) <==> exists i :: 0 <= i < |items| && items[i].key == k
  {
    if k in Keys(items) {
      var i :| 0 <= i < |items| && Keys(items)[i] == k;
      assert items[i].key == k;
    }
    if i :| 0 <= i < |items| && items[i].key == k {
      assert Keys(items)[i] == k;
    }
  }

  lemma {:induction false} KeysOfTail(items: seq<Item>, k: string)
    requires items != []
    ensures k in Keys(items) <==> k == items[0].key || k in Keys(items[1..])
  {
    InKeys(items, k);
    InKeys(items[1..], k);
    if i :| 0 <= i < |items| && items[i].key == k && i > 0 {
      assert items[1..][i - 1].key == k;
    }
  }

  /** A dictionary without its first item. */
  function Tail(d: Dict): (r: Dict)
    requires d != []
    ensures r == d[1..]
  {
    d[1..]
  }

  /** The position of key `k` in `d`. */
  function Position(d: Dict, k: string): (i: nat)
    requires k in Keys(d)
    ensures i < |d| && d[i].key == k
    ensures forall j :: 0 <= j < |d| && d[j].key == k ==> j == i
  {
    KeysOfTail(d, k);
    if d[0].key == k then 0
    else Position(Tail(d), k) + 1
  }

  /** `d[k]`: the value stored under `k`. */
  function Get(d: Dict, k: string): string
    requires k in Keys(d)
  {
    d[Position(d, k)].value
  }

  /** Looking up the key of any item finds that item's value. */
  lemma {:induction false} GetAt(d: Dict, i: nat)
    requires i < |d|
    ensures d[i].key in Keys(d) && Position(d, d[i].key) == i && Get(d, d[i].key) == d[i].value
  {
    assert Keys(d)[i] == d[i].key;
  }

  /** `d` without the items whose key is in `gone`, the others in their order. */
  function Without(d: Dict, gone: set<string>): (r: Dict)
    ensures |r| <= |d|
    decreases |d|, 0
  {
    if d == [] then []
    else
      var rest := Without(Tail(d), gone);
      if d[0].key in gone then rest
      else
        assert UniqueKeys([d[0]] + rest) by {
          WithoutKeys(Tail(d), gone, d[0].key);
          InKeys(Tail(d), d[0].key);
          InKeys(rest, d[0].key);
          forall j | 0 < j < |rest| + 1 ensures ([d[0]] + rest)[j].key != d[0].key {
            assert ([d[0]] + rest)[j] == rest[j - 1];
          }
        }
        [d[0]] + rest
  }

  /** Filtering keeps exactly the keys not in `gone`. */
  lemma {:induction false} WithoutKeys(d: Dict, gone: set<string>, k: string)
    ensures k in Keys(Without(d, gone)) <==> k in Keys(d) && k !in gone
    decreases |d|, 1
  {
    if d != [] {
      WithoutKeys(Tail(d), gone, k);
      KeysOfTail(d, k);
      var r := Without(d, gone);
      if d[0].key !in gone {
        assert r[1..] == Without(Tail(d), gone);
        KeysOfTail(r, k);
      }
    }
  }

  /** `del d[k]`. */
  function Remove(d: Dict, k: string): Dict {
    Without(d, {k})
  }

  /** `d[k] = v`: a present key keeps its position, a new one goes last. */
  function Put(d: Dict, k: string, v: string): (r: Dict)
    ensures Keys(r) == if k in Keys(d) then Keys(d) else Keys(d) + [k]
    ensures Item(k, v) in r
    ensures forall j :: 0 <= j < |d| && d[j].key != k ==> r[j] == d[j]
  {
    if k in Keys(d) then
      var r := d[Position(d, k) := Item(k, v)];
      assert Keys(r) == Keys(d);
      r
    else
      var r := d + [Item(k, v)];
      assert Keys(r) == Keys(d) + [k];
      InKeys(d, k);
      r
  }

  /** Where in `d` the `x`-th item that filtering keeps comes from. */
  function Origin(d: Dict, gone: set<string>, x: nat): (j: nat)
    requires x < |Without(d, gone)|
    ensures j < |d|
    decreases |d|
  {
    if d[0].key in gone then Origin(Tail(d), gone, x) + 1
    else if x == 0 then 0
    else Origin(Tail(d), gone, x - 1) + 1
  }

  /** The `x`-th kept item is the item of `d` at its origin. */
  lemma {:induction false} OriginItem(d: Dict, gone: set<string>, x: nat)
    requires x < |Without(d, gone)|
    ensures d[Origin(d, gone, x)] == Without(d, gone)[x]
    decreases |d|
  {
    var rest := Without(Tail(d), gone);
    if d[0].key in gone {
      OriginItem(Tail(d), gone, x);
    } else if x > 0 {
      assert Without(d, gone)[x] == rest[x - 1];
      OriginItem(Tail(d), gone, x - 1);
    }
  }

  /** Filtering keeps the relative order of the items it keeps. */
  lemma {:induction false} OriginMonotone(d: Dict, gone: set<string>, x: nat, y: nat)
    requires x < y < |Without(d, gone)|
    ensures Origin(d, gone, x) < Origin(d, gone, y)
    decreases |d|
  {
    if d[0].key in gone {
      OriginMonotone(Tail(d), gone, x, y);
    } else if x > 0 {
      OriginMonotone(Tail(d), gone, x - 1, y - 1);
    }
  }

  /** Filtering does not change the value a kept key maps to. */
  lemma {:induction false} GetWithout(d: Dict, gone: set<string>, k: string)
    requires k in Keys(d) && k !in gone
    ensures k in Keys(Without(d, gone)) && Get(Without(d, gone), k) == Get(d, k)
  {
    var r := Without(d, gone);
    WithoutKeys(d, gone, k);
    var i := Position(r, k);
    OriginItem(d, gone, i);
    GetAt(d, Origin(d, gone, i));
  }

  /** Filtering by no key keeps everything. */
  lemma {:induction false} WithoutNothing(d: Dict)
    ensures Without(d, {}) == d
    decreases |d|
  {
    if d != [] {
      WithoutNothing(Tail(d));
    }
  }

  /** Filtering by keys that are not there keeps everything. */
  lemma {:induction false} WithoutAbsent(d: Dict, gone: set<string>)
    requires forall k :: k in gone ==> k !in Keys(d)
    ensures Without(d, gone) == d
    decreases |d|
  {
    if d != [] {
      KeysOfTail(d, d[0].key);
      forall k | k in gone ensures k !in Keys(d[1..]) {
        KeysOfTail(d, k);
      }
      WithoutAbsent(Tail(d), gone);
    }
  }

  /** Filtering twice is filtering once by both key sets. */
  lemma {:induction false} WithoutWithout(d: Dict, a: set<string>, b: set<string>)
    ensures Without(Without(d, a), b) == Without(d, a + b)
    decreases |d|
  {
    if d != [] {
      WithoutWithout(Tail(d), a, b);
    }
  }

  /** Filtering keeps the items it keeps in their order of insertion. */
  lemma {:induction false} WithoutKeepsOrder(d: Dict, gone: set<string>, x: nat, y: nat)
    requires x < y < |Without(d, gone)|
    ensures Without(d, gone)[x].key in Keys(d) && Without(d, gone)[y].key in Keys(d)
    ensures Position(d, Without(d, gone)[x].key) < Position(d, Without(d, gone)[y].key)
  {
    OriginMonotone(d, gone, x, y);
    OriginItem(d, gone, x);
    OriginItem(d, gone, y);
    GetAt(d, Origin(d, gone, x));
    GetAt(d, Origin(d, gone, y));
  }

  /** After `d[k] = v`, `k` maps to `v` and every other key to what it mapped
      to before. */
  lemma {:induction false} PutGet(d: Dict, k: string, v: string, k': string)
    ensures k' in Keys(Put(d, k, v)) <==> k' in Keys(d) || k' == k
    ensures k' in Keys(Put(d, k, v)) ==> Get(Put(d, k, v), k') == if k' == k then v else Get(d, k')
  {
    var r := Put(d, k, v);
    InKeys(r, k');
    InKeys(d, k');
    if k' in Keys(r) {
      var i := Position(r, k');
      if k' == k {
        var j :| 0 <= j < |r| && r[j] == Item(k, v);
      } else {
        var j := Position(d, k');
      }
    }
  }

  /** `d[k] = v` leaves every key already present at its position. */
  lemma {:induction false} PutPosition(d: Dict, k: string, v: string, k': string)
    requires k' in Keys(d)
    ensures k' in Keys(Put(d, k, v)) && Position(Put(d, k, v), k') == Position(d, k')
  {
    var r := Put(d, k, v);
    var i := Position(d, k');
    InKeys(d, k');
    InKeys(r, k');
    if k' == k {
      var j :| 0 <= j < |r| && r[j] == Item(k, v);
    } else {
      assert r[i] == d[i];
    }
  }

  /** A new key goes last. */
  lemma {:induction false} PutNewLast(d: Dict, k: string, v: string)
    requires k !in Keys(d)
    ensures k in Keys(Put(d, k, v)) && Position(Put(d, k, v), k) == |d|
  {
    var r := Put(d, k, v);
    assert Keys(r)[|d|] == k;
  }
}
