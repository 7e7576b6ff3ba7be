/** The part of the module entry point that turns the `properties` parameter
    into a request for the patch engine: each item is checked (a supported
    action, a value for an update, a key without a space), and the valid list
    is folded into the `updates` dict and the `keys_to_delete` list. */
module Request {
  import opened Dicts

  datatype Option<T> = None | Some(value: T)

  /** One item of the `properties` parameter; `value` is optional. */
  datatype Prop = Prop(key: string, value: Option<string>, action: string)

  /** Why the module fails, with what the message names. */
  datatype Failure =
    | UnsupportedAction(action: string)
    | MissingValue(key: string)
    | InvalidKey(key: string)

  /** The message the module fails with. */
  function Message(f: Failure): string {
    match f
    case UnsupportedAction(action) => "Unsupported action: '" + action + "'"
    case MissingValue(key) => "Please specify the value you want to set for the key: '" + key + "'"
    case InvalidKey(key) => "Invalid key: '" + key + "'. keys should not contains spaces"
  }

  predicate IsUpdate(p: Prop) {
    p.action == "update"
  }

  predicate IsDelete(p: Prop) {
    p.action == "delete"
  }

  /** An item the module accepts. */
  predicate Valid(p: Prop) {
    && (IsUpdate(p) || IsDelete(p))
    && (IsUpdate(p) ==> p.value.Some?)
    && ' ' !in p.key
  }

  /** The checks on one item, in the order the module makes them: an item
      passes exactly when it is valid, and a failing item fails on the first
      check it does not pass. */
  function Check(p: Prop): (r: Option<Failure>)
    ensures r == None <==> Valid(p)
    ensures r.Some? && r.value.UnsupportedAction? <==> !IsUpdate(p) && !IsDelete(p)
    ensures r.Some? && r.value.MissingValue? <==> IsUpdate(p) && p.value.None?
    ensures r.Some? && r.value.InvalidKey? <==> (IsUpdate(p) || IsDelete(p)) && (IsUpdate(p) ==> p.value.Some?) && ' ' in p.key
    ensures r.Some? && r.value.UnsupportedAction? ==> r.value.action == p.action
    ensures r.Some? && !r.value.UnsupportedAction? ==> r.value.key == p.key
  {
    if !IsUpdate(p) && !IsDelete(p) then Some(UnsupportedAction(p.action))
    else if IsUpdate(p) && p.value.None? then Some(MissingValue(p.key))
    else if ' ' in p.key then Some(InvalidKey(p.key))
    else None
  }

  /** The failure of the first item that fails its checks, if any. */
  function FirstFailure(props: seq<Prop>): Option<Failure> {
    if props == [] then None
    else if Check(props[0]).Some? then Check(props[0])
    else FirstFailure(props[1..])
  }

  /** There is no failure exactly when every item is valid; otherwise the
      failure is that of some item all of whose predecessors are valid. */
  lemma {:induction false} FirstFailureSpec(props: seq<Prop>)
    ensures FirstFailure(props) == None <==> forall i :: 0 <= i < |props| ==> Valid(props[i])
    ensures FirstFailure(props).Some? ==>
      exists i :: 0 <= i < |props| && Check(props[i]) == FirstFailure(props)
        && forall j :: 0 <= j < i ==> Valid(props[j])
  {
    if props != [] {
      FirstFailureSpec(props[1..]);
      if Check(props[0]).Some? {
        assert Check(props[0]) == FirstFailure(props);
      } else {
        assert forall i :: 0 < i < |props| ==> props[i] == props[1..][i - 1];
        if FirstFailure(props).Some? {
          var i :| 0 <= i < |props[1..]| && Check(props[1..][i]) == FirstFailure(props[1..])
            && forall j :: 0 <= j < i ==> Valid(props[1..][j]);
          assert Check(props[i + 1]) == FirstFailure(props);
        }
      }
    }
  }

  /** The validation loop: the first failing item stops the module. */
  method Validate(props: seq<Prop>) returns (failure: Option<Failure>)
    ensures failure == FirstFailure(props)
  {
    var i := 0;
    while i < |props|
      invariant i <= |props|
      invariant FirstFailure(props[i..]) == FirstFailure(props)
    {
      assert props[i..][1..] == props[i + 1..];
      var p := props[i];
      if !IsUpdate(p) && !IsDelete(p) {
        return Some(UnsupportedAction(p.action));
      }
      if IsUpdate(p) && p.value.None? {
        return Some(MissingValue(p.key));
      }
      if ' ' in p.key {
        return Some(InvalidKey(p.key));
      }
      i := i + 1;
    }
    return None;
  }

  /** Every update carries a value, as validation ensures. */
  predicate UpdatesValued(props: seq<Prop>) {
    forall i :: 0 <= i < |props| && IsUpdate(props[i]) ==> props[i].value.Some?
  }

  /** The `updates` dict built from the items: each update assigns its key. */
  function UpdatesOf(props: seq<Prop>): Dict
    requires UpdatesValued(props)
  {
    if props == [] then []
    else
      var d := UpdatesOf(props[..|props| - 1]);
      var p := props[|props| - 1];
      if IsUpdate(p) then Put(d, p.key, p.value.value) else d
  }

  /** The `keys_to_delete` list built from the items: the key of every delete,
      in order, duplicates included. */
  function DeletesOf(props: seq<Prop>): seq<string> {
    if props == [] then []
    else
      var p := props[|props| - 1];
      DeletesOf(props[..|props| - 1]) + if IsDelete(p) then [p.key] else []
  }

  /** The loop that builds the request. */
  method BuildRequest(props: seq<Prop>) returns (updates: Dict, keysToDelete: seq<string>)
    requires UpdatesValued(props)
    ensures updates == UpdatesOf(props) && keysToDelete == DeletesOf(props)
  {
    updates := [];
    keysToDelete := [];
    for i := 0 to |props|
      invariant updates == UpdatesOf(props[..i]) && keysToDelete == DeletesOf(props[..i])
    {
      assert props[..i + 1][..i] == props[..i];
      var p := props[i];
      if IsUpdate(p) {
        updates := Put(updates, p.key, p.value.value);
      } else if IsDelete(p) {
        keysToDelete := keysToDelete + [p.key];
      }
    }
    assert props[..|props|] == props;
  }

  /** Item `i` is an update of key `k`. */
  predicate UpdateOf(props: seq<Prop>, i: nat, k: string)
    requires i < |props|
  {
    IsUpdate(props[i]) && props[i].key == k
  }

  /** The items of a prefix update a key exactly when the same items of
      the whole list do. */
  lemma {:induction false} UpdateInPrefix(props: seq<Prop>, n: nat, k: string)
    requires n <= |props|
    ensures (exists i :: 0 <= i < n && UpdateOf(props[..n], i, k)) <==> (exists i :: 0 <= i < n && UpdateOf(props, i, k))
  {
    if i :| 0 <= i < n && UpdateOf(props[..n], i, k) {
      assert UpdateOf(props, i, k);
    }
    if i :| 0 <= i < n && UpdateOf(props, i, k) {
      assert UpdateOf(props[..n], i, k);
    }
  }

  /** The dict holds exactly the keys some item updates. */
  lemma {:induction false} UpdatedKeys(props: seq<Prop>, k: string)
    requires UpdatesValued(props)
    ensures k in Keys(UpdatesOf(props)) <==> exists i :: 0 <= i < |props| && UpdateOf(props, i, k)
  {
    if props != [] {
      var n := |props| - 1;
      var init, p := props[..n], props[n];
      UpdatedKeys(init, k);
      UpdateInPrefix(props, n, k);
      if IsUpdate(p) {
        PutGet(UpdatesOf(init), p.key, p.value.value, k);
      }
      if UpdateOf(props, n, k) {
        assert k in Keys(UpdatesOf(props));
      } else {
        assert (exists i :: 0 <= i < |props| && UpdateOf(props, i, k)) <==> (exists i :: 0 <= i < n && UpdateOf(props, i, k));
      }
    }
  }

  /** A key maps to the value of the last item that updates it. */
  lemma {:induction false} LastUpdateWins(props: seq<Prop>, i: nat, k: string)
    requires UpdatesValued(props)
    requires i < |props| && UpdateOf(props, i, k)
    requires forall j :: i < j < |props| ==> !UpdateOf(props, j, k)
    ensures k in Keys(UpdatesOf(props)) && Get(UpdatesOf(props), k) == props[i].value.value
  {
    var n := |props| - 1;
    var init, p := props[..n], props[n];
    var d := UpdatesOf(init);
    if i == n {
      PutGet(d, k, p.value.value, k);
    } else {
      assert UpdateOf(init, i, k);
      forall j | i < j < |init| ensures !UpdateOf(init, j, k) {
        assert !UpdateOf(props, j, k);
      }
      LastUpdateWins(init, i, k);
      if IsUpdate(p) {
        assert !UpdateOf(props, n, k);
        PutGet(d, p.key, p.value.value, k);
      }
    }
  }

  /** Item `i` is the first update of its key. */
  predicate FirstUpdate(props: seq<Prop>, i: nat)
    requires i < |props|
  {
    IsUpdate(props[i]) && forall j :: 0 <= j < i ==> !UpdateOf(props, j, props[i].key)
  }

  /** A first update stays a first update in any prefix that holds it. */
  lemma {:induction false} FirstUpdateInPrefix(props: seq<Prop>, n: nat, i: nat)
    requires i < n <= |props| && FirstUpdate(props, i)
    ensures FirstUpdate(props[..n], i)
  {
    forall x | 0 <= x < i ensures !UpdateOf(props[..n], x, props[i].key) {
      assert !UpdateOf(props, x, props[i].key);
    }
  }

  /** A key first updated by the last item goes after every key updated
      before it. */
  lemma {:induction false} NewKeyGoesLast(props: seq<Prop>, i: nat)
    requires UpdatesValued(props)
    requires i < |props| - 1 && IsUpdate(props[i]) && FirstUpdate(props, |props| - 1)
    ensures props[i].key in Keys(UpdatesOf(props)) && props[|props| - 1].key in Keys(UpdatesOf(props))
    ensures Position(UpdatesOf(props), props[i].key) < Position(UpdatesOf(props), props[|props| - 1].key)
  {
    var n := |props| - 1;
    var init, p := props[..n], props[n];
    var d := UpdatesOf(init);
    var ki, kj := props[i].key, p.key;
    assert UpdateOf(init, i, ki);
    UpdatedKeys(init, ki);
    UpdatedKeys(init, kj);
    assert kj !in Keys(d) by {
      forall x | 0 <= x < |init| ensures !UpdateOf(init, x, kj) {
        assert !UpdateOf(props, x, kj);
      }
    }
    PutPosition(d, kj, p.value.value, ki);
    PutNewLast(d, kj, p.value.value);
  }

  /** Keys are ordered by their first update: a later assignment to a key
      does not move it. */
  lemma {:induction false} FirstUpdateOrder(props: seq<Prop>, i: nat, j: nat)
    requires UpdatesValued(props)
    requires i < j < |props| && FirstUpdate(props, i) && FirstUpdate(props, j)
    ensures props[i].key in Keys(UpdatesOf(props)) && props[j].key in Keys(UpdatesOf(props))
    ensures Position(UpdatesOf(props), props[i].key) < Position(UpdatesOf(props), props[j].key)
  {
    var n := |props| - 1;
    if j < n {
      var init, p := props[..n], props[n];
      var d := UpdatesOf(init);
      FirstUpdateInPrefix(props, n, i);
      FirstUpdateInPrefix(props, n, j);
      FirstUpdateOrder(init, i, j);
      if IsUpdate(p) {
        PutPosition(d, p.key, p.value.value, props[i].key);
        PutPosition(d, p.key, p.value.value, props[j].key);
      }
    } else {
      NewKeyGoesLast(props, i);
    }
  }

  /** The delete list holds the key of every delete item and no other key.
      Its exact contents, in order and with duplicates, are `DeletesOf`. */
  lemma {:induction false} DeletesOfSpec(props: seq<Prop>)
    ensures |DeletesOf(props)| <= |props|
    ensures forall k :: k in DeletesOf(props) <==> exists i :: 0 <= i < |props| && IsDelete(props[i]) && props[i].key == k
  {
    if props != [] {
      var init := props[..|props| - 1];
      DeletesOfSpec(init);
      assert forall i :: 0 <= i < |init| ==> init[i] == props[i];
      forall k | k in DeletesOf(props)
        ensures exists i :: 0 <= i < |props| && IsDelete(props[i]) && props[i].key == k
      {
        if k !in DeletesOf(init) {
          assert IsDelete(props[|props| - 1]) && props[|props| - 1].key == k;
        }
      }
    }
  }
}
