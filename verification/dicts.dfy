/**
 * A Python dictionary filled by a loop that assigns `data[key] = value` once per item,
 * skipping some items: a later assignment to the same key overwrites an earlier one.
 */
module Dicts {
  import opened Wrappers

  /** The dictionary after performing `updates` in order; `None` is an item the loop skips. */
  function Fill<K, V>(updates: seq<Option<(K, V)>>): map<K, V>
  {
    if updates == [] then map[]
    else
      var m := Fill(updates[..|updates| - 1]);
      match updates[|updates| - 1]
      case None => m
      case Some(kv) => m[kv.0 := kv.1]
  }

  /** A key is present exactly when some item assigned it. */
  lemma {:induction false} FillKeys<K, V>(updates: seq<Option<(K, V)>>, k: K)
    ensures k in Fill(updates) <==> exists i :: 0 <= i < |updates| && updates[i].Some? && updates[i].value.0 == k
  {
    if updates != [] {
      var prefix := updates[..|updates| - 1];
      FillKeys(prefix, k);
      if k in Fill(prefix) {
        var i :| 0 <= i < |prefix| && prefix[i].Some? && prefix[i].value.0 == k;
        assert updates[i] == prefix[i];
      }
      if exists i :: 0 <= i < |updates| && updates[i].Some? && updates[i].value.0 == k {
        var i :| 0 <= i < |updates| && updates[i].Some? && updates[i].value.0 == k;
        if i < |prefix| { assert prefix[i] == updates[i]; }
      }
    }
  }

  /** No item after position `i` assigns `k`. */
  predicate LastFor<K(==), V>(updates: seq<Option<(K, V)>>, i: int, k: K)
  {
    forall j :: 0 <= i < j < |updates| ==> updates[j].None? || updates[j].value.0 != k
  }

  /** The value of a present key is the one assigned by the last item that assigned that key. */
  lemma {:induction false} FillLast<K, V>(updates: seq<Option<(K, V)>>, k: K)
    requires k in Fill(updates)
    ensures exists i :: 0 <= i < |updates| && updates[i] == Some((k, Fill(updates)[k])) && LastFor(updates, i, k)
  {
    var n := |updates|;
    var prefix := updates[..n - 1];
    match updates[n - 1]
    case Some(kv) =>
      if kv.0 == k {
        assert updates[n - 1] == Some((k, Fill(updates)[k]));
      } else {
        FillLast(prefix, k);
        var i :| 0 <= i < |prefix| && prefix[i] == Some((k, Fill(prefix)[k])) && LastFor(prefix, i, k);
        assert updates[i] == prefix[i];
        forall j | i < j < n ensures updates[j].None? || updates[j].value.0 != k {
          if j < n - 1 { assert updates[j] == prefix[j]; }
        }
      }
    case None =>
      FillLast(prefix, k);
      var i :| 0 <= i < |prefix| && prefix[i] == Some((k, Fill(prefix)[k])) && LastFor(prefix, i, k);
      assert updates[i] == prefix[i];
      forall j | i < j < n ensures updates[j].None? || updates[j].value.0 != k {
        if j < n - 1 { assert updates[j] == prefix[j]; }
      }
  }

  /** The items of a loop whose steps may raise, as `Fill` sees them: a raising step assigns nothing. */
  function Assigned<K, V>(items: seq<Outcome<(K, V)>>): (u: seq<Option<(K, V)>>)
    ensures |u| == |items|
    ensures forall i :: 0 <= i < |items| ==> (u[i].Some? <==> items[i].Ok?)
    ensures forall i :: 0 <= i < |items| && items[i].Ok? ==> u[i] == Some(items[i].value)
  {
    seq(|items|, i requires 0 <= i < |items| => if items[i].Ok? then Some(items[i].value) else None)
  }

  /**
   * A loop that assigns one key per item and stops at the first exception: the exception of
   * the first raising item, or the dictionary once every item has assigned.
   */
  function FillOrRaise<K, V>(items: seq<Outcome<(K, V)>>): Outcome<map<K, V>>
  {
    if items == [] then Ok(map[])
    else
      match FillOrRaise(items[..|items| - 1])
      case Raised(e) => Raised(e)
      case Ok(m) =>
        match items[|items| - 1]
        case Raised(e) => Raised(e)
        case Ok(kv) => Ok(m[kv.0 := kv.1])
  }

  /** One more item: an earlier exception stands, else this item raises or assigns. */
  lemma FillOrRaiseSnoc<K, V>(items: seq<Outcome<(K, V)>>, x: Outcome<(K, V)>)
    ensures FillOrRaise(items).Raised? ==> FillOrRaise(items + [x]) == FillOrRaise(items)
    ensures FillOrRaise(items).Ok? && x.Raised? ==> FillOrRaise(items + [x]) == Raised(x.error)
    ensures FillOrRaise(items).Ok? && x.Ok? ==>
      FillOrRaise(items + [x]) == Ok(FillOrRaise(items).value[x.value.0 := x.value.1])
  {
    assert (items + [x])[..|items|] == items;
  }

  /** Once an item has raised, the later items are never reached. */
  lemma {:induction false} FillOrRaisePrefix<K, V>(items: seq<Outcome<(K, V)>>, n: nat)
    requires n <= |items| && FillOrRaise(items[..n]).Raised?
    ensures FillOrRaise(items) == FillOrRaise(items[..n])
  {
    if n < |items| {
      assert items[..|items| - 1][..n] == items[..n];
      FillOrRaisePrefix(items[..|items| - 1], n);
    } else {
      assert items[..n] == items;
    }
  }

  /** The loop completes exactly when no item raises, and then leaves the dictionary `Fill` describes. */
  lemma {:induction false} FillOrRaiseOk<K, V>(items: seq<Outcome<(K, V)>>)
    ensures FillOrRaise(items).Ok? <==> forall i :: 0 <= i < |items| ==> items[i].Ok?
    ensures FillOrRaise(items).Ok? ==> FillOrRaise(items).value == Fill(Assigned(items))
  {
    if items != [] {
      var front := items[..|items| - 1];
      FillOrRaiseOk(front);
      assert Assigned(items)[..|items| - 1] == Assigned(front);
      if FillOrRaise(front).Raised? {
        var i :| 0 <= i < |front| && !front[i].Ok?;
        assert items[i] == front[i];
      }
      if forall i :: 0 <= i < |items| ==> items[i].Ok? {
        forall i | 0 <= i < |front|
          ensures front[i].Ok?
        {
          assert front[i] == items[i];
        }
      }
    }
  }

  /** Item `i` raises `e` and no earlier item raises. */
  predicate FirstRaise<K, V>(items: seq<Outcome<(K, V)>>, i: int, e: PyError)
  {
    0 <= i < |items| && items[i] == Raised(e) && forall j :: 0 <= j < i ==> items[j].Ok?
  }

  /** When the loop raises, it raises the exception of the first item that raises. */
  lemma {:induction false} FillOrRaiseFirst<K, V>(items: seq<Outcome<(K, V)>>)
    requires FillOrRaise(items).Raised?
    ensures exists i :: FirstRaise(items, i, FillOrRaise(items).error)
  {
    var front := items[..|items| - 1];
    if FillOrRaise(front).Raised? {
      FillOrRaiseFirst(front);
      var i :| FirstRaise(front, i, FillOrRaise(front).error);
      assert items[i] == front[i];
      forall j | 0 <= j < i
        ensures items[j].Ok?
      {
        assert items[j] == front[j];
      }
      assert FirstRaise(items, i, FillOrRaise(items).error);
    } else {
      FillOrRaiseOk(front);
      var i := |items| - 1;
      forall j | 0 <= j < i
        ensures items[j].Ok?
      {
        assert items[j] == front[j];
      }
      assert FirstRaise(items, i, FillOrRaise(items).error);
    }
  }
}
