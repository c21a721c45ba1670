/**
 * The `HandleMap` of the `handy` crate as the sessions use it: a finite map from
 * handles to entries, the order in which iteration visits them, and the next
 * handle to hand out. `PeerId` and `GroupId` wrap such handles.
 */
module Handles {
  import opened Wrappers

  type Handle = nat
  type PeerId = Handle
  type GroupId = Handle

  predicate Distinct<T(==)>(s: seq<T>) {
    forall i, j :: 0 <= i < j < |s| ==> s[i] != s[j]
  }

  /** `s` without the occurrences of `x`, order kept. */
  function Without(s: seq<Handle>, x: Handle): (r: seq<Handle>)
    ensures forall y :: y in r <==> y in s && y != x
    ensures Distinct(s) ==> Distinct(r)
    ensures x !in s ==> r == s
  {
    if s == [] then []
    else
      var init, last := s[..|s| - 1], s[|s| - 1];
      assert s == init + [last];
      assert Distinct(s) ==> Distinct(init) && last !in init;
      if last == x then Without(init, x) else Without(init, x) + [last]
  }

  datatype HandleMap<T> = HandleMap(items: map<Handle, T>, order: seq<Handle>, next: Handle) {
    /** Iteration visits each live handle once, and every live handle was handed out before `next`. */
    ghost predicate Valid() {
      Distinct(order) &&
      (forall h :: h in items <==> h in order) &&
      (forall h :: h in items ==> h < next)
    }

    function Get(h: Handle): Option<T> {
      if h in items then Some(items[h]) else None
    }

    /** insert: the entry gets a handle no live entry has, and comes last in iteration. */
    function Insert(v: T): (r: (Handle, HandleMap<T>))
      requires Valid()
      ensures r.0 !in items
      ensures r.1.Valid() && r.1.items == items[r.0 := v] && r.1.order == order + [r.0]
    {
      (next, HandleMap(items[next := v], order + [next], next + 1))
    }

    /** get_mut followed by an assignment through the reference. */
    function Set(h: Handle, v: T): (r: HandleMap<T>)
      requires Valid() && h in items
      ensures r.Valid() && r.items == items[h := v] && r.order == order
    {
      HandleMap(items[h := v], order, next)
    }

    /** remove: the entry of a live handle and the map without it; `None` and no change otherwise. */
    function Remove(h: Handle): (r: (Option<T>, HandleMap<T>))
      requires Valid()
      ensures h in items ==> r.0 == Some(items[h])
      ensures h !in items ==> r.0 == None && r.1 == this
      ensures r.1.Valid() && r.1.items == items - {h} && r.1.order == Without(order, h)
    {
      if h in items then (Some(items[h]), HandleMap(items - {h}, Without(order, h), next))
      else (None, this)
    }

    /** clear: no entries; handles already handed out are not handed out again. */
    function Clear(): (r: HandleMap<T>)
      requires Valid()
      ensures r.Valid() && r.items == map[] && r.order == []
    {
      HandleMap(map[], [], next)
    }
  }

  function EmptyHandleMap<T>(): (r: HandleMap<T>)
    ensures r.Valid() && r.items == map[]
  {
    HandleMap(map[], [], 0)
  }

  /** An entry replaced and then removed is an entry removed. */
  lemma UpdateThenRemove<V>(m: map<Handle, V>, h: Handle, v: V)
    ensures m[h := v] - {h} == m - {h}
  {
  }
}
