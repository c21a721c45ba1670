/**
 * src/phy/dbus/store.rs: entries kept in a handle map, with a second index from
 * each entry's D-Bus object path to its handle, so that signals naming a path
 * find their entry.
 */
module Store {
  import opened Wrappers
  import opened Handles

  /** A D-Bus object path, kept as its text. */
  type Path = string

  /**
   * The store of entries of type `T`. The source asks each entry for its path
   * (the `DbusPath` trait); here the path an entry was inserted with is
   * recorded beside it, in `pathOf`.
   */
  class DbusStore<T> {
    var pathToHandle: map<Path, Handle>
    var entries: HandleMap<T>
    var pathOf: map<Handle, Path>

    /** The path index maps exactly the paths of the stored entries, each to its own handle. */
    ghost predicate Valid()
      reads this
    {
      entries.Valid() && pathOf.Keys == entries.items.Keys &&
      (forall p :: p in pathToHandle ==> pathToHandle[p] in pathOf && pathOf[pathToHandle[p]] == p) &&
      (forall h :: h in pathOf ==> pathOf[h] in pathToHandle && pathToHandle[pathOf[h]] == h)
    }

    /** Default: both indices empty. */
    constructor ()
      ensures Valid() && entries.items == map[] && pathToHandle == map[]
    {
      pathToHandle := map[];
      entries := EmptyHandleMap();
      pathOf := map[];
    }

    /** get: the entry under a live handle, nothing for any other. */
    function Get(h: Handle): (r: Option<T>)
      reads this
      ensures r.Some? <==> h in entries.items
      ensures r.Some? ==> r.value == entries.items[h]
    {
      entries.Get(h)
    }

    /** id_by_path: the handle of the entry with that path, if one is stored. */
    function IdByPath(p: Path): (r: Option<Handle>)
      reads this
      ensures Valid() && r.Some? ==> r.value in entries.items && pathOf[r.value] == p
      ensures Valid() && r.None? ==> forall h :: h in pathOf ==> pathOf[h] != p
    {
      if p in pathToHandle then Some(pathToHandle[p]) else None
    }

    /** get_by_path: `get` of `id_by_path`; in a valid store, the entry with that path exactly when there is one. */
    function GetByPath(p: Path): (r: Option<T>)
      reads this
      ensures Valid() && r.None? ==> forall h :: h in pathOf ==> pathOf[h] != p
      ensures Valid() && r.Some? ==> exists h :: h in entries.items && pathOf[h] == p && r.value == entries.items[h]
    {
      var id := IdByPath(p);
      if id.None? then None else Get(id.value)
    }

    /**
     * insert: the entry gets a fresh handle and its path points to it. The
     * store's debug assertion demands that no stored entry has the same path.
     */
    method Insert(el: T, path: Path) returns (h: Handle)
      requires Valid() && path !in pathToHandle
      modifies this
      ensures Valid()
      ensures h !in old(entries.items) && h == old(entries.next) && entries.next == old(entries.next) + 1
      ensures entries.items == old(entries.items)[h := el] && entries.order == old(entries.order) + [h]
      ensures pathToHandle == old(pathToHandle)[path := h] && pathOf == old(pathOf)[h := path]
      ensures Get(h) == Some(el) && IdByPath(path) == Some(h)
    {
      var inserted := entries.Insert(el);
      h := inserted.0;
      entries := inserted.1;
      pathToHandle := pathToHandle[path := h];
      pathOf := pathOf[h := path];
    }

    /**
     * get_mut followed by an assignment through the reference: the entry under
     * a live handle is replaced, keeping its path; `false` and no change for any
     * other handle.
     */
    method Update(h: Handle, el: T) returns (found: bool)
      requires Valid()
      modifies this
      ensures Valid() && found == (h in old(entries.items))
      ensures found ==> entries.items == old(entries.items)[h := el]
      ensures !found ==> entries.items == old(entries.items)
      ensures entries.order == old(entries.order) && entries.next == old(entries.next)
      ensures pathToHandle == old(pathToHandle) && pathOf == old(pathOf)
    {
      if h !in entries.items {
        return false;
      }
      entries := entries.Set(h, el);
      found := true;
    }

    /**
     * remove: a live handle's entry is returned and leaves both indices; any
     * other handle returns nothing and changes nothing.
     */
    method Remove(h: Handle) returns (r: Option<T>)
      requires Valid()
      modifies this
      ensures Valid() && entries.next == old(entries.next)
      ensures h !in old(entries.items) ==>
                r.None? && entries == old(entries) && pathToHandle == old(pathToHandle) && pathOf == old(pathOf)
      ensures h in old(entries.items) ==>
                r == Some(old(entries.items)[h]) &&
                entries.items == old(entries.items) - {h} &&
                pathToHandle == old(pathToHandle) - {old(pathOf)[h]} && pathOf == old(pathOf) - {h}
    {
      var removed := entries.Remove(h);
      if removed.0.None? {
        return None;
      }
      entries := removed.1;
      pathToHandle := pathToHandle - {pathOf[h]};
      pathOf := pathOf - {h};
      r := removed.0;
    }

    /** clear: both indices empty. */
    method Clear()
      requires Valid()
      modifies this
      ensures Valid() && entries.items == map[] && pathToHandle == map[] && entries.next == old(entries.next)
    {
      pathToHandle := map[];
      entries := entries.Clear();
      pathOf := map[];
    }
  }
}
