/** The VFS caches (kernel/comps/vfs/src/cache.rs): the vnode cache keyed
    by vnode id and the dentry cache keyed by (directory path, name).
    Neither evicts: a full cache refuses new entries.

    A vnode is represented by its id and an identity that tells two vnode
    objects with the same id apart. */
module VfsCache {

  import opened Common

  /** Capacities the manager gives its caches. */
  const DEFAULT_VNODE_CACHE_CAP: nat := 1024
  const DEFAULT_DENTRY_CACHE_CAP: nat := 4096

  datatype Vnode = Vnode(id: nat, identity: nat)

  // ----- the vnode cache -------------------------------------------------

  /** `VnodeCache::put` on the map: a full cache takes no new id, but an id
      already cached is always replaced. */
  function VnodePut(cache: map<nat, Vnode>, capacity: nat, v: Vnode): map<nat, Vnode>
  {
    if |cache| >= capacity && v.id !in cache then cache else cache[v.id := v]
  }

  /** A cache keyed by each vnode's own id. */
  predicate KeyedById(cache: map<nat, Vnode>)
  {
    forall k :: k in cache ==> cache[k].id == k
  }

  /** `put` keeps the cache within its capacity and keyed by id, and
      afterwards the id maps to the new vnode unless the cache was full
      and the id new, in which case nothing changed. */
  lemma VnodePutSpec(cache: map<nat, Vnode>, capacity: nat, v: Vnode)
    requires |cache| <= capacity && KeyedById(cache)
    ensures var c := VnodePut(cache, capacity, v);
      && |c| <= capacity && KeyedById(c)
      && (v.id in c ==> c[v.id] == v)
      && (v.id !in c <==> |cache| >= capacity && v.id !in cache)
      && (v.id !in c ==> c == cache)
      && (forall k :: k != v.id ==> (k in c <==> k in cache) && (k in c ==> c[k] == cache[k]))
  {
    if v.id in cache {
      assert cache[v.id := v].Keys == cache.Keys;
    } else if |cache| < capacity {
      assert cache[v.id := v].Keys == cache.Keys + {v.id};
    }
  }

  class VnodeCache {
    var cache: map<nat, Vnode>
    const capacity: nat

    predicate Valid()
      reads this
    {
      |cache| <= capacity && KeyedById(cache)
    }

    constructor(capacity: nat)
      ensures Valid() && this.capacity == capacity && cache == map[]
    {
      this.capacity := capacity;
      cache := map[];
    }

    /** `get`: the cached vnode with that id, if any. */
    method Get(id: nat) returns (r: Option<Vnode>)
      requires Valid()
      ensures r.Some? <==> id in cache
      ensures r.Some? ==> r.value == cache[id] && r.value.id == id
    {
      if id in cache {
        return Some(cache[id]);
      }
      return None;
    }

    /** `put`: hands the vnode back whether or not it was cached. */
    method Put(v: Vnode) returns (r: Vnode)
      requires Valid()
      modifies this
      ensures Valid()
      ensures r == v
      ensures cache == VnodePut(old(cache), capacity, v)
    {
      VnodePutSpec(cache, capacity, v);
      if |cache| >= capacity && v.id !in cache {
        return v;
      }
      cache := cache[v.id := v];
      return v;
    }

    /** `remove`: only that id leaves the cache. */
    method Remove(id: nat)
      requires Valid()
      modifies this
      ensures Valid()
      ensures cache == old(cache) - {id}
    {
      cache := cache - {id};
    }

    method Clear()
      requires Valid()
      modifies this
      ensures Valid() && cache == map[]
    {
      cache := map[];
    }
  }

  // ----- the dentry cache ------------------------------------------------

  /** A dentry key: the directory's path and the entry's name. */
  type DentryKey = (string, string)

  /** `DentryCache::put` as written: a full cache refuses the entry even
      when the key is already cached, so the old vnode stays. */
  function DentryPutAsWritten(cache: map<DentryKey, Vnode>, capacity: nat, key: DentryKey, v: Vnode): map<DentryKey, Vnode>
  {
    if |cache| >= capacity then cache else cache[key := v]
  }

  /** `put` as written never takes the cache past its capacity. */
  lemma DentryPutAsWrittenBounded(cache: map<DentryKey, Vnode>, capacity: nat, key: DentryKey, v: Vnode)
    requires |cache| <= capacity
    ensures |DentryPutAsWritten(cache, capacity, key, v)| <= capacity
    ensures |cache| >= capacity ==> DentryPutAsWritten(cache, capacity, key, v) == cache
  {
    if |cache| < capacity {
      if key in cache {
        assert cache[key := v].Keys == cache.Keys;
      } else {
        assert cache[key := v].Keys == cache.Keys + {key};
      }
    }
  }

  /** In a full cache of capacity one, re-putting the cached key with a
      new vnode leaves the old one to be found. */
  lemma DentryPutKeepsStaleAsWritten()
    ensures var key := ("/dev", "null");
      var old1 := Vnode(3, 1);
      var c := DentryPutAsWritten(map[key := old1], 1, key, Vnode(3, 2));
      key in c && c[key] == old1 && c[key] != Vnode(3, 2)
  {
    var key := ("/dev", "null");
    assert |map[key := Vnode(3, 1)]| == 1 by {
      assert map[key := Vnode(3, 1)].Keys == {key};
    }
  }

  /** `put` with the replacement the vnode cache does: a key already
      cached is updated even when the cache is full. */
  function DentryPut(cache: map<DentryKey, Vnode>, capacity: nat, key: DentryKey, v: Vnode): map<DentryKey, Vnode>
  {
    if |cache| >= capacity && key !in cache then cache else cache[key := v]
  }

  /** The corrected `put` stays within capacity, and a cached key always
      reads back the latest vnode. */
  lemma DentryPutSpec(cache: map<DentryKey, Vnode>, capacity: nat, key: DentryKey, v: Vnode)
    requires |cache| <= capacity
    ensures var c := DentryPut(cache, capacity, key, v);
      && |c| <= capacity
      && (key in cache ==> key in c && c[key] == v)
      && (key !in c <==> |cache| >= capacity && key !in cache)
      && (forall k :: k != key ==> (k in c <==> k in cache) && (k in c ==> c[k] == cache[k]))
  {
    if key in cache {
      assert cache[key := v].Keys == cache.Keys;
    } else if |cache| < capacity {
      assert cache[key := v].Keys == cache.Keys + {key};
    }
  }

  /** The entries of `cache` outside directory `dir`. */
  function WithoutDir(cache: map<DentryKey, Vnode>, dir: string): (r: map<DentryKey, Vnode>)
    ensures forall k :: k in r <==> k in cache && k.0 != dir
    ensures forall k :: k in r ==> r[k] == cache[k]
    ensures |r| <= |cache|
  {
    var r := map k | k in cache && k.0 != dir :: cache[k];
    assert r.Keys <= cache.Keys;
    Common.SubsetCard(r.Keys, cache.Keys);
    r
  }

  class DentryCache {
    var cache: map<DentryKey, Vnode>
    const capacity: nat

    predicate Valid()
      reads this
    {
      |cache| <= capacity
    }

    constructor(capacity: nat)
      ensures Valid() && this.capacity == capacity && cache == map[]
    {
      this.capacity := capacity;
      cache := map[];
    }

    method Get(dir: string, name: string) returns (r: Option<Vnode>)
      ensures r.Some? <==> (dir, name) in cache
      ensures r.Some? ==> r.value == cache[(dir, name)]
    {
      if (dir, name) in cache {
        return Some(cache[(dir, name)]);
      }
      return None;
    }

    /** `put`, as the source has it. */
    method Put(dir: string, name: string, v: Vnode)
      requires Valid()
      modifies this
      ensures Valid()
      ensures cache == DentryPutAsWritten(old(cache), capacity, (dir, name), v)
    {
      DentryPutAsWrittenBounded(cache, capacity, (dir, name), v);
      if |cache| >= capacity {
        return;
      }
      cache := cache[(dir, name) := v];
    }

    /** `invalidate_dir`: exactly the entries of that directory go. */
    method InvalidateDir(dir: string)
      requires Valid()
      modifies this
      ensures Valid()
      ensures cache == WithoutDir(old(cache), dir)
    {
      cache := WithoutDir(cache, dir);
    }

    method Clear()
      requires Valid()
      modifies this
      ensures Valid() && cache == map[]
    {
      cache := map[];
    }
  }
}
