/** The VFS manager's tables (kernel/comps/vfs/src/manager.rs): the
    registered file-system providers, the mount table from mount path to
    mount id and its inverse, the longest-prefix mount lookup and the
    relative path handed to the mounted file system.

    The file-system instances, their root vnodes and the id allocators are
    collaborators: whether each of them succeeds is a parameter, and an
    allocated id is passed in. */
module VfsManager {

  import opened Common
  import opened Errors
  import opened PathNormalize
  import opened Paths

  /** Symbolic links may nest this deep before resolution fails. */
  const MAX_SYMLINK_DEPTH: nat := 40

  /** The mount-lookup test: `m` is a textual prefix of `path` that is the
      root or ends on a component boundary. */
  predicate MountMatches(path: string, m: string)
  {
    StartsWith(path, m) && (m == "/" || |path| == |m| || path[|m|] == '/')
  }

  /** For an absolute path the mount-lookup test is the path's own
      `starts_with`. */
  lemma MountMatchesIsStartsWith(path: string, m: string)
    requires IsAbsolute(path) && m != ""
    ensures MountMatches(path, m) <==> StartsWithBase(path, m)
  {
    if m == "/" {
      assert path[..1] == "/";
    }
  }

  /** `r` is what the lookup may answer: the root, or a matching mount,
      and no matching mount is longer. */
  predicate IsBestMount(path: string, mounts: set<string>, r: string)
  {
    && (r == "/" || (r in mounts && MountMatches(path, r)))
    && (forall m :: m in mounts && MountMatches(path, m) ==> |m| <= |r|)
  }

  /** Two matches of the same length are the same prefix, so the answer
      does not depend on the order in which the table is scanned. */
  lemma BestMountUnique(path: string, mounts: set<string>, r1: string, r2: string)
    requires IsAbsolute(path) && "" !in mounts
    requires IsBestMount(path, mounts, r1) && IsBestMount(path, mounts, r2)
    ensures r1 == r2
  {
    if r1 != "/" && r2 != "/" {
      assert |r1| == |r2|;
      assert r1 == path[..|r1|] == r2;
    } else {
      assert path[..1] == "/";
    }
  }

  /** `resolve_path`'s first check: a depth past the limit is a loop. */
  function CheckSymlinkDepth(depth: nat): (r: Result<(), Errno>)
    ensures r.Err? <==> depth > MAX_SYMLINK_DEPTH
    ensures r.Err? ==> r.error == ELOOP
  {
    if depth > MAX_SYMLINK_DEPTH then Err(ELOOP) else Ok(())
  }

  /** The path inside the mounted file system: the whole path under the
      root mount, otherwise the text after the mount path, made a path
      again (`/` when nothing is left). */
  function RelativePath(path: string, mount: string): Result<string, Errno>
    requires |mount| <= |path|
  {
    if mount == "/" then Ok(path)
    else
      var rest := path[|mount|..];
      if rest == "" then NewPath("/") else NewPath(rest)
  }

  /** Under a mount other than the root, the relative path of a normal
      path is `/` at the mount point itself and otherwise an absolute
      normal path that completes the mount path to the whole path. */
  lemma RelativePathOfMount(path: string, mount: string)
    requires IsNormal(path) && IsAbsolute(path)
    requires IsNormal(mount) && IsAbsolute(mount) && mount != "/"
    requires MountMatches(path, mount)
    ensures RelativePath(path, mount).Ok?
    ensures var rel := RelativePath(path, mount).value;
      if path == mount then rel == "/"
      else mount + rel == path && IsAbsolute(rel) && IsNormal(rel)
  {
    if |path| != |mount| {
      var rest := path[|mount|..];
      var t := rest[1..];
      assert path == mount + ['/'] + t by {
        assert path == path[..|mount|] + rest;
      }
      assert rest == ['/'] + t;
      TailOfNormal(mount, t);
      NewPathOfNormal(rest);
    } else {
      assert path == mount by {
        assert path == path[..|mount|];
      }
    }
  }

  /** What follows a component boundary of an absolute normal path is
      itself an absolute normal path. */
  lemma TailOfNormal(head: string, t: string)
    requires IsAbsolute(head) && IsNormal(head + ['/'] + t)
    ensures IsNormal(['/'] + t)
  {
    var hs := Split(head, '/');
    var ts := Split(t, '/');
    SplitAppend(head, t, '/');
    FirstSegment(head);
    TailStack(hs, ts);
    SplitAppend("", t, '/');
    assert ['/'] + t == "" + ['/'] + t;
  }

  lemma TailStack(hs: seq<string>, ts: seq<string>)
    requires |hs| >= 1 && AbsoluteStack((hs + ts)[1..])
    ensures AbsoluteStack(ts)
  {
    forall i | 0 <= i < |ts|
      ensures '/' !in ts[i] && IsName(ts[i])
    {
      assert ts[i] == (hs + ts)[1..][|hs| - 1 + i];
    }
  }

  /** The cache capacities `build` uses when none was set. */
  const DEFAULT_VNODE_CACHE_CAP: nat := 1024
  const DEFAULT_DENTRY_CACHE_CAP: nat := 4096

  /** `VfsManagerBuilder`: the providers to install, keyed by their
      file-system type name, and the cache capacities if set. */
  datatype Builder = Builder(providers: set<string>, vnodeCacheCap: Option<nat>, dentryCacheCap: Option<nat>)
  {
    /** `provider`: adds a provider under its type name; a second
        provider of the same name takes the first one's place. */
    function Provider(name: string): (b: Builder)
      ensures b.providers == providers + {name}
      ensures b.vnodeCacheCap == vnodeCacheCap && b.dentryCacheCap == dentryCacheCap
    {
      this.(providers := providers + {name})
    }

    /** `vnode_cache_capacity`. */
    function VnodeCacheCapacity(cap: nat): (b: Builder)
      ensures b.VnodeCap() == cap && b.DentryCap() == DentryCap() && b.providers == providers
    {
      this.(vnodeCacheCap := Some(cap))
    }

    /** `dentry_cache_capacity`. */
    function DentryCacheCapacity(cap: nat): (b: Builder)
      ensures b.DentryCap() == cap && b.VnodeCap() == VnodeCap() && b.providers == providers
    {
      this.(dentryCacheCap := Some(cap))
    }

    /** The vnode cache capacity `build` uses. */
    function VnodeCap(): nat
    {
      if vnodeCacheCap.Some? then vnodeCacheCap.value else DEFAULT_VNODE_CACHE_CAP
    }

    /** The dentry cache capacity `build` uses. */
    function DentryCap(): nat
    {
      if dentryCacheCap.Some? then dentryCacheCap.value else DEFAULT_DENTRY_CACHE_CAP
    }
  }

  /** `VfsManagerBuilder::new`: no providers and the default capacities. */
  function NewBuilder(): (b: Builder)
    ensures b.providers == {}
    ensures b.VnodeCap() == 1024 && b.DentryCap() == 4096
  {
    Builder({}, None, None)
  }

  /** Providers added in either order give the same builder, and adding
      one twice is adding it once. */
  lemma ProvidersCommute(b: Builder, x: string, y: string)
    ensures b.Provider(x).Provider(y) == b.Provider(y).Provider(x)
    ensures b.Provider(x).Provider(x) == b.Provider(x)
  {
  }

  /** The manager's tables.  `mountPaths` maps a mount id back to its
      path. */
  class Manager {
    var providers: set<string>
    var mountTable: map<string, nat>
    var mountPaths: map<nat, string>

    /** The two mount tables are each other's inverse, and every mount
        path is absolute and normal. */
    predicate Valid()
      reads this
    {
      && (forall p :: p in mountTable ==>
            && mountTable[p] in mountPaths && mountPaths[mountTable[p]] == p
            && IsAbsolute(p) && IsNormal(p))
      && (forall id :: id in mountPaths ==>
            mountPaths[id] in mountTable && mountTable[mountPaths[id]] == id)
    }

    /** The capacities of the vnode and dentry caches. */
    const vnodeCacheCap: nat
    const dentryCacheCap: nat

    /** `VfsManagerBuilder::build`: the builder's providers and cache
        capacities (1024 vnodes and 4096 dentries unless set), and empty
        mount tables. */
    constructor(b: Builder)
      ensures Valid()
      ensures providers == b.providers && mountTable == map[] && mountPaths == map[]
      ensures vnodeCacheCap == b.VnodeCap() && dentryCacheCap == b.DentryCap()
    {
      providers := b.providers;
      mountTable := map[];
      mountPaths := map[];
      vnodeCacheCap := b.VnodeCap();
      dentryCacheCap := b.DentryCap();
    }

    /** `register_filesystem_provider`: a name already registered is
        refused. */
    method RegisterProvider(name: string) returns (r: Result<(), Errno>)
      requires Valid()
      modifies this
      ensures Valid()
      ensures old(name in providers) ==> r == Err(EINVAL) && providers == old(providers)
      ensures old(name !in providers) ==> r == Ok(()) && providers == old(providers) + {name}
      ensures mountTable == old(mountTable) && mountPaths == old(mountPaths)
    {
      if name in providers {
        return Err(EINVAL);
      }
      providers := providers + {name};
      return Ok(());
    }

    /** `unregister_filesystem_provider`: a name not registered is
        refused. */
    method UnregisterProvider(name: string) returns (r: Result<(), Errno>)
      requires Valid()
      modifies this
      ensures Valid()
      ensures old(name !in providers) ==> r == Err(EINVAL) && providers == old(providers)
      ensures old(name in providers) ==> r == Ok(()) && providers == old(providers) - {name}
      ensures mountTable == old(mountTable) && mountPaths == old(mountPaths)
    {
      if name !in providers {
        return Err(EINVAL);
      }
      providers := providers - {name};
      return Ok(());
    }

    /** `mount`: the target must be a valid absolute path that is not
        mounted yet and the file-system type must be registered; then the
        ids are allocated, the provider mounts and the root vnode is
        fetched, each of which may fail.  Only full success changes the
        tables.  An allocator only hands out an id not in use. */
    method Mount(target: string, fsType: string, mountId: Option<nat>, fsIdOk: bool,
                 providerOk: bool, rootOk: bool) returns (r: Result<nat, Errno>)
      requires Valid()
      requires mountId.Some? ==> mountId.value !in mountPaths
      modifies this
      ensures Valid() && providers == old(providers)
      ensures var p := NewPath(target);
        && (p.Err? || !IsAbsolute(p.value) || p.value in old(mountTable) ==> r == Err(EINVAL))
        && (p.Ok? && IsAbsolute(p.value) && p.value !in old(mountTable) ==>
              && (fsType !in providers ==> r == Err(ENOENT))
              && (fsType in providers && (mountId.None? || !fsIdOk) ==> r == Err(ENOMEM))
              && (fsType in providers && mountId.Some? && fsIdOk && !(providerOk && rootOk) ==> r == Err(EIO))
              && (fsType in providers && mountId.Some? && fsIdOk && providerOk && rootOk ==>
                    && r == Ok(mountId.value)
                    && mountTable == old(mountTable)[p.value := mountId.value]
                    && mountPaths == old(mountPaths)[mountId.value := p.value]))
      ensures r.Err? ==> mountTable == old(mountTable) && mountPaths == old(mountPaths)
    {
      var p := NewPath(target);
      if p.Err? {
        return Err(p.error);
      }
      var path := p.value;
      if !IsAbsolute(path) {
        return Err(EINVAL);
      }
      if path in mountTable {
        return Err(EINVAL);
      }
      if fsType !in providers {
        return Err(ENOENT);
      }
      if mountId.None? || !fsIdOk {
        return Err(ENOMEM);
      }
      if !providerOk || !rootOk {
        return Err(EIO);
      }
      NewPathIsNormal(target);
      var id := mountId.value;
      mountTable := mountTable[path := id];
      mountPaths := mountPaths[id := path];
      return Ok(id);
    }

    /** `unmount`: the mount table is scanned for the entry with that id;
        none is EINVAL, a file system that refuses to prepare is EBUSY,
        otherwise the entry leaves both tables. */
    method Unmount(id: nat, prepareOk: bool) returns (r: Result<(), Errno>)
      requires Valid()
      modifies this
      ensures Valid() && providers == old(providers)
      ensures id !in old(mountPaths) ==> r == Err(EINVAL)
      ensures id in old(mountPaths) && !prepareOk ==> r == Err(EBUSY)
      ensures id in old(mountPaths) && prepareOk ==>
        && r == Ok(())
        && mountTable == old(mountTable) - {old(mountPaths)[id]}
        && mountPaths == old(mountPaths) - {id}
      ensures r.Err? ==> mountTable == old(mountTable) && mountPaths == old(mountPaths)
    {
      var found: Option<string> := None;
      var keys := mountTable.Keys;
      while keys != {} && found.None?
        invariant keys <= mountTable.Keys
        invariant found.None? ==> forall p :: p in mountTable && p !in keys ==> mountTable[p] != id
        invariant found.Some? ==> found.value in mountTable && mountTable[found.value] == id
        decreases keys
      {
        var p :| p in keys;
        if mountTable[p] == id {
          found := Some(p);
        }
        keys := keys - {p};
      }
      if found.None? {
        return Err(EINVAL);
      }
      if !prepareOk {
        return Err(EBUSY);
      }
      var path := found.value;
      mountTable := mountTable - {path};
      mountPaths := mountPaths - {id};
      return Ok(());
    }

    /** `find_mount_point_for_path`: an empty or relative path is EINVAL;
        otherwise the longest mount path that is a prefix of the path on a
        component boundary, or `/` when none is. */
    method FindMountPoint(path: string) returns (r: Result<string, Errno>)
      ensures r.Err? <==> path == "" || path[0] != '/'
      ensures r.Err? ==> r.error == EINVAL
      ensures r.Ok? && mountTable == map[] ==> r.value == "/"
      ensures r.Ok? ==> IsBestMount(path, mountTable.Keys, r.value)
    {
      if path == "" || path[0] != '/' {
        return Err(EINVAL);
      }
      if mountTable == map[] {
        return Ok("/");
      }
      var best := "/";
      var bestLen := 0;
      var keys := mountTable.Keys;
      while keys != {}
        invariant keys <= mountTable.Keys
        invariant (bestLen == 0 && best == "/")
          || (bestLen == |best| && best in mountTable && MountMatches(path, best))
        invariant forall m :: m in mountTable && m !in keys && MountMatches(path, m) ==> |m| <= bestLen
        decreases keys
      {
        var m :| m in keys;
        if StartsWith(path, m) && (m == "/" || |path| == |m| || path[|m|] == '/') {
          if |m| > bestLen {
            best := m;
            bestLen := |m|;
          }
        }
        keys := keys - {m};
      }
      return Ok(best);
    }

    /** The start of `resolve_path`: the depth check, the mount lookup,
        the mount's entry (ENOENT when the lookup fell back to a root that
        is not mounted) and the path relative to that mount. */
    method Locate(path: string, depth: nat) returns (r: Result<(string, string), Errno>)
      requires Valid()
      requires path == "." || IsNormal(path)
      ensures depth > MAX_SYMLINK_DEPTH ==> r == Err(ELOOP)
      ensures depth <= MAX_SYMLINK_DEPTH && !IsAbsolute(path) ==> r == Err(EINVAL)
      ensures r.Ok? ==> var (mount, rel) := r.value;
        && mount in mountTable && IsBestMount(path, mountTable.Keys, mount)
        && (mount == "/" ==> rel == path)
        && (mount != "/" && path == mount ==> rel == "/")
        && (mount != "/" && path != mount ==> mount + rel == path && IsAbsolute(rel) && IsNormal(rel))
      ensures r == Err(ENOENT) <==>
        depth <= MAX_SYMLINK_DEPTH && IsAbsolute(path) && "/" !in mountTable
        && forall m :: m in mountTable ==> !MountMatches(path, m)
    {
      var check := CheckSymlinkDepth(depth);
      if check.Err? {
        return Err(check.error);
      }
      var found := FindMountPoint(path);
      if found.Err? {
        return Err(EINVAL);
      }
      var mount := found.value;
      if mount !in mountTable {
        assert mount == "/";
        return Err(ENOENT);
      }
      if mount != "/" {
        RelativePathOfMount(path, mount);
      } else {
        assert path[..1] == "/";
      }
      var rel := RelativePath(path, mount);
      return Ok((mount, rel.value));
    }
  }
}
