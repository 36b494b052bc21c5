# NexusOS kernel bookkeeping, in Dafny

This project models the sequential core of the NexusOS kernel and of the
libraries it vendors, and proves properties of that model:

- VFS path handling (normalisation, `PathSlice`, `VfsPath`), open flags,
  the mount table, vnode and dentry caches, pipes, devfs and ext4 handles;
- thread bookkeeping: lifecycle, `clone` flag checks, `wait4`, thread
  groups, the file-descriptor table and the initial user stack;
- user-memory helpers: `brk`, `mmap`/`munmap` argument rules, C-string
  scanning, `getdents64` records, `uname`, time conversion;
- OSTD memory management arithmetic: reader/writer cursors, page sizes,
  page-table entries and children, frame reference counts, segments, the
  counting frame allocator, DMA streams, LoongArch PTEs, PCI BAR windows
  and interrupt guards;
- the vendored `int_ratio`, `lazyinit`, `owo-colors` styles, `axconfig-gen`
  and `elf_loader` logic.

Each source file has its own Dafny module.  Pure code is modelled by
functions and lemmas; code that updates fields in place is modelled by
classes whose methods state the new state.  Kernel errors are the
datatype `Errors.Errno`; OSTD errors are `Errors.OstdError`.

## Model

| member | source | states |
|---|---|---|
| Errors.NewError | kernel/libs/nexus-error/src/lib.rs:314-316 | a new error carries the errno and no message |
| Errors.WithMessage | kernel/libs/nexus-error/src/lib.rs:318-323 | `with_message` stores the errno and the message |
| Errors.FromOstd | kernel/libs/nexus-error/src/lib.rs:352-366 | AccessDenied and PageFault map to EFAULT, NoMemory and KVirtAreaAllocError to ENOMEM, InvalidArgs and MapAlreadyMappedVaddr to EINVAL, IoError to EIO, NotEnoughResources to EBUSY, Overflow to EOVERFLOW, each in both directions |
| Errors.ToOstd | kernel/libs/nexus-error/src/lib.rs:495-507 | EACCES is the only errno mapped to AccessDenied, EFAULT the only one mapped to PageFault, and every errno without its own arm becomes InvalidArgs |
| Errors.ErrnoToOstdReport | kernel/libs/nexus-error/src/lib.rs:376-388 | the report conversion maps exactly EFAULT to AccessDenied and exactly EOVERFLOW to Overflow, everything unlisted to InvalidArgs |
| Errors.OstdRoundTrip | kernel/libs/nexus-error/src/lib.rs:352-366 | framework error to errno and back is the identity exactly for NoMemory, InvalidArgs, IoError, NotEnoughResources and PageFault |
| PathNormalize.Normalize | kernel/comps/vfs/src/path/normalize.rs:13-43 | an empty input or one with NUL is rejected with EINVAL and nothing else is; `/` stays `/`; an input on the fast path is returned unchanged |
| PathNormalize.Components | kernel/comps/vfs/src/path/normalize.rs:50-62 | the iterator never yields an empty segment, `.` or a segment containing `/` |
| PathNormalize.Keep | kernel/comps/vfs/src/path/normalize.rs:55-60 | the kept segments are exactly the input segments that are neither empty nor `.` |
| PathNormalize.NormalizeIsNormal | kernel/comps/vfs/src/path/normalize.rs:24-42 | every non-empty result is `.` or in normal form: the root, `/` followed by names, or leading `..` followed by names |
| PathNormalize.NormalIsFixedPoint | kernel/comps/vfs/src/path/normalize.rs:13-43 | a path in normal form normalises to itself |
| PathNormalize.NormalizeIdempotent | kernel/comps/vfs/src/path/normalize.rs:13-43 | normalising twice gives the same result as once |
| PathNormalize.NormalizeKeepsAbsoluteness | kernel/comps/vfs/src/path/normalize.rs:26-41 | the output starts with `/` exactly when the input does |
| PathNormalize.AllCancelledIsRoot | kernel/comps/vfs/src/path/normalize.rs:36-38 | an absolute path whose components all cancel normalises to `/` |
| PathNormalize.BorrowedIsFastOrRootAsWritten | kernel/comps/vfs/src/path/normalize.rs:17-42 | `normalize` as written returns `Cow::Borrowed` exactly when it takes the fast path or returns `/`: an owned result is never the root |
| PathNormalize.ResolveAbsoluteAgrees | kernel/comps/vfs/src/path/normalize.rs:28-34 | on an absolute path the slow path as written and the corrected one give the same components, since no `..` is ever kept to be popped |
| PathNormalize.FastPathIsNormal | kernel/comps/vfs/src/path/normalize.rs:20-22 | an input the corrected fast-path test accepts is `.` or already in normal form |
| PathNormalize.ResolveKeepsStack | kernel/comps/vfs/src/path/normalize.rs:28-34 | the component stack stays a list of names (absolute) or of leading `..` then names (relative) |
| PathNormalize.DotDotsAreKept | kernel/comps/vfs/src/path/normalize.rs:31 | a relative path of n `..` keeps all n of them |
| PathNormalize.DotDotPopsDotDotAsWritten | kernel/comps/vfs/src/path/normalize.rs:31 | as written, `../..` normalises to the empty string |
| PathNormalize.FastPathMissesTrailingDotDotAsWritten | kernel/comps/vfs/src/path/normalize.rs:20-22 | as written, `/a/..` is returned unchanged |
| Paths.NewSliceAsWritten | kernel/comps/vfs/src/path/slice.rs:15-21 | an empty or NUL-containing input is EINVAL, exactly as `normalize` fails; a slice is made exactly when `normalize` as written returns a borrowed string (its fast path, or the root `/`), and it is that string, the input itself or `/`; every owned result reaches the `unreachable!` (see Findings) |
| Paths.NewSliceAsWrittenPanics | kernel/comps/vfs/src/path/slice.rs:19 | `/bin//sh`, a path `execve` may pass, comes back from `normalize` owned and reaches the `unreachable!` |
| Paths.NewSliceOfCancelled | kernel/comps/vfs/src/path/slice.rs:15-17 | `//`, whose components all cancel, comes back from `normalize` as the borrowed `/`, so both the code as written and the corrected constructor give the slice `/` |
| Paths.NewSlice | kernel/comps/vfs/src/path/slice.rs:15-21 | corrected: the result is an error (EINVAL) exactly when the input is empty, holds NUL or is turned by `normalize` into anything but itself or the root; a slice is what `normalize` returns, the input itself or `/`, and is `/`, `.` or in normal form |
| Paths.NewSliceOfNormal | kernel/comps/vfs/src/path/slice.rs:15-21 | every path in normal form makes a slice of itself |
| Paths.NewSliceAgreesAsWritten | kernel/comps/vfs/src/path/slice.rs:15-21 | where the code as written does not panic and the input does not end in `/.` or `/..`, the corrected constructor gives the same slice or the same error |
| Paths.NewPath | kernel/comps/vfs/src/path.rs:73-103 | empty and NUL-containing input is rejected with EINVAL; `/` gives `/` |
| Paths.NewPathIsNormal | kernel/comps/vfs/src/path.rs:115-174 | an accepted path is `.` or in normal form, and is absolute exactly when the input is |
| Paths.NewPathOfNormal | kernel/comps/vfs/src/path.rs:115-174 | a path in normal form is accepted unchanged |
| Paths.NewPathIdempotent | kernel/comps/vfs/src/path.rs:73-103 | constructing a path from a constructed path changes nothing |
| Paths.NewPathAgreesWithNormalize | kernel/comps/vfs/src/path.rs:115-174 | wherever `normalize` gives a non-empty path, `VfsPath::new` gives the same path |
| Paths.DotDotAtRootIsDropped | kernel/comps/vfs/src/path.rs:131-134 | `..` at the root is ignored: `/..` gives `/` |
| Paths.CancelledDotsAreDot | kernel/comps/vfs/src/path.rs:156-165 | a relative path of dots and slashes that cancels gives `.` |
| Paths.CancelledNameIsError | kernel/comps/vfs/src/path.rs:156-170 | a name not starting with a dot followed by `/..` cancels to nothing and is rejected with EINVAL |
| Paths.CancelledRelative | kernel/comps/vfs/src/path.rs:156-170 | a relative path without NUL whose components cancel to nothing is `.` when it is made of dots and slashes and rejected with EINVAL otherwise |
| Paths.Parent | kernel/comps/vfs/src/path.rs:215-224 | there is no parent exactly for the root and for a relative path without `/`; the parent is shorter; `PathSlice::parent` is the same function |
| Paths.FileName | kernel/comps/vfs/src/path.rs:232-237 | there is no file name only for the root; otherwise it is the longest suffix without `/`; `PathSlice::file_name` is the same function |
| Paths.ParentOfAppend | kernel/comps/vfs/src/path.rs:215-224 | the parent of `join(p, c)` is `p` |
| Paths.FileNameOfAppend | kernel/comps/vfs/src/path.rs:232-237 | the file name of `join(p, c)` is `c` |
| Paths.ParentAndFileName | kernel/comps/vfs/src/path.rs:215-237 | joining the file name onto the parent gives the path back |
| Paths.AppendStartsWithBase | kernel/comps/vfs/src/path.rs:265-273 | a joined path starts with the path it was joined onto |
| Paths.SliceStripPrefix | kernel/comps/vfs/src/path/slice.rs:62-73 | stripping succeeds exactly when the path starts with the base |
| Paths.SliceStripPrefixRoundTrip | kernel/comps/vfs/src/path/slice.rs:62-73 | the stripped rest joined back onto the base gives the path |
| Paths.SliceStripJoined | kernel/comps/vfs/src/path/slice.rs:62-90 | stripping the base off `join(base, c)` gives `c` |
| Paths.StripSuffix | kernel/comps/vfs/src/path/slice.rs:76-79 | the result exists exactly when the path has a `/`, ends with `/` and is a prefix of the path |
| Paths.StripSuffixAndFileName | kernel/comps/vfs/src/path/slice.rs:76-79 | the kept prefix followed by the file name is the path |
| Paths.SliceJoin | kernel/comps/vfs/src/path/slice.rs:82-90 | an empty component or one containing `/` is rejected with EINVAL, and nothing else is |
| Paths.Extension | kernel/comps/vfs/src/path.rs:244-249 | an extension is non-empty, has no dot, and follows a dot that is neither the first nor the last character of the file name |
| Paths.ExtensionOfAppend | kernel/comps/vfs/src/path.rs:244-249 | `stem.ext` has extension `ext` |
| Paths.HiddenFileHasNoExtension | kernel/comps/vfs/src/path.rs:244-249 | a name whose only dot is its first character has no extension |
| Paths.PathStripPrefix | kernel/comps/vfs/src/path.rs:280-305 | stripping succeeds only when the path starts with the base, fails only for that reason or for the root stripped off the root, and an equal path gives the empty string |
| Paths.PathStripPrefixRoundTrip | kernel/comps/vfs/src/path.rs:280-305 | the stripped rest joined back onto the base gives the path |
| Paths.PathStripJoined | kernel/comps/vfs/src/path.rs:280-334 | stripping the base off `join(base, c)` gives `c` |
| Paths.JoinAcceptsNulAsWritten | kernel/comps/vfs/src/path.rs:321-334 | as written, `join("/a", "b\0")` succeeds with a path `VfsPath::new` rejects |
| Paths.PathJoin | kernel/comps/vfs/src/path.rs:321-334 | a component is rejected with EINVAL exactly when it is not a name (empty, `.`, `..`, NUL) or contains `/` |
| Paths.PathJoinIsNormal | kernel/comps/vfs/src/path.rs:321-334 | joining a name onto a path in normal form gives a path in normal form that `VfsPath::new` accepts unchanged |
| Paths.AppendIsNormal | kernel/comps/vfs/src/path.rs:328-333 | appending a name to a path in normal form, after a `/` unless the path is the root, keeps it in normal form |
| VfsTypes.AccessModes | kernel/comps/vfs/src/types.rs:160-161 | readable exactly for ReadOnly and ReadWrite, writable exactly for WriteOnly and ReadWrite; only ReadWrite is both |
| VfsTypes.StatusOf | kernel/comps/vfs/src/types.rs:223-224 | the status has no access bits and no unknown bits, and together with those bits rebuilds the raw word |
| VfsTypes.NewFileOpen | kernel/comps/vfs/src/types.rs:214-227 | the word is rejected exactly when its low two bits are 3; otherwise the raw word is kept, the access mode encodes the low bits and the status is the known status bits |
| VfsTypes.SetCloexec | kernel/comps/vfs/src/types.rs:243-246 | `cloexec` sets CLOEXEC in the status and leaves the raw word and access mode unchanged |
| VfsTypes.DecodeEncode | kernel/comps/vfs/src/types.rs:214-227 | parsing the word made of an access mode and known status flags gives back that mode and those flags |
| VfsTypes.ParseRdwrCreateTruncCloexec | kernel/comps/vfs/src/types.rs:320-328 | `O_RDWR\|O_CREAT\|O_TRUNC\|O_CLOEXEC` parses to read-write with the three flags, readable and writable |
| VfsTypes.WithAccess | kernel/comps/vfs/src/types.rs:280-288 | an access setter records the mode and keeps the status |
| VfsTypes.WithFlag | kernel/comps/vfs/src/types.rs:291-296 | a status setter adds its flag and changes nothing else |
| VfsTypes.SettersKeepWellFormed | kernel/comps/vfs/src/types.rs:275-296 | builders made by the setters hold only known status bits |
| VfsTypes.Build | kernel/comps/vfs/src/types.rs:300-305 | building fails with MissingAccess exactly when no access mode was set |
| VfsTypes.BuildRoundTrip | kernel/comps/vfs/src/types.rs:300-305 | a builder with an access mode always builds, with exactly that mode and those flags |
| VfsTypes.BuilderRdwrCreateTruncCloexec | kernel/comps/vfs/src/types.rs:330-342 | read-write, create, truncate and cloexec build to read-write with those flags |
| VfsTypes.GetBool | kernel/comps/vfs/src/types.rs:391-393 | the value parsed as `true` or `false`, and the default when the key is missing or does not parse |
| VfsManager.MountMatchesIsStartsWith | kernel/comps/vfs/src/manager.rs:590-595 | for an absolute path, the lookup's prefix test is the path's own `starts_with` |
| VfsManager.BestMountUnique | kernel/comps/vfs/src/manager.rs:585-607 | the longest matching mount is unique, so the answer does not depend on the order the table is scanned in |
| VfsManager.CheckSymlinkDepth | kernel/comps/vfs/src/manager.rs:459-461 | resolution fails with ELOOP exactly when the symlink depth exceeds 40 |
| VfsManager.RelativePathOfMount | kernel/comps/vfs/src/manager.rs:476-490 | under a mount other than the root, the relative path is `/` at the mount point and otherwise an absolute normal path that completes the mount path to the whole path |
| VfsManager.TailOfNormal | kernel/comps/vfs/src/manager.rs:481-489 | what follows a component boundary of an absolute normal path is an absolute normal path, so `VfsPathBuf::new` accepts it unchanged |
| VfsManager.NewBuilder | kernel/comps/vfs/src/manager.rs:74-80 | a new builder has no providers, and building it gives caches of 1024 vnodes and 4096 dentries |
| VfsManager.Builder.Provider | kernel/comps/vfs/src/manager.rs:83-87 | a provider is added under its type name, replacing one of the same name, and the capacities are kept |
| VfsManager.Builder.VnodeCacheCapacity | kernel/comps/vfs/src/manager.rs:90-93 | the vnode cache gets the given capacity; the dentry capacity and the providers are kept |
| VfsManager.Builder.DentryCacheCapacity | kernel/comps/vfs/src/manager.rs:96-99 | the dentry cache gets the given capacity; the vnode capacity and the providers are kept |
| VfsManager.ProvidersCommute | kernel/comps/vfs/src/manager.rs:83-87 | the order in which providers are added does not matter, and adding one twice is adding it once |
| VfsManager.Manager.constructor | kernel/comps/vfs/src/manager.rs:102-130 | a built manager has exactly the builder's providers, the set capacities or 1024 and 4096, and empty mount tables |
| VfsManager.Manager.RegisterProvider | kernel/comps/vfs/src/manager.rs:147-163 | a name already registered is refused with EINVAL; otherwise exactly that name is added |
| VfsManager.Manager.UnregisterProvider | kernel/comps/vfs/src/manager.rs:172-184 | a name not registered is refused with EINVAL; otherwise exactly that name is removed |
| VfsManager.Manager.Mount | kernel/comps/vfs/src/manager.rs:196-306 | an invalid, relative or already-mounted target is EINVAL, an unknown type ENOENT, a failed id allocation ENOMEM, a failed provider mount or root fetch EIO; only success adds the target with its id to both tables, which stay each other's inverse |
| VfsManager.Manager.Unmount | kernel/comps/vfs/src/manager.rs:313-405 | an unknown id is EINVAL, a refused prepare EBUSY; otherwise the id and its path leave both tables and nothing else does |
| VfsManager.Manager.FindMountPoint | kernel/comps/vfs/src/manager.rs:568-607 | an empty or relative path is EINVAL; an empty table gives `/`; otherwise the result is `/` or a mount that is a prefix on a component boundary, and no matching mount is longer |
| VfsManager.Manager.Locate | kernel/comps/vfs/src/manager.rs:453-492 | depth over 40 is ELOOP, a relative path EINVAL, no covering mount ENOENT; otherwise the mount is the longest covering one and the relative path is the rest of the path |
| VfsCache.VnodePutSpec | kernel/comps/vfs/src/cache.rs:54-69 | `put` keeps the cache within capacity and keyed by id; the id then maps to the new vnode unless the cache was full and the id new, in which case nothing changed; other ids are untouched |
| VfsCache.VnodeCache.Get | kernel/comps/vfs/src/cache.rs:41-45 | the cached vnode with that id, if there is one |
| VfsCache.VnodeCache.Put | kernel/comps/vfs/src/cache.rs:54-69 | the vnode is handed back, and the cache becomes the `put` of it |
| VfsCache.VnodeCache.Remove | kernel/comps/vfs/src/cache.rs:75-78 | only that id leaves the cache |
| VfsCache.VnodeCache.Clear | kernel/comps/vfs/src/cache.rs:81-84 | the cache becomes empty |
| VfsCache.DentryPutAsWrittenBounded | kernel/comps/vfs/src/cache.rs:135-150 | `put` never takes the cache past its capacity and changes nothing once it is full |
| VfsCache.DentryPutKeepsStaleAsWritten | kernel/comps/vfs/src/cache.rs:145-149 | as written, re-putting a cached key in a full cache keeps the old vnode |
| VfsCache.DentryPutSpec | kernel/comps/vfs/src/cache.rs:135-150 | with replacement of a cached key, the cache stays within capacity and a cached key reads back the latest vnode |
| VfsCache.WithoutDir | kernel/comps/vfs/src/cache.rs:158-161 | exactly the entries of other directories remain, with their vnodes |
| VfsCache.DentryCache.Get | kernel/comps/vfs/src/cache.rs:118-127 | the vnode cached under that directory and name, if any |
| VfsCache.DentryCache.Put | kernel/comps/vfs/src/cache.rs:135-150 | the cache becomes the as-written `put` and stays within capacity |
| VfsCache.DentryCache.InvalidateDir | kernel/comps/vfs/src/cache.rs:158-161 | exactly the entries whose directory is the argument are removed |
| VfsPipe.RingPipe.ReadAt | kernel/comps/vfs/src/impls/pipe.rs:33-56 | with bytes buffered, the oldest min(dst.len, buffered) move into `dst` in order and leave the queue; with none, EOF when no writer is left and a wait otherwise |
| VfsPipe.RingPipe.WriteAt | kernel/comps/vfs/src/impls/pipe.rs:60-70 | all bytes are appended in order and the whole length is returned |
| VfsPipe.RingPipe.HasWriter | kernel/comps/vfs/src/impls/pipe.rs:22-26 | a writer exists exactly when the strong count exceeds one |
| VfsPipe.FifoOrder | kernel/comps/vfs/src/impls/pipe.rs:37-43 | successive reads of any sizes together hand out a prefix of the queue in order |
| VfsDevFs.SeekPastEndAsWritten | kernel/comps/vfs/src/impls/dev_fs/handle.rs:19-26 | as written, after seeking past the end the chunk bounds run backwards, so the slice panics |
| VfsDevFs.ChunkBounds | kernel/comps/vfs/src/impls/dev_fs/handle.rs:19-26 | the chunk lies within the snapshot; within the listing it is what the source computes, past it the chunk is empty |
| VfsDevFs.ChunksCoverSnapshot | kernel/comps/vfs/src/impls/dev_fs/handle.rs:19-26 | successive chunks continue each other and together are the snapshot from the cursor on |
| VfsDevFs.DirHandle.ReadDirChunk | kernel/comps/vfs/src/impls/dev_fs/handle.rs:19-26 | the chunk is `snapshot[cur..min(cur+l, len)]` (the rest when no length is given) and the cursor moves to its end |
| VfsDevFs.DirHandle.SeekDir | kernel/comps/vfs/src/impls/dev_fs/handle.rs:28-32 | the cursor becomes the offset |
| VfsDevFs.VectoredSpec | kernel/comps/vfs/src/impls/dev_fs/handle.rs:56-73 | a vectored transfer returns the sum of the per-buffer counts, or the first error |
| VfsDevFs.VectoredAt | kernel/comps/vfs/src/impls/dev_fs/handle.rs:56-73 | each buffer goes to the device at the offset advanced by the earlier counts, and the result is the vectored total |
| VfsDevFs.DevFs.constructor | kernel/comps/vfs/src/impls/dev_fs/filesystem.rs:19-46 | the new file system's root has no children |
| VfsDevFs.DevFs.KindOf | kernel/comps/vfs/src/impls/dev_fs/vnode.rs:79-84 | the vnode with the root's id is the only directory, an id of a registered device is a character device, and no other id names a vnode |
| VfsDevFs.DevFs.RegisterCharDevice | kernel/comps/vfs/src/impls/dev_fs/filesystem.rs:49-81 | an existing name is EEXIST; otherwise exactly one child is added, with id children.len()+2, and children's ids stay distinct and never 1 |
| VfsExt4Vnode.ConvertFtype | kernel/comps/vfs/src/impls/ext4_fs/vnode.rs:20-31 | Unknown becomes a regular file |
| VfsExt4Vnode.ConvertFtypeSpec | kernel/comps/vfs/src/impls/ext4_fs/vnode.rs:20-31 | two types share a kind only when they are RegularFile and Unknown, and every kind is reached |
| VfsExt4Vnode.NewRoot | kernel/comps/vfs/src/impls/ext4_fs/vnode.rs:79-81 | the root vnode is inode 2, a directory |
| VfsExt4Vnode.FileHandle.ReadAt | kernel/comps/vfs/src/impls/ext4_fs/vnode.rs:165-178 | an unreadable handle gives EINVAL; a readable one gives what ext4 read |
| VfsExt4Vnode.FileHandle.WriteAt | kernel/comps/vfs/src/impls/ext4_fs/vnode.rs:180-193 | an unwritable handle gives EINVAL; a writable one gives what ext4 wrote |
| VfsExt4Vnode.ReadVectoredBound | kernel/comps/vfs/src/impls/ext4_fs/vnode.rs:195-214 | a vectored read moves at most the buffers' total, and exactly that when every read fills its buffer |
| VfsExt4Vnode.FileHandle.ReadVectoredAt | kernel/comps/vfs/src/impls/ext4_fs/vnode.rs:195-214 | buffers are read in turn at the advancing offset, stopping at an error, an empty read or a short read; an unreadable handle gives EINVAL |
| VfsExt4Vnode.FileHandle.WriteVectoredAt | kernel/comps/vfs/src/impls/ext4_fs/vnode.rs:216-225 | an unwritable handle gives EINVAL; otherwise the sum of the per-buffer counts or the first error |
| VfsExt4Vnode.FileHandle.Seek | kernel/comps/vfs/src/impls/ext4_fs/vnode.rs:227-238 | the offset becomes the position from the start, the end or the current offset, wrapped to 64 bits; a failed metadata fetch leaves it |
| VfsExt4Vnode.SeekBackAndForth | kernel/comps/vfs/src/impls/ext4_fs/vnode.rs:235 | seeking by n and then by -n returns to the same offset |
| VfsExt4Vnode.DirChunkPastEndAsWritten | kernel/comps/vfs/src/impls/ext4_fs/vnode.rs:265-275 | as written, past the end the chunk is empty but starts beyond the entries, so the copy's slice panics |
| VfsExt4Vnode.DirHandle.ReadDirChunk | kernel/comps/vfs/src/impls/ext4_fs/vnode.rs:265-275 | min(buf.len, remaining) entries are copied in order and the index moves past them; with the saturating remainder it never passes the end |
| VfsExt4Vnode.DirHandle.SeekDir | kernel/comps/vfs/src/impls/ext4_fs/vnode.rs:277-280 | the index becomes the offset |
| VfsExt4Vnode.Open | kernel/comps/vfs/src/impls/ext4_fs/vnode.rs:297-306 | only a regular file opens; anything else is EINVAL |
| VfsExt4Vnode.OpenDir | kernel/comps/vfs/src/impls/ext4_fs/vnode.rs:312-346 | only a directory opens (else EINVAL); a failed listing is EIO; otherwise the handle holds the listed entries whose attributes were read |
| VfsExt4Vnode.Listed | kernel/comps/vfs/src/impls/ext4_fs/vnode.rs:330-341 | an entry is kept exactly when some listed entry had its attributes read and converts to it, with its converted kind |
| VfsExt4Vnode.ListedAppend | kernel/comps/vfs/src/impls/ext4_fs/vnode.rs:330-341 | the entries kept from two runs of the listing are those of the first run followed by those of the second, so listing order is kept |
| VfsExt4Vnode.ListedOne | kernel/comps/vfs/src/impls/ext4_fs/vnode.rs:333-340 | one listed entry is kept, with its name, inode and converted kind, exactly when its attributes were read |
| ThreadLifecycle.StateByte | kernel/src/thread/state.rs:7-12 | Running is stored as 0 and Zombie as 1 |
| ThreadLifecycle.Lifecycle.constructor | kernel/src/thread/state.rs:22-28 | a new lifecycle is running with exit code 0 and no waiters |
| ThreadLifecycle.Lifecycle.Exit | kernel/src/thread/state.rs:31-35 | the code is stored, the state becomes Zombie and every waiter is woken |
| ThreadLifecycle.Lifecycle.Wait | kernel/src/thread/state.rs:38-44 | a zombie's code comes back at once with nothing changed; otherwise the caller joins the waiters |
| ThreadLifecycle.IsZombieSpec | kernel/src/thread/state.rs:46-48 | `is_zombie` holds exactly in the Zombie state |
| ThreadLifecycle.Lifecycle.Clone | kernel/src/thread/state.rs:51-61 | the copy has the same state and code and an empty wait queue of its own |
| ThreadGroups.ThreadGroup.NewLeader | kernel/src/thread/thread_group.rs:19-25 | the group's id is the leader's tid and the leader is its only member |
| ThreadGroups.ThreadGroup.Attach | kernel/src/thread/thread_group.rs:28-30 | exactly one member is appended; the leader and the id stay |
| ThreadGroups.ThreadGroup.Leader | kernel/src/thread/thread_group.rs:32-42 | the leader is a member whose tid is the group id, which no operation changes |
| FdTables.AsFile | kernel/src/thread/fd_table.rs:24-42 | a file handle is returned exactly for a file object |
| FdTables.AsDir | kernel/src/thread/fd_table.rs:37-42 | a directory handle is returned exactly for a directory object |
| FdTables.AllocPastCapacityAsWritten | kernel/src/thread/fd_table.rs:149-164 | as written, a search starting at the capacity hands out a descriptor equal to the capacity |
| FdTables.FreeFdSpec | kernel/src/thread/fd_table.rs:153-161 | the descriptor found is the least free one from the start, below the capacity; failure means every one in range is taken |
| FdTables.FdTable.constructor | kernel/src/thread/fd_table.rs:96-103 | a new table is empty, searches from 0, and has capacity OPEN_MAX when given 0 |
| FdTables.FdTable.Alloc | kernel/src/thread/fd_table.rs:142-165 | a full table is EMFILE; otherwise the least free descriptor from max(next, min_fd) takes the entry and next becomes one past it |
| FdTables.FdTable.Get | kernel/src/thread/fd_table.rs:168-173 | the entry of a descriptor in use, EBADF otherwise |
| FdTables.FdTable.SetFlags | kernel/src/thread/fd_table.rs:176-239 | EBADF for a descriptor not in use; otherwise only its flags change |
| FdTables.FdTable.Close | kernel/src/thread/fd_table.rs:188-193 | EBADF for a descriptor not in use; otherwise exactly that entry goes |
| FdTables.DupZeroAsWritten | kernel/src/thread/fd_table.rs:209-216 | as written, `dup(0)` returns descriptor 0 itself |
| FdTables.DupClosesStdinAsWritten | kernel/src/thread/fd_table.rs:218-222 | as written, `dup(3)` with descriptors 0 and 3 open closes descriptor 0 and returns 4 |
| FdTables.Dup3ElsewhereAsWritten | kernel/src/thread/fd_table.rs:218-222 | as written, `dup3(3, 5)` with the search past 5 returns 10 |
| FdTables.FdTable.Dup | kernel/src/thread/fd_table.rs:197-223 | a copy of the entry goes to a new descriptor, different from the old one; EBADF for a descriptor not in use |
| FdTables.FdTable.Dup3 | kernel/src/thread/fd_table.rs:197-223 | the copy, with close-on-exec when asked, lands on exactly the new descriptor |
| FdTables.FdTable.DupTable | kernel/src/thread/fd_table.rs:227-234 | a new table with the same entries, next and capacity |
| FdTables.FdTable.ClearCloexecOnExec | kernel/src/thread/fd_table.rs:242-254 | exactly the entries without close-on-exec stay, and next is the least remaining descriptor or 0 |
| FdTables.LeastKey | kernel/src/thread/fd_table.rs:247-252 | the least descriptor left in the table, or 0 when none is left |
| FdTables.StdFlags | kernel/src/thread/fd_table.rs:264-268 | the built flags are read-only or read-write with no status bits |
| FdTables.StdoutPathReadOnlyAsWritten | kernel/src/thread/fd_table.rs:131 | as written, standard output from a read-write path source is opened read-only |
| FdTables.StdRequest | kernel/src/thread/fd_table.rs:127-133 | device sources open read-only exactly for standard input; a path source opens with its own flags; a preopened handle is used as it is |
| FdTables.FdTable.FillStd | kernel/src/thread/fd_table.rs:125-139 | the entry is written at the fd directly unless opening fails, and next rises to at least 3 |
| FdTables.WithStdio | kernel/src/thread/fd_table.rs:106-123 | the given streams are filled in order and the first failure is returned; the table holds exactly the given streams |
| FdTables.FillGiven | kernel/src/thread/fd_table.rs:113-115 | one stream fails exactly when a given path fails to open, with that error; otherwise the table gains exactly that descriptor and the search start rises to at least 3, and an absent stream changes nothing |
| ThreadClone.TruncateSpec | kernel/src/thread/clone.rs:29-48 | truncation keeps each defined flag and the signal byte and clears every undefined bit |
| ThreadClone.CheckFlagsSpec | kernel/src/thread/clone.rs:51-68 | EINVAL exactly when CLONE_SIGHAND or CLONE_THREAD lacks CLONE_VM or CLONE_THREAD lacks CLONE_SIGHAND; a thread exactly when CLONE_THREAD is set with both |
| ThreadClone.TidAllocator.Alloc | kernel/src/thread/clone.rs:126 | a draw hands out the counter's value and advances the counter by one, wrapping at 2^64 |
| ThreadClone.ProcessIdsAsWritten | kernel/src/thread/clone.rs:125-174 | as written, the leader record takes the first of two successive draws and the child the second, so a new process's group id is never the tid its parent receives |
| ThreadClone.SpawnChild | kernel/src/thread/clone.rs:162-225 | the child has the new tid, a copy of the lifecycle, return value 0, the given stack and TLS when asked, joins or leads the group, and becomes a child of its parent process only when it is a process |
| ThreadClone.ChildFiles | kernel/src/thread/clone.rs:88-138 | CLONE_FILES shares the descriptor table; otherwise the child gets a copy |
| ThreadClone.DoClone | kernel/src/thread/clone.rs:46-159 | invalid flags are EINVAL; a thread shares group and address space; a process shares the address space under CLONE_VM or gets a fork, leads a group named after its tid, and its parent is the caller's parent under CLONE_PARENT or the group leader; the caller gets the new tid |
| ThreadWait.PidMatchSpec | kernel/src/thread/wait.rs:58-60 | -1 matches every tid, any other request only that tid |
| ThreadWait.LastMatch | kernel/src/thread/wait.rs:37-42 | the last child the request matches, and none exactly when no child matches |
| ThreadWait.WithoutShrinks | kernel/src/thread/wait.rs:47 | removing a collected child's tid shrinks the children list |
| ThreadWait.StatusWordDecodes | kernel/src/thread/wait.rs:15-24 | the status word's low byte is 0 and its second byte is the low byte of the exit code |
| ThreadWait.CopyStatus | kernel/src/thread/wait.rs:62-66 | the word is written exactly when the pointer is not null |
| ThreadWait.WnohangSleepsAsWritten | kernel/src/thread/wait.rs:12-49 | as written, WNOHANG with a running child sleeps instead of returning 0 |
| ThreadWait.SkipsExitedChildAsWritten | kernel/src/thread/wait.rs:37-46 | as written, waiting for any child sleeps on the last one though an earlier one has exited |
| ThreadWait.TryCollect | kernel/src/thread/wait.rs:31-56 | no matching child is ECHILD; matching children none exited is `None`; otherwise the last exited match is collected and removed |
| ThreadWait.DoWait4 | kernel/src/thread/wait.rs:9-29 | a collected child's tid is returned with its status written; with running matches WNOHANG returns 0 and otherwise the caller sleeps |
| ThreadWait.Wait4Agrees | kernel/src/thread/wait.rs:37-49 | when the last match has exited, the corrected choice is the one the code makes |
| InitStack.AuxVec.Set | kernel/src/thread/init_stack.rs:339-348 | AT_NULL and AT_IGNORE are refused with EINVAL and the table is untouched; any other key gets the value, replacing an earlier one, and reads back |
| InitStack.AuxVec.Get | kernel/src/thread/init_stack.rs:350-352 | a value comes back exactly when the key is set, and it is the stored one |
| InitStack.AuxVec.Del | kernel/src/thread/init_stack.rs:354-356 | the key's old value, if any, comes back and only that key leaves the table |
| InitStack.KeysFrom | kernel/src/thread/init_stack.rs:208-214 | the walk lists only keys set in the table |
| InitStack.KeysFromSorted | kernel/src/thread/init_stack.rs:208-214 | the table is walked in strictly increasing key order, as a `BTreeMap` iterates |
| InitStack.KeysFromComplete | kernel/src/thread/init_stack.rs:208-214 | every set key is visited |
| InitStack.KeysFromCount | kernel/src/thread/init_stack.rs:189 | the walk visits as many keys as the table holds, which is what the alignment arithmetic counts |
| InitStack.AuxWords | kernel/src/thread/init_stack.rs:215-217 | the pair words are twice as many as the keys, the value first and the key second for each |
| InitStack.PairsBackwards | kernel/src/thread/init_stack.rs:202-218 | read upwards, the pairs come in decreasing key order, each key word followed by its value |
| InitStack.ReverseIndex | kernel/src/thread/init_stack.rs:224 | reversing a pointer array puts element i at position n-1-i |
| InitStack.ReverseReverse | kernel/src/thread/init_stack.rs:176-181 | reversing twice restores the argument order |
| InitStack.ImageReversesTail | kernel/src/thread/init_stack.rs:151-157 | the words written last lie lowest, so the image read upwards is the written tail reversed |
| InitStack.ImageLayout | kernel/src/thread/init_stack.rs:133-157 | from the stack pointer up: argc, the argument pointers, a null, the environment pointers, a null, the auxiliary pairs, then the AT_NULL pair |
| InitStack.PaddingAligns | kernel/src/thread/init_stack.rs:196-198 | from an 8-aligned position, one extra word exactly when needed makes the position less the remaining size a multiple of 16 |
| InitStack.ToWriteSize | kernel/src/thread/init_stack.rs:189-194 | the remaining size is a whole number of words |
| InitStack.TailSize | kernel/src/thread/init_stack.rs:189-194 | the size reckoned in advance equals what the four later writes really take |
| InitStack.WrapMod16 | kernel/src/thread/init_stack.rs:196 | the wrapping `usize` subtraction does not change the remainder modulo 16 |
| InitStack.DownAligned | kernel/src/thread/init_stack.rs:160-194 | moving down by the size reckoned in advance leaves the stack pointer 16-byte aligned, as the padding arranged |
| InitStack.VectorsImage | kernel/src/thread/init_stack.rs:160-167 | the vectors written downwards read upwards from where they end as the image |
| InitStack.Stack.constructor | kernel/src/thread/init_stack.rs:40-61 | the top is seven pages below the user-space limit, the size is 8 MiB, and the stack starts uninitialised |
| InitStack.Stack.SetUninitialized | kernel/src/thread/init_stack.rs:98-100 | the position returns to the top, so the stack reads as uninitialised |
| InitStack.Stack.UserStackTop | kernel/src/thread/init_stack.rs:105-110 | callable only once initialised, and then never the initial top |
| InitStack.Stack.MapAndWrite | kernel/src/thread/init_stack.rs:63-96 | allocation and mapping failures are returned with the stack uninitialised; a successful write leaves the shared position 16-byte aligned, inside the mapping and below the top |
| InitStack.Stack.MapAddr | kernel/src/thread/init_stack.rs:76-78 | the mapping ends exactly at the initial top |
| InitStack.MapAddrAligned | kernel/src/thread/init_stack.rs:79 | the mapping address of a new stack is positive and page aligned |
| InitStack.WordPosAligned | kernel/src/thread/init_stack.rs:245 | from an aligned position a word goes exactly 8 bytes lower |
| InitStack.Writer.WriteU64 | kernel/src/thread/init_stack.rs:244-249 | the position moves to align_down(pos - 8, 8) even when the write then fails; inside the memory object the word is stored there and its address returned |
| InitStack.Writer.WriteBytes | kernel/src/thread/init_stack.rs:260-265 | the position moves down by the length, wrapping; inside the memory object the bytes are stored there and their address returned |
| InitStack.Writer.WriteCString | kernel/src/thread/init_stack.rs:253-256 | the string is stored with its terminating NUL |
| InitStack.Writer.WriteWords | kernel/src/thread/init_stack.rs:244-249 | consecutive word writes from an aligned position fill consecutive words downwards and leave everything above untouched |
| InitStack.Writer.WriteEnvpStrings | kernel/src/thread/init_stack.rs:165-172 | each environment string is stored with its NUL at the address returned for it, in order, all below the start and nothing above it disturbed |
| InitStack.Writer.WriteArgvStrings | kernel/src/thread/init_stack.rs:174-183 | the same for the arguments, written last-first, with the addresses returned in argument order |
| InitStack.Writer.AdjustStackAlignment | kernel/src/thread/init_stack.rs:185-200 | after one or two zero words the position is 8-aligned and the position less the size still to come is a multiple of 16 |
| InitStack.Writer.WriteAuxVec | kernel/src/thread/init_stack.rs:202-218 | the AT_NULL pair and then every pair, value first, in increasing key order, go into consecutive words downwards |
| InitStack.Writer.WriteEnvpPointers | kernel/src/thread/init_stack.rs:220-229 | a null word, then the environment pointers last-first |
| InitStack.Writer.WriteArgvPointers | kernel/src/thread/init_stack.rs:231-240 | a null word, then the argument pointers last-first |
| InitStack.Writer.WriteVectors | kernel/src/thread/init_stack.rs:151-157 | the auxiliary vector, both pointer arrays and the count fill consecutive words downwards |
| InitStack.Writer.WriteTail | kernel/src/thread/init_stack.rs:151-160 | after the padding and the vectors the stack pointer is 16-byte aligned and the image lies upwards from it |
| InitStack.Writer.Write | kernel/src/thread/init_stack.rs:133-162 | on success the stack pointer is 16-byte aligned inside the mapping, every argument and environment pointer leads to its NUL-terminated string, AT_RANDOM names sixteen stored bytes and is the only table change, and the words from the stack pointer up are the image |
| UserMem.CheckVaddr | kernel/src/vm.rs:145-154 | an address is refused exactly when it lies below the lowest user address, and the refusal is EFAULT |
| UserMem.CheckAccess | kernel/src/vm.rs:93-96 | an access is refused exactly when it has a positive size and starts below the lowest user address; a zero-sized access is never checked |
| UserMem.HasZero | kernel/src/vm.rs:209-215 | the wrapping-subtract trick holds exactly when one of the eight bytes of the word is zero |
| UserMem.WordHasZero | kernel/src/vm.rs:183-184 | a word built from eight memory bytes has a zero byte exactly when one of those bytes is zero, so the word branch finds the NUL in the bytes it takes apart |
| UserMem.IsAddrAligned | kernel/src/vm.rs:217-220 | masking the low bits is zero exactly when the address is a multiple of the word size |
| UserMem.FirstZeroAfter | kernel/src/vm.rs:174-198 | a prefix free of NULs ends at or before the first NUL |
| UserMem.CStringShape | kernel/src/vm.rs:156-203 | a string read ends with its only NUL, is a prefix of memory within the limit, and the read fails exactly when no readable byte within the limit is NUL |
| UserMem.WordWithZero | kernel/src/vm.rs:183-192 | taking apart a word that holds a NUL ends the string inside that word with the bytes of memory up to the NUL |
| UserMem.ReadByte | kernel/src/vm.rs:160-171 | one byte read either faults with EFAULT, ends the string at a NUL, or extends the prefix read so far by one byte |
| UserMem.ReadWords | kernel/src/vm.rs:179-195 | the word loop either finishes the read as the reference does or leaves a readable prefix before the first NUL; a faulting word read falls back to the byte loop |
| UserMem.ReadCString | kernel/src/vm.rs:156-203 | the byte, word and byte loops return exactly the bytes up to and including the first NUL, or EFAULT when the limit is reached or a byte read faults first |
| UserMem.ReadCStringAt | kernel/src/vm.rs:120-131 | a non-empty read from below the lowest user address fails with EFAULT; otherwise the result is the C string the reader yields |
| Mm.NrSubpagePerHuge | ostd/src/mm/mod.rs:93-95 | the fan-out of a page-table page times the entry size is exactly the base page size |
| Mm.SubpageBits | ostd/src/mm/mod.rs:93-95 | with 4 KiB pages and 8-byte entries the fan-out is 512, nine address bits per level |
| Mm.PageSizeStep | ostd/src/mm/mod.rs:88-90 | the page of level l+1 is the page of level l times the fan-out, in 64-bit arithmetic |
| Mm.PageSizeNoWrap | ostd/src/mm/mod.rs:77-90 | below a 64-bit shift the page size of a level is the base page times two to nine times the levels above the first |
| Mm.PageSizeValues | ostd/src/mm/mod.rs:77-90 | level 1 is the base page and `PAGE_SIZE`; levels 2, 3 and 4 are 2 MiB, 1 GiB and 512 GiB |
| Mm.BasePerPage | ostd/src/mm/mod.rs:99-101 | a page of a level whose size fits in 64 bits is exactly `nr_base_per_page` base pages, a power of 512 |
| Mm.IsPageAligned | ostd/src/mm/mod.rs:127-129 | masking the bits below the page size is zero exactly when the address is a multiple of the page size |
| UserHeap.MappedEnd | kernel/src/vm/heap.rs:82-83 | the page-aligned heap end is a page boundary at or above the heap end and less than a page above it |
| UserHeap.Heap.constructor | kernel/src/vm/heap.rs:28-34 | a new heap spans the user heap area and ends at its base |
| UserHeap.Heap.NewIsValid | kernel/src/vm/heap.rs:28-34 | a new heap with nothing mapped is consistent: its end is at the base and the mapping is empty |
| UserHeap.Heap.SetUninitialized | kernel/src/vm/heap.rs:106-109 | the heap end becomes the base plus one page |
| UserHeap.Heap.AllocAndMapVm | kernel/src/vm/heap.rs:37-65 | one read-write page is mapped at the base and the rest of the area reserved, after which the heap end is one page up and the heap consistent; a failing mapping returns its error |
| UserHeap.Heap.Brk | kernel/src/vm/heap.rs:67-104 | no argument returns the current end; a request past base plus limit is ENOMEM; a request at or below the end returns the end unchanged; growth sets the end to exactly the request and moves the mapping only when the page-aligned end grows; a failing VMAR call returns its error with the end unchanged; success keeps the heap consistent and the end never decreases |
| UserHeap.Heap.Clone | kernel/src/vm/heap.rs:112-121 | the copy has the same area and the same end |
| UserHeap.BoundariesApart | kernel/src/vm/heap.rs:82-87 | two different page boundaries are at least a page apart |
| UserHeap.GrowthPages | kernel/src/vm/heap.rs:82-96 | growing the heap moves its page boundary up by whole pages, and into a new page exactly when the request passes the old boundary |
| MMap.TypeBits | kernel/src/vm/mmap.rs:25-32 | the four mapping types are the values 0 to 3 |
| MMap.TypeOf | kernel/src/vm/mmap.rs:51-57 | a four-bit value names a type exactly when it is at most 3, and then the type's value is that value |
| MMap.DecodeOptsSpec | kernel/src/vm/mmap.rs:48-63 | decoding fails with EINVAL exactly when the type bits exceed 3 or a bit outside the type is no known flag; a decoded value holds only known flags and encodes back to the raw word |
| MMap.DecodeEncode | kernel/src/vm/mmap.rs:48-63 | every type with known flags decodes back from its encoding, so decoding and encoding are inverse |
| MMap.RoundLen | kernel/src/vm/mmap.rs:74 | the rounded length is a multiple of the page size, and when no overflow occurs it is the least page multiple at or above the length |
| MMap.RoundLenWraps | kernel/src/vm/mmap.rs:71-74 | the largest length rounds to zero in 64-bit arithmetic |
| MMap.DoMmap | kernel/src/vm/mmap.rs:65-163 | a zero length is EINVAL and a length rounding past the address space ENOMEM; an accepted request has the length rounded to pages, the truncated permissions, a page-aligned offset, a fixed address only for MAP_FIXED or MAP_FIXED_NOREPLACE (overwriting only without the latter, and only at a user address), sharing exactly for the shared type, offset 0 for anonymous mappings, and for file mappings a readable file when reading and a writable one when writing shared; every refusal of decodable flags is one of those checks failing |
| MMap.MapDecoded | kernel/src/vm/mmap.rs:78-100 | after decoding: a fixed placement needs a user address, the offset must be page aligned, and the request carries the length, the permissions, the placement with overwriting unless MAP_FIXED_NOREPLACE, and the result of the anonymous or file path; each refusal is one of those checks failing |
| MMap.AnonymousMapping | kernel/src/vm/mmap.rs:104-121 | a nonzero offset is EINVAL; otherwise the request comes back, marked shared for the shared type |
| MMap.FileMapping | kernel/src/vm/mmap.rs:124-163 | a failed lookup is returned as it is; the request is accepted exactly when the file is there, readable if mapped for reading, writable if mapped shared for writing, and read into its VMO without error; a permission refusal is EACCES, a failed read or VMO write EIO; an accepted request is backed by the file from the offset and shared for the shared type |
| MUnmap.UnmapRangeAsWritten | kernel/src/vm/munmap.rs:17-23 | refused exactly for an unaligned address, a zero length or one above `isize::MAX`; the end is computed in 64-bit arithmetic |
| MUnmap.UnmapRangeWraps | kernel/src/vm/munmap.rs:20-23 | a two-page range at the last page of the address space ends below its start |
| MUnmap.UnmapRange | kernel/src/vm/munmap.rs:17-23 | EINVAL exactly for an unaligned address, a zero length, one above `isize::MAX` or an end past the address space |
| MUnmap.UnmapRangeCovers | kernel/src/vm/munmap.rs:20-23 | an accepted range starts at the address, is page aligned at both ends, covers the requested bytes and less than a page more, and is what the code as written removes |
| MUnmap.DoMunmap | kernel/src/vm/munmap.rs:9-25 | succeeds with 0 exactly when the arguments pass and the removal succeeds; bad arguments are EINVAL |
| SyscallFs.LeRoundTrip | kernel/src/syscall/fs.rs:177-179 | a number below 256^n written as `n` little-endian bytes (`to_le_bytes`) reads back as itself |
| SyscallFs.Record | kernel/src/syscall/fs.rs:161-165 | one `linux_dirent64` record is exactly `d_reclen` = 8 + 8 + 2 + 1 + name + 1 bytes long |
| SyscallFs.RecordFields | kernel/src/syscall/fs.rs:177-182 | the record holds the inode at bytes 0..8, the record length at 16..18, the type at 18, the name from 19 and a NUL as its last byte |
| SyscallFs.RecordRoundTrip | kernel/src/syscall/fs.rs:177-182 | a record whose inode fits 64 bits and whose length fits 16 bits is read back as the entry it encodes, whatever follows it |
| SyscallFs.DecodeEncoded | kernel/src/syscall/fs.rs:159-183 | the records written for a sequence of entries are read back as those entries, in order |
| SyscallFs.EncodedLength | kernel/src/syscall/fs.rs:159-184 | the bytes written are the sum of the entries' record lengths |
| SyscallFs.FitWithin | kernel/src/syscall/fs.rs:166-168 | the records of the leading entries that fit take at most `len` bytes |
| SyscallFs.WriteField | kernel/src/syscall/fs.rs:170-176 | one write succeeds exactly when it stays within the writable bytes, and appends its data; a failing write changes nothing |
| SyscallFs.WriteEntry | kernel/src/syscall/fs.rs:158-183 | one iteration for an entry that fits: its record is written after the earlier ones and the entries that still fit are counted from there, or a fault leaves a prefix of the records that fit, which then do not fit the writable bytes |
| SyscallFs.WriteRecord | kernel/src/syscall/fs.rs:177-182 | the six fields are written in order; the record is written whole exactly when it fits the writable bytes, otherwise a prefix of it stays written |
| SyscallFs.Getdents64 | kernel/src/syscall/fs.rs:146-185 | the result is the byte count of the records of the leading entries that fit in `len` (stopping at the first that does not), those records written; a fault gives EFAULT with a prefix of them written |
| SyscallFs.Getcwd | kernel/src/syscall/fs.rs:383-419 | with a buffer: ERANGE when it cannot hold the path and its NUL, else path + NUL at the buffer, whose address is returned; without: a mapping of the needed size rounded up to pages, path + NUL written at its address |
| SyscallFs.Dup3ArgsAsWritten | kernel/src/syscall/fs.rs:467-474 | EINVAL exactly when the two 64-bit arguments are equal; otherwise both are cut to 32 bits and close-on-exec is taken from bit 0x80000 |
| SyscallFs.Dup3Args | kernel/src/syscall/fs.rs:467-474 | EINVAL exactly when the descriptors the table sees are equal; close-on-exec exactly when `O_CLOEXEC` is set; agrees with the code as written whenever it accepts |
| SyscallFs.Dup3Syscall | kernel/src/syscall/fs.rs:463-477 | EINVAL for the same descriptor with the table unchanged; otherwise EBADF for a closed `oldfd` or a `newfd` past the capacity, else the entry copied onto `newfd` (close-on-exec added when asked) and `newfd` returned |
| SyscallFs.DupSyscall | kernel/src/syscall/fs.rs:453-460 | corrected (see Findings on `dup`): EBADF for a closed descriptor; otherwise a new descriptor, not the old one, holding a copy of its entry, and no other descriptor closed |
| Uts.Fill | kernel/src/syscall/uts.rs:31-36 | the buffer is what `Filled` describes: the first at most 64 source bytes, then zeros to 65 bytes |
| Uts.FilledShape | kernel/src/syscall/uts.rs:31-36 | a filled field is 65 bytes, its last byte is always NUL, and every byte past the copied prefix is zero |
| Uts.FilledReadsBack | kernel/src/syscall/uts.rs:31-36 | a C reader of a filled field gets the source back, cut to 64 bytes, when the source has no NUL |
| Uts.SysnameIsNexusOS | kernel/src/syscall/uts.rs:24 | the system name is the bytes of "NexusOS" |
| Uts.Current | kernel/src/syscall/uts.rs:22-48 | each of the six fields is its constant filled to 65 bytes |
| Uts.CurrentFields | kernel/src/syscall/uts.rs:9-29 | the structure is six 65-byte fields; sysname reads "NexusOS", machine "riscv32", domainname empty |
| Uts.DoUname | kernel/src/syscall/uts.rs:50-65 | a null buffer is EFAULT with nothing written; otherwise the structure's bytes are written and 0 returned, or the write's error |
| Time.CpuTimes.constructor | kernel/src/time.rs:27-33 | the default counters are all zero |
| Time.CpuTimes.AccountUser | kernel/src/time.rs:37-39 | the ticks are added to the user time, wrapping at 2^64, and the other three counters are unchanged |
| Time.CpuTimes.AccountSys | kernel/src/time.rs:41-43 | the ticks are added to the system time, wrapping at 2^64, and the other three counters are unchanged |
| Time.CpuTimes.Clone | kernel/src/time.rs:46-55 | a new object holding all four counters' values |
| Time.AccountTwice | kernel/src/time.rs:37-43 | accounting `a` then `b` ticks is accounting `a + b` ticks modulo 2^64 |
| Time.ToTimespec | kernel/src/time.rs:64-70 | `sec` is the whole seconds (when they fit in `i64`) and `usec` the microseconds of the fraction, below one million, the sub-microsecond nanoseconds dropped |
| Time.FromTimespec | kernel/src/time.rs:72-76 | the duration is `sec` seconds plus `usec` microseconds (each cast to `u64`), with nanoseconds below a second; the addition's overflow panic happens exactly when the seconds pass 2^64 |
| Time.DurationRoundTrip | kernel/src/time.rs:64-76 | Duration to Timespec and back truncates to whole microseconds and keeps the seconds |
| Time.TimespecRoundTrip | kernel/src/time.rs:64-76 | a Timespec with non-negative seconds and fewer than a million microseconds survives the trip through Duration |
| Ext4Block.Block.Default | kernel/comps/another_ext4/src/ext4_defs/block.rs:38-45 | a default block is block 0 with every byte zero |
| Ext4Block.Block.New | kernel/comps/another_ext4/src/ext4_defs/block.rs:49-51 | a new block holds the given id and bytes |
| Ext4Block.Block.ReadOffset | kernel/comps/another_ext4/src/ext4_defs/block.rs:54-56 | the result is `size` bytes, byte `i` being the block's byte `offset + i` |
| Ext4Block.Block.WriteOffset | kernel/comps/another_ext4/src/ext4_defs/block.rs:67-69 | the block becomes its old bytes with the data over `[offset, offset + len)`, and reading that range back gives the data |
| Ext4Block.Block.WriteOffsetAs | kernel/comps/another_ext4/src/ext4_defs/block.rs:72-77 | exactly the value's byte image is written at the offset |
| Common.OverwriteReadBack | kernel/comps/another_ext4/src/ext4_defs/block.rs:54-69 | `write_offset` then `read_offset` over the same range returns the data written |
| Common.OverwriteFrame | kernel/comps/another_ext4/src/ext4_defs/block.rs:67-69 | bytes outside `[offset, offset + len)` are unchanged by a write |
| Common.OverwriteCommute | kernel/comps/another_ext4/src/ext4_defs/block.rs:67-69 | writes to disjoint ranges give the same block in either order |
| Ext4Rw.InodeDiskPos | kernel/comps/another_ext4/src/ext4/rw.rs:113-126 | the offset is inside the block, and block and offset together address byte `((id - 1) % inodes_per_group) * inode_size` of the inode table of group `(id - 1) / inodes_per_group` |
| Ext4Rw.BlockGroupDiskPos | kernel/comps/another_ext4/src/ext4/rw.rs:129-136 | the descriptor lies in a block after the first data block, whole inside it at a multiple of the descriptor size, and block and slot together give back the group number |
| Ext4Rw.InodeInOneBlock | kernel/comps/another_ext4/src/ext4/rw.rs:122-124 | with an inode size dividing the block size, an inode never crosses a block boundary |
| Ext4Rw.SameGroupInodesApart | kernel/comps/another_ext4/src/ext4/rw.rs:117-124 | two inodes of one group occupy disjoint byte ranges |
| Ext4Rw.DescriptorsApart | kernel/comps/another_ext4/src/ext4/rw.rs:131-134 | two groups' descriptors occupy disjoint byte ranges |
| Ext4Rw.WriteAtReadBack | kernel/comps/another_ext4/src/ext4/rw.rs:68-73 | a read-modify-write of a block returns the image written and leaves every disjoint range as it was |
| Ext4Rw.Ext4.ReadInode | kernel/comps/another_ext4/src/ext4/rw.rs:47-52 | the inode is the `inode_size` bytes at its disk position |
| Ext4Rw.Ext4.WriteInodeWithoutCsum | kernel/comps/another_ext4/src/ext4/rw.rs:68-73 | the disk changes only by the inode's image written at its position |
| Ext4Rw.Ext4.ReadBlockGroup | kernel/comps/another_ext4/src/ext4/rw.rs:77-84 | the descriptor is the `desc_size` bytes at its disk position |
| Ext4Rw.Ext4.WriteBlockGroupWithoutCsum | kernel/comps/another_ext4/src/ext4/rw.rs:95-100 | the disk changes only by the descriptor's image written at its position |
| Ext4Rw.Ext4.WriteSuperBlock | kernel/comps/another_ext4/src/ext4/rw.rs:39-43 | block 0 becomes zeros with the super block's image at byte 1024; no other block changes |
| Ext4Rw.InodeWriteRead | kernel/comps/another_ext4/src/ext4/rw.rs:47-73 | after writing an inode, reading it gives its image, and every other inode of its group reads as before |
| VmIoModel.VmReader.constructor | ostd/src/mm/io.rs:495-507 | a reader over `len` bytes from `start`: cursor at the start, end `len` past it |
| VmIoModel.VmReader.Limit | ostd/src/mm/io.rs:682-689 | cursor unchanged, the end only pulled in, and the remaining length becomes the smaller of the old one and `max_remain` |
| VmIoModel.VmReader.Skip | ostd/src/mm/io.rs:696-702 | skipping at most the remaining bytes moves the cursor by `nbytes` and shrinks what remains by as much; the end stays |
| VmIoModel.VmReader.Read | ostd/src/mm/io.rs:516-531 | the copy length is the smaller of remain and avail; that many source bytes land at the writer's cursor, both cursors advance by it, ends unchanged |
| VmIoModel.VmReader.ReadFallible | ostd/src/mm/io.rs:434-462 | nothing to copy gives `Ok(0)`; otherwise the bytes that could be reached are copied and both cursors advance by them, `PageFault` with the count when short, `Ok` of the count when complete |
| VmIoModel.VmReader.ReadVal | ostd/src/mm/io.rs:540-550 | InvalidArgs with the cursor kept when fewer than `size` bytes remain; otherwise exactly the next `size` bytes, the cursor past them |
| VmIoModel.VmReader.ReadValFallible | ostd/src/mm/io.rs:621-638 | InvalidArgs when too few bytes remain, PageFault when the copy stops short, and the cursor back where it was on either error; the read succeeds whenever enough bytes remain and all of them are reachable, and then gives the next `size` bytes |
| VmIoModel.VmReader.Collect | ostd/src/mm/io.rs:647-659 | every remaining byte with the cursor at the end, or PageFault with the cursor unchanged; a copy that reaches every byte never fails |
| VmIoModel.VmWriter.Limit | ostd/src/mm/io.rs:939-945 | cursor unchanged, end only pulled in, available length the smaller of the old one and `max_avail` |
| VmIoModel.VmWriter.Skip | ostd/src/mm/io.rs:953-959 | skipping at most the available bytes moves the cursor by `nbytes`; the end stays |
| VmIoModel.VmWriter.WriteVal | ostd/src/mm/io.rs:773-781 | InvalidArgs with memory and cursor untouched when the value does not fit; otherwise its bytes overwrite the memory at the cursor, nothing else changes, and the cursor passes them |
| VmIoModel.VmWriter.WriteValFallible | ostd/src/mm/io.rs:873-888 | InvalidArgs with memory untouched when the value does not fit, PageFault when the copy stops short, the cursor restored on any error; the write succeeds whenever the value fits and all of it is reachable, and then puts the value's bytes at the old cursor |
| VmIoModel.VmWriter.Fill | ostd/src/mm/io.rs:815-835 | the available space becomes `n` copies of the value with `n * size == avail`, bytes outside it unchanged, the cursor at the end |
| VmIoModel.VmWriter.FillZeros | ostd/src/mm/io.rs:898-916 | the smaller of avail and `len` is the target; the bytes that could be reached become zero and the cursor passes them; PageFault with the count when short, `Ok(target)` otherwise |
| VmIoModel.RepeatReadBack | ostd/src/mm/io.rs:815-835 | the `k`-th value of a filled range reads back as the value |
| VmIoModel.Placement | ostd/src/mm/io.rs:229-238 | with `align` 0 or 1 the values start at `offset` and are packed; otherwise the start and stride are the offset and size rounded up to multiples of `align`, never smaller |
| VmIoModel.SlotSpacing | ostd/src/mm/io.rs:240-245 | the `k`-th value goes `k` strides past the start, and later values lie at least a stride past earlier ones |
| VmIoModel.WriteVals | ostd/src/mm/io.rs:221-254 | values are written slot after slot until one does not fit; an error (InvalidArgs, memory unchanged) exactly when not even the first fits, otherwise the count written, every written slot fitting and the next one not, and the memory holding exactly those writes |
| VmIoModel.PutAllReadBack | ostd/src/mm/io.rs:240-245 | when values do not overlap, each written value reads back from its own slot |
| LoongArchPte.PaddrCases | ostd/src/arch/loongarch/mm/mod.rs:167-169 | the address of an entry is its bits under the physical-address mask, less the GLOBAL_HUGE bit on a huge entry (see Findings) |
| LoongArchPte.AbsentIsNone | ostd/src/arch/loongarch/mm/mod.rs:139-144 | the all-zero entry is absent and has address 0 |
| LoongArchPte.NewPtShape | ostd/src/arch/loongarch/mm/mod.rs:131-165 | an entry for a child table holds the table's masked address, is present exactly when that address is non-zero, and is not last above level 1 |
| LoongArchPte.NewPageBaseAddress | ostd/src/arch/loongarch/mm/mod.rs:146-158 | before its property is set, a page entry holds the page's masked address |
| LoongArchPte.NewPageBaseValid | ostd/src/arch/loongarch/mm/mod.rs:156-158 | before its property is set, a page entry has the VALID bit and so has flag bits |
| LoongArchPte.NewPageBaseHuge | ostd/src/arch/loongarch/mm/mod.rs:152-154 | the base entry of a page carries the huge marker exactly above level 1 |
| LoongArchPte.NewPageBaseGlobalClear | ostd/src/arch/loongarch/mm/mod.rs:146-158 | a huge base entry keeps GLOBAL_HUGE clear when the page's address does |
| LoongArchPte.NewPageAddress | ostd/src/arch/loongarch/mm/mod.rs:146-161 | a page entry holds the page's masked address |
| LoongArchPte.NewPageLast | ostd/src/arch/loongarch/mm/mod.rs:152-259 | a page entry is last at its level, and carries the huge marker exactly above level 1 |
| LoongArchPte.NewPagePresent | ostd/src/arch/loongarch/mm/mod.rs:139-161 | a page entry is present exactly when the page's masked address is non-zero |
| LoongArchPte.SetPropKeeps | ostd/src/arch/loongarch/mm/mod.rs:210-255 | `set_prop` leaves an absent entry as it is; on a present one it keeps the address and the huge marker |
| LoongArchPte.SetPropPresent | ostd/src/arch/loongarch/mm/mod.rs:210-255 | on a present entry `set_prop` gives the kept address and huge marker joined with the computed flag bits |
| LoongArchPte.PaddrKept | ostd/src/arch/loongarch/mm/mod.rs:254 | joining flag bits that miss the address (but for GLOBAL_HUGE on a huge entry) to the kept part of an entry keeps its address |
| LoongArchPte.ValidKept | ostd/src/arch/loongarch/mm/mod.rs:254 | the VALID bit of the flag bits survives the join |
| LoongArchPte.PropBitsFlags | ostd/src/arch/loongarch/mm/mod.rs:216-223 | on an entry with flag bits, `set_prop` writes VALID and DIRTY, NO_READ exactly without R, WRITABLE exactly with W, NO_EXECUTE exactly without X, RSV1/RSV2 exactly with AVAIL1/AVAIL2 |
| LoongArchPte.PropBitsPriv | ostd/src/arch/loongarch/mm/mod.rs:224-247 | on an entry with flag bits, `set_prop` writes both PLV bits exactly for USER, and GLOBAL into GLOBAL_HUGE on a huge entry and into GLOBAL_COMMON otherwise |
| LoongArchPte.PropFlagsBits | ostd/src/arch/loongarch/mm/mod.rs:171-178 | `prop` reads R, W, X, DIRTY, AVAIL1 and AVAIL2 each from its own bit and always adds ACCESSED |
| LoongArchPte.SetPropFlagsReadBack | ostd/src/arch/loongarch/mm/mod.rs:171-255 | after `set_prop` on a present entry with flag bits, `prop` reads back the given R, W, X, AVAIL1, AVAIL2 plus ACCESSED and DIRTY |
| LoongArchPte.SetPropPrivReadBack | ostd/src/arch/loongarch/mm/mod.rs:180-255 | after the corrected `set_prop` on such an entry, `prop` reads back the given USER and GLOBAL, whatever GLOBAL the entry had before (see Findings) |
| LoongArchPte.PropRoundTrip | ostd/src/arch/loongarch/mm/mod.rs:146-208 | the property of a page entry with a non-zero address reads back as the property it was made with (ACCESSED and DIRTY added) |
| LoongArchPte.SetPropIdempotent | ostd/src/arch/loongarch/mm/mod.rs:210-255 | setting the same property twice on a present entry with VALID is the same as setting it once |
| LoongArchPte.SetPropTwice | ostd/src/arch/loongarch/mm/mod.rs:146-255 | setting a page entry's own property again leaves it as it is |
| LoongArchPte.SetPropStaysValid | ostd/src/arch/loongarch/mm/mod.rs:210-255 | a present entry with flag bits stays present, with VALID, after `set_prop` |
| LoongArchPte.SetPropNoFlags | ostd/src/arch/loongarch/mm/mod.rs:210-254 | an entry without flag bits (a child-table entry) gets none from `set_prop` |
| LoongArchPte.SetPropAsWrittenKeepsGlobal | ostd/src/arch/loongarch/mm/mod.rs:254 | a global huge page at 2 MiB still reads GLOBAL after the source's `set_prop` with no privileges; the corrected one clears it |
| LoongArchPte.HugeGlobalPaddrAsWritten | ostd/src/arch/loongarch/mm/mod.rs:130-169 | a global huge page built at 2 MiB reads back, under the source's mask, at 2 MiB + 4 KiB; the corrected address is 2 MiB |
| LoongArchPte.Entry.SetPropInPlace | ostd/src/arch/loongarch/mm/mod.rs:210-255 | the entry's word becomes the property written into the old word; absent entries are untouched, present ones keep address and huge marker |
| PtChild.GetEntryEncodes | ostd/src/mm/page_table/node/child.rs:50-78 | the entry `get_entry` gives a child the node accepts (`is_compatible`) stands for that child: absent for `None`, a node entry with the table's address for a table, and a last entry with the page's address whose property reads back as the child's for a frame or an untracked page |
| PtChild.EncodesKind | ostd/src/mm/page_table/node/child.rs:43-45 | an entry standing for a child is absent exactly when the child is `None`, and present and not last exactly when the child is a table |
| PtChild.SetPropEncodes | ostd/src/mm/page_table/node/entry.rs:78-84 | setting a property on a present entry keeps it standing for its child with that property: a table entry stays a table entry with the same address, and a leaf keeps its address and reads back the new property |
| PtChild.ProtectLeavesStaleChildAsWritten | ostd/src/mm/page_table/node/entry.rs:78-84 | after `protect` as written, a frame mapped read-only and made read-write has an entry that no longer stands for the child kept in the node, whose property is still read-only (see Findings) |
| PtEntry.OccupiedUpdate | ostd/src/mm/page_table/node/entry.rs:116-120 | replacing one child changes the count of occupied slots by one exactly when the slot goes between `None` and something, which is how `replace` moves `nr_children` |
| PtEntry.Node.AllocEmpty | ostd/src/mm/page_table/node.rs:162-177 | a new node has all entries absent, all children `None`, no children counted, and the level and tracking status asked for |
| PtEntry.Entry.NewAt | ostd/src/mm/page_table/node/entry.rs:176-183 | the entry view of slot `idx` holds the word the node has there |
| PtEntry.Entry.IsNone | ostd/src/mm/page_table/node/entry.rs:39-41 | the entry is absent exactly when the node's child in that slot is `None` |
| PtEntry.Entry.IsNode | ostd/src/mm/page_table/node/entry.rs:44-46 | the entry is present and not last exactly when the node's child in that slot is a table |
| PtEntry.Entry.ToOwned | ostd/src/mm/page_table/node/entry.rs:49-61 | the child handed out is one the entry stands for and one the node accepts |
| PtEntry.Entry.Protect | ostd/src/mm/page_table/node/entry.rs:66-85 | an absent entry or a property `op` leaves alone change nothing; otherwise the entry gets the new property, the node's page gets the new entry in that slot only, the child gets the new property, and the node stays well formed |
| PtEntry.Entry.Replace | ostd/src/mm/page_table/node/entry.rs:93-123 | a compatible child goes in the slot and its entry in the page, nothing else changes, the old child is returned, `nr_children` goes up or down by one when the slot goes between `None` and something, and the node stays well formed |
| PageTables.CoveredByBothIsEmpty | ostd/src/mm/page_table.rs:41-57 | the user range `[0, MAX_USERSPACE_VADDR)` and the kernel range are apart: a range both modes cover holds no address |
| PageTables.PteIndex | ostd/src/mm/page_table.rs:64-82 | the index of an address at a level names one of the node's 512 entries |
| PageTables.PteIndexNext | ostd/src/mm/page_table.rs:79-82 | the next page of a level is in the next entry of the node, wrapping round after entry 511 |
| PageTables.PteIndexLevels | ostd/src/mm/page_table.rs:64-82 | the indices of consecutive levels are consecutive 9-bit fields of the address shifted past the page offset |
| PageTables.PageTable.Clear | ostd/src/mm/page_table.rs:114-128 | afterwards the first 256 children of a user root are `None`, the upper 256 children and their entries are as they were, and the root counts only the upper-half children |
| PageTables.PageTable.CreateUserPageTable | ostd/src/mm/page_table.rs:133-153 | a fresh top-level root without tracking status whose first 256 children are `None` and whose upper 256 children are the kernel root's |
| FrameAllocator.CountingFrameAllocator.Alloc | ostd/src/mm/frame/allocator.rs:112-120 | passes on the buddy allocator's answer; a success adds count·PAGE_SIZE to the allocated bytes, a refusal changes nothing |
| FrameAllocator.CountingFrameAllocator.Dealloc | ostd/src/mm/frame/allocator.rs:123-126 | subtracts count·PAGE_SIZE from the allocated bytes, which must cover it |
| FrameAllocator.CountingFrameAllocator.MemAvailable | ostd/src/mm/frame/allocator.rs:132-134 | what is available plus what is allocated is the total |
| FrameAllocator.RegionFramesExact | ostd/src/mm/frame/allocator.rs:145-154 | a page is in the range taken from a region exactly when it lies wholly inside the region: rounding inward keeps every whole page and no partial one |
| FrameAllocator.UsableRangesFromUsable | ostd/src/mm/frame/allocator.rs:142-156 | every range added is non-empty and is the rounded range of some usable region |
| FrameAllocator.Init | ostd/src/mm/frame/allocator.rs:139-164 | the call panics exactly when some usable region ends past 2^64; otherwise the ranges added are those of the usable regions with a whole page, in order, the total is the bytes in them, and nothing is allocated yet |
| FrameAllocator.AddRegion | ostd/src/mm/frame/allocator.rs:144-160 | one region: a usable one whose end passes 2^64 is the panic; otherwise its whole-page range, if non-empty, is appended and the total stays the bytes of the list |
| FrameMeta.MetaToFrameToMeta | ostd/src/mm/frame/meta.rs:26-37 | meta_to_frame(frame_to_meta(p)) rounds p down to its page, so it is p itself for a page-aligned p |
| FrameMeta.FrameToMetaToFrame | ostd/src/mm/frame/meta.rs:26-37 | frame_to_meta(meta_to_frame(v)) is v for every slot address v |
| FrameMeta.FrameToMetaInjective | ostd/src/mm/frame/meta.rs:26-30 | distinct pages have distinct metadata slots |
| FrameMeta.NrMetaPagesFits | ostd/src/mm/frame/meta.rs:170-174 | the metadata pages are the slot bytes rounded up to a page: they hold every slot and one page fewer would not |
| FrameMeta.MetaSlots.constructor | ostd/src/mm/frame/meta.rs:185-196 | every slot starts at REF_COUNT_UNUSED (the 0xff byte fill), one slot per frame |
| FrameMeta.MetaSlots.IncRefCount | ostd/src/mm/frame/meta.rs:87-96 | the count goes up by one and nothing else changes; it panics exactly when the old count had reached REF_COUNT_MAX |
| FrameMeta.MetaSlots.DropLastInPlace | ostd/src/mm/frame/meta.rs:104-124 | a slot whose count is zero becomes REF_COUNT_UNUSED and its page is handed back to the allocator |
| Frames.FrameGeometry | ostd/src/mm/frame.rs:120-127 | a frame is a base page: level 1, size PAGE_SIZE |
| Frames.FromRawIntoRaw | ostd/src/mm/frame.rs:152-175 | into_raw then from_raw gives back the same handle |
| Frames.IntoRawFromRaw | ostd/src/mm/frame.rs:152-175 | from_raw then into_raw gives back the page-aligned address |
| Frames.SlotOfPage | ostd/src/mm/frame.rs:86-100 | the slot of a page below MAX_PADDR is in the table, at the page's frame number |
| Frames.FromUnused | ostd/src/mm/frame.rs:86-108 | panics when misaligned, then when not below MAX_PADDR, then when in use; otherwise the count goes from UNUSED to 1, nothing else changes, and the handle points at the page's slot |
| Frames.Clone | ostd/src/mm/frame.rs:184-194 | the count goes up by one; the clone is the same handle, or a panic once the count had reached REF_COUNT_MAX |
| Frames.Drop | ostd/src/mm/frame.rs:196-213 | the count goes down by one; the last drop marks the page unused and gives PAGE_SIZE back to the allocator |
| Frames.IncFrameRefCount | ostd/src/mm/frame.rs:222-233 | one more reference to the page at paddr; it reports the overflow exactly when the old count had reached REF_COUNT_MAX |
| Segments.Segment.Size | ostd/src/mm/frame/segment.rs:81-83 | start plus size is end |
| Segments.Segment.Split | ostd/src/mm/frame/segment.rs:92-109 | panics unless the offset is page aligned and strictly inside; otherwise two non-empty aligned segments [start, start+o) and [start+o, end) |
| Segments.Segment.FromFrame | ostd/src/mm/frame/segment.rs:138-147 | the one-page segment starting at the frame's address |
| Segments.Segment.Next | ostd/src/mm/frame/segment.rs:152-163 | yields the handle of the first page and moves start one page on while start < end; nothing once empty; the end stays |
| Segments.Segment.Slice | ostd/src/mm/frame/segment.rs:119-135 | panics on an unaligned, reversed or out-of-bounds range; otherwise each page of [start+r.start, start+r.end) gains one reference, panicking exactly when a count had reached REF_COUNT_MAX |
| Segments.Segment.Clone | ostd/src/mm/frame/segment.rs:38-50 | the same range, each of its pages with one more reference; panics exactly when a count had reached REF_COUNT_MAX |
| Segments.Segment.Drop | ostd/src/mm/frame/segment.rs:29-36 | each page loses one reference; the pages whose last reference it was become unused and their bytes go back to the allocator |
| Segments.DropPages | ostd/src/mm/frame/segment.rs:31-34 | every page of the range loses one reference; those left with none become unused and their bytes go back to the allocator |
| Segments.FromUnused | ostd/src/mm/frame/segment.rs:60-68 | succeeds exactly when the range is empty or reversed (`step_by` then visits nothing) or its start is aligned and every page from the start up to the end rounded up to a page is below MAX_PADDR and unused; then each of those pages has count 1, the segment keeps the range as given, and with an aligned end it holds its pages |
| Segments.PageCeil | ostd/src/mm/frame/segment.rs:61 | the pages `step_by(PAGE_SIZE)` visits end at the first page boundary at or past `end` |
| Segments.IncPages | ostd/src/mm/frame/segment.rs:40-129 | adds one reference to each page in turn; succeeds exactly when no count had reached REF_COUNT_MAX |
| Segments.LastRefsMono | ostd/src/mm/frame/segment.rs:29-36 | a longer range holds at least as many last references |
| DmaStreams.DmaMappings.CheckAndInsert | ostd/src/mm/dma/dma_stream.rs:67-69 | the pages are claimed exactly when none was claimed; otherwise the claimed set is unchanged |
| DmaStreams.Map | ostd/src/mm/dma/dma_stream.rs:60-107 | AlreadyMapped exactly when a page of the segment is already claimed, with nothing changed; otherwise the pages are claimed and the stream addresses the segment at its physical start |
| DmaStreams.MapTwiceFails | ostd/src/mm/dma/dma_stream.rs:57-69 | a non-empty segment that is mapped cannot be mapped again |
| DmaStreams.Unmap | ostd/src/mm/dma/dma_stream.rs:195-223 | dropping the stream unclaims exactly the segment's pages |
| DmaStreams.MapUnmapRestores | ostd/src/mm/dma/dma_stream.rs:60-223 | mapping free pages and dropping the mapping leaves the claimed set as it was |
| DmaStreams.DmaStream.Nframes | ostd/src/mm/dma/dma_stream.rs:119-127 | the frames times PAGE_SIZE are the bytes |
| DmaStreams.LineStartsCover | ostd/src/mm/dma/dma_stream.rs:172-179 | every flushed line starts inside the range and every byte of the range lies in a flushed line |
| DmaStreams.Sync | ostd/src/mm/dma/dma_stream.rs:138-186 | InvalidArgs when the range ends past the stream; Ok without work when coherent; otherwise Ok after flushing each 64-byte line of the range in order |
| DmaStreams.DirectionAccess | ostd/src/mm/dma/dma_stream.rs:226-242 | a read is denied exactly on ToDevice and a write exactly on FromDevice, with AccessDenied; no stream denies both |
| DmaStreams.Reader | ostd/src/mm/dma/dma_stream.rs:245-251 | AccessDenied exactly on ToDevice; otherwise a fresh reader over the whole segment |
| DmaStreams.Writer | ostd/src/mm/dma/dma_stream.rs:253-259 | AccessDenied exactly on FromDevice; otherwise a fresh writer over the whole segment |
| DmaStreams.NewSlice | ostd/src/mm/dma/dma_stream.rs:291-300 | a slice exists exactly when its offset is inside the stream and its end does not pass it; the offset is checked first |
| DmaStreams.SliceSync | ostd/src/mm/dma/dma_stream.rs:318-322 | a slice's sync never fails and flushes exactly the slice's lines |
| DmaStreams.SliceReader | ostd/src/mm/dma/dma_stream.rs:325-333 | AccessDenied exactly on ToDevice; otherwise a reader of exactly the slice's bytes |
| DmaStreams.SliceWriter | ostd/src/mm/dma/dma_stream.rs:336-344 | AccessDenied exactly on FromDevice; otherwise a writer of exactly the slice's bytes |
| DmaStreams.SliceRead | ostd/src/mm/dma/dma_stream.rs:348-353 | InvalidArgs when the writer's room plus the offset passes the slice; otherwise the stream's read, which then stays inside the stream |
| DmaStreams.SliceWrite | ostd/src/mm/dma/dma_stream.rs:355-360 | InvalidArgs when the reader's bytes plus the offset pass the slice; otherwise the stream's write, which then stays inside the stream |
| DmaStreams.SliceDaddr | ostd/src/mm/dma/dma_stream.rs:363-367 | the slice's device address and its whole length lie inside the stream's device range |
| DmaStreams.SlicePaddr | ostd/src/mm/dma/dma_stream.rs:369-373 | the slice's physical address and its whole length lie inside the segment |
| BarAlloc.RangeTypeFrom | ostd/src/bus/pci/bar_alloc.rs:31-41 | cells 2 and 3 are the 32- and 64-bit memory types and 1 is I/O, each exactly; everything else is configuration space |
| BarAlloc.NewWindow | ostd/src/bus/pci/bar_alloc.rs:53-61 | a new window has the given base, size, prefetchability and width, nothing allocated, and (when it does not wrap) all of its size remaining |
| BarAlloc.BarWindow.Remaining | ostd/src/bus/pci/bar_alloc.rs:64-66 | what remains plus the allocation point is the end of the window |
| BarAlloc.AlignUpLeast | ostd/src/bus/pci/bar_alloc.rs:197-199 | for a power-of-two alignment and a value of at least 1, `align_up` is the least multiple at or above the value, as long as that fits in 64 bits |
| BarAlloc.AlignUpWraps | ostd/src/bus/pci/bar_alloc.rs:197-199 | when the least multiple is 2^64, or the value is 0, `align_up` wraps to 0 |
| BarAlloc.AlignUpZeroAlignment | ostd/src/bus/pci/bar_alloc.rs:197-199 | an alignment of 0 makes `align_up` return 0 for every value |
| BarAlloc.NextPowerOfTwoValue | ostd/src/bus/pci/bar_alloc.rs:201-213 | for 1 <= x <= 2^63 the result is the power of two 2^t with 2^(t-1) < x <= 2^t |
| BarAlloc.NextPowerOfTwoLeast | ostd/src/bus/pci/bar_alloc.rs:201-213 | the result is at most every power of two that is at least x (and 1 for x = 0) |
| BarAlloc.NextPowerOfTwoWraps | ostd/src/bus/pci/bar_alloc.rs:201-213 | above 2^63 the result wraps to 0 |
| BarAlloc.AllocateAsWrittenHugeRequest | ostd/src/bus/pci/bar_alloc.rs:68-213 | as written, a request above 2^63 is granted at address 0, below the window, and resets the allocation point to 0 |
| BarAlloc.AllocateSpec | ostd/src/bus/pci/bar_alloc.rs:68-76 | a grant is the lowest block of the rounded size aligned to it at or after the allocation point, lies inside the window, and moves the point to its end keeping the window valid; a refusal changes nothing and no aligned block after the point fits |
| BarAlloc.AllocateAgrees | ostd/src/bus/pci/bar_alloc.rs:68-76 | when nothing overflows, the allocation as written and the corrected one give the same address and window |
| BarAlloc.FirstFit | ostd/src/bus/pci/bar_alloc.rs:172-192 | the window a pass picks takes part in the pass, can take the request, and is the first from the start point that does |
| BarAlloc.ChoicePrefers | ostd/src/bus/pci/bar_alloc.rs:165-194 | if any window can take the request one is chosen; a strict match that fits means a strict match is chosen, one of the right width that fits means the chosen one has that width |
| BarAlloc.BarAllocator.TryPass | ostd/src/bus/pci/bar_alloc.rs:172-178 | a pass allocates from the first window of the pass that takes the request and changes only that window; when none does nothing changes |
| BarAlloc.BarAllocator.Allocate | ostd/src/bus/pci/bar_alloc.rs:165-194 | the strict, width-only and unrestricted passes in order: the result and the new windows are those of the window `Choice` names, and nothing changes when it names none |
| BarAlloc.BarAllocator.NewEmpty | ostd/src/bus/pci/bar_alloc.rs:146-150 | no windows |
| BarAlloc.BarAllocator.FromFixedWindow | ostd/src/bus/pci/bar_alloc.rs:153-162 | exactly the one fresh window given |
| BarAlloc.EntryWindow | ostd/src/bus/pci/bar_alloc.rs:99-135 | an entry gives a window only of non-zero size and with nothing allocated |
| BarAlloc.ParseWindowsFresh | ostd/src/bus/pci/bar_alloc.rs:94-136 | every parsed window is non-empty, has nothing allocated, and is the window of one of the entries |
| BarAlloc.FromFdtRanges | ostd/src/bus/pci/bar_alloc.rs:86-143 | no allocator without the property, when its length is not a multiple of 28, or when no entry is a memory range of non-zero size; otherwise a fresh allocator over the entries' windows in order |
| BarAlloc.ParseEntries | ostd/src/bus/pci/bar_alloc.rs:94-136 | the loop yields exactly the windows of the entries that give one, in entry order |
| RiscvIrq.AllocSoftIrq | ostd/src/arch/riscv/irq.rs:57-64 | a software IRQ number is the base 1024 plus the index newly taken from the allocator of 256, so it lies in the table; none exactly when every index is taken, and then nothing changes |
| RiscvIrq.SoftIrqNotPlic | ostd/src/arch/riscv/irq.rs:22-53 | software numbers lie in the table, are never PLIC sources, and distinct indices give distinct numbers |
| RiscvIrq.IdAlloc.Alloc | ostd/src/arch/riscv/irq.rs:57-218 | the allocator hands out the lowest free id below its capacity and marks it used; none exactly when all are used |
| RiscvIrq.IrqLine.OnActive | ostd/src/arch/riscv/irq.rs:214-227 | the call panics, registering nothing, exactly when the id allocator is exhausted; otherwise the callback is appended under an id that was free, and the handle names the line and that id |
| RiscvIrq.IrqTable.constructor | ostd/src/arch/riscv/irq.rs:30-34 | a table of 1280 empty slots |
| RiscvIrq.IrqTable.RegisterLine | ostd/src/arch/riscv/irq.rs:36-39 | the slot holds the line and no other slot changes |
| RiscvIrq.IrqTable.UnregisterLine | ostd/src/arch/riscv/irq.rs:41-44 | the slot is emptied and no other slot changes |
| RiscvIrq.IrqTable.Acquire | ostd/src/arch/riscv/irq.rs:178-194 | the registered line of the number, or a new line without callbacks registered in its slot; other slots unchanged |
| RiscvIrq.IrqTable.DropHandle | ostd/src/arch/riscv/irq.rs:240-252 | the registered line, if any, keeps exactly the callbacks with other ids, and the id is freed |
| RiscvIrq.RemoveIdOnly | ostd/src/arch/riscv/irq.rs:240-252 | after removing an id no callback has it, and the callbacks of every other id are exactly those before, in order |
| RiscvIrq.RemoveIdMembers | ostd/src/arch/riscv/irq.rs:248 | a callback survives exactly when it was there and has another id |
| RiscvIrq.BuildHartMask | ostd/src/arch/riscv/irq.rs:299-302 | the base is a multiple of 32 at most the hart, within 32 of it, and the mask is the bit of the hart's offset |
| RiscvIrq.HartMaskSelectsOnly | ostd/src/arch/riscv/irq.rs:299-302 | the mask and base select the hart and no other hart |
| RiscvIrq.Hart.EnableLocal | ostd/src/arch/riscv/irq.rs:103-110 | interrupts are enabled |
| RiscvIrq.Hart.DisableLocal | ostd/src/arch/riscv/irq.rs:112-118 | interrupts are disabled |
| TrapIrq.IrqLine.New | ostd/src/trap/irq.rs:70-94 | the line has the number and kind, no callbacks, and the arch line registered under the number (the one already there, or a new empty one); no other slot changes |
| TrapIrq.IrqLine.Num | ostd/src/trap/irq.rs:97-99 | the number the line was made with |
| TrapIrq.IrqLine.OnActive | ostd/src/trap/irq.rs:104-109 | the call panics, registering nothing, exactly when the id allocator is exhausted; otherwise the callback is registered on the arch line under a fresh id and the handle kept on the line |
| TrapIrq.AllocSpecific | ostd/src/trap/irq.rs:47-53 | NotEnoughResources exactly when a line is registered under the number, with the table unchanged; otherwise a new external line whose fresh arch line is now registered |
| TrapIrq.AllocSoftware | ostd/src/trap/irq.rs:56-60 | NotEnoughResources exactly when every software number is taken; otherwise a software line on a newly taken number above the PLIC range, registered in the table |
| TrapIrq.DisabledLocalIrqGuard.New | ostd/src/trap/irq.rs:185-193 | the guard records whether interrupts were enabled, and they are disabled afterwards |
| TrapIrq.DisabledLocalIrqGuard.TransferTo | ostd/src/trap/irq.rs:196-200 | the new guard has the old one's duty and the old one has none |
| TrapIrq.DisabledLocalIrqGuard.Drop | ostd/src/trap/irq.rs:203-209 | interrupts are enabled afterwards exactly when they were or the guard saw them enabled |
| TrapIrq.DisableLocal | ostd/src/trap/irq.rs:171-173 | a fresh guard, as `new` makes it |
| TrapIrq.StepRestores | ostd/src/trap/irq.rs:150-209 | making, dropping (in any order) and transferring guards keeps: at most one guard has the duty; while one does interrupts are off and were on at first; while none does, the state is the first one |
| TrapIrq.RunRestores | ostd/src/trap/irq.rs:150-209 | after any sequence of guard operations from no guards, the state is as before the first guard once none is left |
| TrapIrq.NestedRun | ostd/src/trap/irq.rs:150-155 | with guards dropped newest first, interrupts stay disabled while any guard lives and only the outermost guard restores them |
| IntRatio.New | vendor/int_ratio/src/lib.rs:54-87 | the two loops of `new` compute exactly the ratio `Make` defines: the shift lowered from 32 until the multiplier fits in 32 bits, then factors of two dropped while the shift is positive |
| IntRatio.ShlFits | vendor/int_ratio/src/lib.rs:67-68 | `numerator << shift` plus half the denominator never overflows 64 bits for any shift up to 32 |
| IntRatio.CanonBounds | vendor/int_ratio/src/lib.rs:66-79 | the first loop ends with a multiplier that fits in 32 bits (so the `as u32` cast loses nothing), the shift is at most 32, the multiplier is odd unless the shift is 0, and `mult / 2^shift` is within `1 / 2^(shift + 1)` of `numerator / denominator` |
| IntRatio.MakeClose | vendor/int_ratio/src/lib.rs:54-87 | a ratio built from a non-zero numerator keeps its numerator and denominator, has a shift of at most 32 and an odd multiplier unless the shift is 0, and approximates the fraction to within `1 / 2^(shift + 1)` |
| IntRatio.Inverse | vendor/int_ratio/src/lib.rs:105-107 | the inverse is the ratio built from the swapped denominator and numerator, so inverting twice returns the original numerator and denominator |
| IntRatio.EqualFractions | vendor/int_ratio/src/lib.rs:162-167 | ratios of equal fractions (`1/2`, `2/4`, `50/100`) have the same multiplier and shift and so compare equal |
| IntRatio.ZeroRatios | vendor/int_ratio/src/lib.rs:40-63 | every `0/x` ratio equals `zero()`, `zero()` is its own inverse, and a zero ratio multiplies every value to 0 |
| IntRatio.MulTruncApprox | vendor/int_ratio/src/lib.rs:124-126 | `mul_trunc` before the cut to 64 bits is `value * numerator / denominator` to within `value / 2^(shift + 1)` plus the truncation |
| IntRatio.MulTruncAtMostOne | vendor/int_ratio/src/lib.rs:124-126 | a ratio of at most one never enlarges a value, so the cut to 64 bits loses nothing |
| IntRatio.MulRoundTrunc | vendor/int_ratio/src/lib.rs:124-146 | when the rounded result fits, `mul_round` is `mul_trunc` or one more, and one more exactly when the bits shifted out are at least half of `2^shift` |
| IntRatio.FiveEighths | vendor/int_ratio/src/lib.rs:174-182 | `new(625000, 1000000)` has multiplier 5 and shift 3 and maps 800 to 500 |
| Lazy.LazyInit.constructor | vendor/lazyinit/src/lib.rs:32-37 | a new cell is uninitialised and `get` gives `None` |
| Lazy.LazyInit.Get | vendor/lazyinit/src/lib.rs:92-106 | `get` gives the stored value exactly when `is_inited` holds, and `None` before |
| Lazy.LazyInit.GetUnchecked | vendor/lazyinit/src/lib.rs:124-127 | on an initialised cell, the value `get` would give |
| Lazy.LazyInit.Deref | vendor/lazyinit/src/lib.rs:176-185 | `deref` panics exactly on an uninitialised cell and otherwise gives the stored value |
| Lazy.LazyInit.CallOnce | vendor/lazyinit/src/lib.rs:52-89 | on an uninitialised cell the value is stored and returned; on an initialised one `None` is returned and the old value kept |
| Lazy.LazyInit.InitOnce | vendor/lazyinit/src/lib.rs:44-46 | `init_once` panics exactly on an initialised cell, keeping its value; otherwise afterwards `get` and `deref` give the new value |
| Lazy.LazyInit.DerefMutSet | vendor/lazyinit/src/lib.rs:187-196 | writing through `deref_mut` replaces the value of an initialised cell and panics, changing nothing, on an uninitialised one |
| Lazy.LazyInit.GetMutSet | vendor/lazyinit/src/lib.rs:108-117 | writing through `get_mut` happens exactly when the cell is initialised, and leaves the state byte alone |
| Lazy.LazyInit.GetMutUncheckedSet | vendor/lazyinit/src/lib.rs:133-138 | on an initialised cell, a write through the reference replaces the value |
| Lazy.InitedStays | vendor/lazyinit/src/lib.rs:56-58 | on an initialised cell every further `call_once` returns `None` and the value stays |
| Lazy.OnlyFirstSucceeds | vendor/lazyinit/src/lib.rs:52-260 | of several `call_once` calls on a fresh cell exactly the first succeeds, and the cell then holds its value |
| Styles.SetBit | vendor/owo-colors/src/dyn_styles.rs:102-126 | a flag setter sets its own bit to the value given, the getter reads it back, and every other bit is unchanged |
| Styles.NoBitIsZero | vendor/owo-colors/src/dyn_styles.rs:95-126 | a flag byte none of whose eight getters holds is zero, the plain flags |
| Styles.SetEffect | vendor/owo-colors/src/dyn_styles.rs:296-379 | `set_effect` (and so `bold`, `dimmed` ... `strikethrough`, `effect`, `remove_effect`) gives the one effect the value asked for and leaves every other effect and both colours alone |
| Styles.SetEffects | vendor/owo-colors/src/dyn_styles.rs:358-365 | the loop over the slice applies `set_effect` to each effect in turn |
| Styles.SetEffectsHas | vendor/owo-colors/src/dyn_styles.rs:358-365 | after `set_effects` an effect is as asked exactly when it is in the list, otherwise as before, and the colours are kept |
| Styles.Effects | vendor/owo-colors/src/dyn_styles.rs:381-385 | `effects` is `set_effects` with `true` |
| Styles.RemoveEffects | vendor/owo-colors/src/dyn_styles.rs:387-391 | `remove_effects` is `set_effects` with `false` |
| Styles.WithFg | vendor/owo-colors/src/dyn_styles.rs:22-453 | a foreground setter or `remove_fg` changes the foreground only |
| Styles.WithBg | vendor/owo-colors/src/dyn_styles.rs:22-460 | a background setter or `remove_bg` changes the background only |
| Styles.RemoveAllEffects | vendor/owo-colors/src/dyn_styles.rs:393-397 | `remove_all_effects` clears bold and every flag and keeps both colours |
| Styles.RemoveAllEffectsCodes | vendor/owo-colors/src/dyn_styles.rs:393-581 | after `remove_all_effects` the prefix selects the colours and nothing else |
| Styles.PlainIffNothing | vendor/owo-colors/src/dyn_styles.rs:464-467 | `is_plain` holds exactly when there is no colour and no effect |
| Styles.CodesEmptyIffPlain | vendor/owo-colors/src/dyn_styles.rs:509-581 | a style selects at least one SGR parameter exactly when it is not plain, so no empty `ESC [m` is written |
| Styles.FmtPrefix | vendor/owo-colors/src/dyn_styles.rs:509-581 | the prefix is empty for a plain style and otherwise `ESC [`, the foreground, background, bold and flag parameters in that order separated by `;`, then `m` |
| Styles.WriteLead | vendor/owo-colors/src/dyn_styles.rs:521-543 | the colour and bold parameters are written `;`-separated in that order, and the separator flag says whether any was written |
| Styles.WriteFlags | vendor/owo-colors/src/dyn_styles.rs:545-572 | the flag parameters are written from dimmed (`2`) to strikethrough (`9`), each after a `;` once anything precedes it |
| Styles.FmtSuffix | vendor/owo-colors/src/dyn_styles.rs:583-588 | the suffix is the reset `ESC [0m` exactly when the style is not plain |
| Styles.FmtStyled | vendor/owo-colors/src/dyn_styles.rs:653-680 | a styled value displays as prefix, the target's own text, suffix |
| Styles.StyledText | vendor/owo-colors/src/dyn_styles.rs:772-783 | a plain style displays its target unchanged; any other style wraps it in a non-empty parameter list and the reset |
| Styles.EffectsOrder | vendor/owo-colors/src/dyn_styles.rs:717-726 | `effects(&[Strikethrough, Underline])` displays with the prefix `ESC [4;9m`, the flags in bit order |
| Styles.FullPrefix | vendor/owo-colors/src/dyn_styles.rs:691-715 | a foreground, a background, bold, dimmed, italic, underline, blink and strikethrough give `ESC [fg;bg;1;2;3;4;5;9m` |
| ConfigTypes.Trim | vendor/axconfig-gen/src/ty.rs:27 | `str::trim` leaves no white space at either end and keeps a string that has none there |
| ConfigTypes.SplitTupleItems | vendor/axconfig-gen/src/ty.rs:83-111 | the loop over the characters computes the splitting function `SplitItems` |
| ConfigTypes.SplitItemsJoin | vendor/axconfig-gen/src/ty.rs:83-111 | the pieces of a successful split are non-empty and joined with ',' give back the input |
| ConfigTypes.SplitItemsBalanced | vendor/axconfig-gen/src/ty.rs:102-108 | a successful split means the parentheses of the input never close more than they opened and all close by the end |
| ConfigTypes.SplitItemsRejects | vendor/axconfig-gen/src/ty.rs:92-108 | a lone comma, a trailing comma, an empty item, ")(" and an unclosed "(" are refused |
| ConfigTypes.SplitItemsNested | vendor/axconfig-gen/src/ty.rs:91 | commas inside parentheses do not split |
| ConfigTypes.SplitItemsEdgeCommas | vendor/axconfig-gen/src/ty.rs:92-96 | a comma at either end makes the split fail |
| ConfigTypes.New | vendor/axconfig-gen/src/ty.rs:26-61 | every refusal of `ConfigType::new` is `InvalidType` |
| ConfigTypes.NewTrim | vendor/axconfig-gen/src/ty.rs:27 | the type text is trimmed before it is read |
| ConfigTypes.NewBlankTuple | vendor/axconfig-gen/src/ty.rs:39-42 | parentheses around blanks are the empty tuple |
| ConfigTypes.NewBlankArray | vendor/axconfig-gen/src/ty.rs:50-53 | brackets around blanks are refused |
| ConfigTypes.NewKnown | vendor/axconfig-gen/src/ty.rs:26-61 | a parsed type never holds `Unknown` |
| ConfigTypes.NewHasRustType | vendor/axconfig-gen/src/ty.rs:63-80 | every parsed type has a Rust spelling, so `to_rust_type` does not panic on it |
| ConfigTypes.ToRustType | vendor/axconfig-gen/src/ty.rs:63-80 | `to_rust_type` has a result exactly on types without `Unknown` inside; elsewhere it panics |
| ConfigTypes.RustTypeExample | vendor/axconfig-gen/src/ty.rs:63-80 | a nested array of tuples is spelled `&[&[(usize, (&str, &str), usize)]]` |
| ConfigTypes.ShowBalanced | vendor/axconfig-gen/src/ty.rs:113-135 | what `Display` writes for a type has balanced parentheses |
| ConfigTypes.ShowNew | vendor/axconfig-gen/src/ty.rs:113-135 | every type without `Unknown` is parsed back by `ConfigType::new` from what `Display` writes for it |
| ConfigTypeCases.NewRejectsNames | vendor/axconfig-gen/src/ty.rs:32-37 | only the lower-case names are types; "" is refused |
| ConfigTypeCases.NewRejectsRustNames | vendor/axconfig-gen/src/ty.rs:32-58 | Rust spellings such as "usize" and "&str" are not type names |
| ConfigTypeCases.NewRejectsEmptyArray | vendor/axconfig-gen/src/ty.rs:50-53 | "[]" is refused |
| ConfigTypeCases.NewRejectsUnclosed | vendor/axconfig-gen/src/ty.rs:38-48 | "(int," is refused |
| ConfigTypeCases.NewRejectsEmptyItem | vendor/axconfig-gen/src/ty.rs:43 | "(,)" is refused |
| ConfigTypeCases.NewRejectsUnbalanced | vendor/axconfig-gen/src/ty.rs:38-48 | "()()" is refused, though it starts with '(' and ends with ')' |
| ConfigTypeCases.NewAcceptsPaddedTuple | vendor/axconfig-gen/src/ty.rs:39-42 | "(  )" is the empty tuple |
| ConfigValues.FromStrRadixDigits | vendor/axconfig-gen/src/value.rs:114-125 | `from_str_radix` reads back the digits of any number in the radix, and refuses it exactly when it does not fit a 64-bit `usize` |
| ConfigValues.IsNumDecimal | vendor/axconfig-gen/src/value.rs:114-125 | the decimal digits of a number are a number exactly when it fits a `usize` |
| ConfigValues.IsNumHex | vendor/axconfig-gen/src/value.rs:116-117 | "0x" and the hexadecimal digits of a `usize` are a number |
| ConfigValues.IsNumUnderscore | vendor/axconfig-gen/src/value.rs:115 | underscores anywhere do not change whether a text is a number |
| ConfigValues.IsNumUpper | vendor/axconfig-gen/src/value.rs:115 | case does not change whether a text is a number |
| ConfigValues.ZeroIsNum | vendor/axconfig-gen/src/value.rs:114-125 | "0" is a number |
| ConfigValues.LetterIsNotNum | vendor/axconfig-gen/src/value.rs:114-125 | "a" is not a number |
| ConfigValues.MatchesValid | vendor/axconfig-gen/src/value.rs:142-175 | a value that matches some type is valid |
| ConfigValues.StringMatches | vendor/axconfig-gen/src/value.rs:146-153 | a string matches `str` always, and `int` or `uint` exactly when it is a number |
| ConfigValues.TupleMatchLength | vendor/axconfig-gen/src/value.rs:154-157 | an array never matches a tuple of another length |
| ConfigValues.MatchExamples | vendor/axconfig-gen/src/value.rs:142-175 | an empty array matches any array type, a negative integer matches `uint`, a boolean does not match `int` |
| ConfigValues.LetterMismatch | vendor/axconfig-gen/src/value.rs:165-171 | an array holding a non-number string does not match `[uint]` |
| ConfigValues.ClassifyTypes | vendor/axconfig-gen/src/value.rs:200-220 | the loop over the element types computes the classification `Classify` |
| ConfigValues.ClassifyCases | vendor/axconfig-gen/src/value.rs:200-220 | element types classify as an array exactly when they are all equal to the first (which is not `Unknown`), as a tuple of themselves otherwise, or as `Unknown` |
| ConfigValues.Collect | vendor/axconfig-gen/src/value.rs:197-199 | collecting results succeeds exactly when every one does, keeping them in order, and otherwise fails with one of their errors |
| ConfigValues.Infer | vendor/axconfig-gen/src/value.rs:177-224 | inference fails only with `InvalidValue` |
| ConfigValues.InferOk | vendor/axconfig-gen/src/value.rs:127-140 | inference succeeds exactly on the values `value_is_valid` accepts |
| ConfigValues.InferScalars | vendor/axconfig-gen/src/value.rs:179-195 | booleans are `bool`, negative integers `int`, other integers and number strings `uint`, other strings `str` |
| ConfigValues.InferEmpty | vendor/axconfig-gen/src/value.rs:200-202 | the empty array has type `Unknown` |
| ConfigValues.InferMixed | vendor/axconfig-gen/src/value.rs:196-220 | an array of differing element types is a tuple of them |
| ConfigValues.InferNested | vendor/axconfig-gen/src/value.rs:196-220 | an array of integer arrays is `[[uint]]`, whatever their lengths |
| ConfigValues.InferNestedEmpty | vendor/axconfig-gen/src/value.rs:204-209 | an array holding an empty array is `Unknown` |
| ConfigValues.InferredCheckedSound | vendor/axconfig-gen/src/value.rs:177-224 | with the corrected classification, a valid value's inferred type is `Unknown` or a type the value matches |
| ConfigValues.FromRawValue | vendor/axconfig-gen/src/value.rs:28-36 | a raw value is accepted exactly when valid, without a type |
| ConfigValues.FromRawValueType | vendor/axconfig-gen/src/value.rs:38-50 | a raw value with a type is accepted exactly when valid and matching; otherwise `InvalidValue` before `ValueTypeMismatch` |
| ConfigValues.NewWithType | vendor/axconfig-gen/src/value.rs:22-26 | a text that does not parse is `Parse`; an accepted value carries the parsed type |
| ConfigValues.Update | vendor/axconfig-gen/src/value.rs:58-80 | `update` refuses only with `ValueTypeMismatch` and otherwise takes the new value |
| ConfigValues.UpdateRejects | vendor/axconfig-gen/src/value.rs:58-80 | `update` refuses exactly when the two declared types differ, or the one declared type does not match the other value |
| ConfigValues.UpdateKeepsType | vendor/axconfig-gen/src/value.rs:58-80 | an accepted update keeps the old declared type, or takes the new one when there was none, and the value still matches it |
| AxConfigs.ItemNameDistinct | vendor/axconfig-gen/src/config.rs:57-63 | outside the global table, and with no '.' in table names, two items have the same name exactly when they sit at the same table and key |
| AxConfigs.MergeItems | vendor/axconfig-gen/src/config.rs:275-281 | adding items one by one fails exactly when a key is in both; otherwise the result is the union; on failure only items of the other configuration were added |
| AxConfigs.UpdateItems | vendor/axconfig-gen/src/config.rs:296-313 | the loop succeeds exactly when no update is refused, and then gives the updated items, touches the keys in both and returns as extra the items with no place here; on refusal it stops with some updates made and the refusing key's error |
| AxConfigs.Untouched | vendor/axconfig-gen/src/config.rs:315-320 | the kept items are exactly those whose place was not touched |
| AxConfigs.Config.constructor | vendor/axconfig-gen/src/config.rs:107-113 | a new configuration has no items and no named tables |
| AxConfigs.Config.IsEmpty | vendor/axconfig-gen/src/config.rs:116-118 | empty means no items and no named tables |
| AxConfigs.Config.ConfigAt | vendor/axconfig-gen/src/config.rs:141-162 | an item is found exactly where one is stored, with that table name and key, and only in the global table or an existing named table |
| AxConfigs.Config.NewTable | vendor/axconfig-gen/src/config.rs:120-133 | `$GLOBAL` and taken names are refused with their messages and change nothing; otherwise the table is added with its comments |
| AxConfigs.Config.MergeTable | vendor/axconfig-gen/src/config.rs:270-282 | one table of the walk: it is created with the other's comments unless it exists, then its items are added; a key already here stops it, lying in the old items, with only items of that table added |
| AxConfigs.Config.MergeTables | vendor/axconfig-gen/src/config.rs:269-283 | the named tables in turn: without a duplicate all their items are added and the missing tables created; a duplicate stops the walk with the tables and items so far kept, each taken from the other configuration |
| AxConfigs.Config.Merge | vendor/axconfig-gen/src/config.rs:268-284 | merging fails exactly on a key the two share, with `Duplicate key`; otherwise every item and every missing table of the other is added; on failure only items and tables of the other were added, and a duplicate in the global table, walked first, stops it before any table is created |
| AxConfigs.Config.Update | vendor/axconfig-gen/src/config.rs:292-321 | updating succeeds exactly when no value update is refused, then the values are updated, the first list holds the items the other lacks and the second the items of the other with no place here; on refusal some updates stay made |
| AxOutput.FromStr | vendor/axconfig-gen/src/output.rs:22-31 | exactly "toml" and "rust" are formats, and they display back as the same text; any other text is the error |
| AxOutput.FromStrFormatName | vendor/axconfig-gen/src/output.rs:12-31 | parsing the displayed name of a format gives the format |
| AxOutput.ModName | vendor/axconfig-gen/src/output.rs:138-140 | every '-' becomes '_' and every other character is kept |
| AxOutput.ModNameIdempotent | vendor/axconfig-gen/src/output.rs:138-140 | a module name is its own module name |
| AxOutput.ConstName | vendor/axconfig-gen/src/output.rs:142-144 | a constant name has no '-' and no lower-case letter, and other characters are upper-cased |
| AxOutput.ConstNameOfModName | vendor/axconfig-gen/src/output.rs:138-144 | the constant name is the upper-cased module name, and is its own constant name |
| AxOutput.DocCommentLine | vendor/axconfig-gen/src/output.rs:77-81 | a "# doc" comment line is "/// doc" in Rust and stays in TOML |
| AxOutput.ResolvedUnknownInTuple | vendor/axconfig-gen/src/output.rs:114-125 | a value mixing a number, a string and an empty array resolves to a type that passes the `Unknown` check yet has no Rust spelling |
| AxOutput.Output.constructor | vendor/axconfig-gen/src/output.rs:42-48 | a new writer has no indent and no text |
| AxOutput.Output.Println | vendor/axconfig-gen/src/output.rs:54-60 | a line is the indent in spaces, the text and a newline |
| AxOutput.Output.PrintLines | vendor/axconfig-gen/src/output.rs:62-69 | every line of the text goes through the format's line operation and is printed unless that leaves it empty |
| AxOutput.Output.TableBegin | vendor/axconfig-gen/src/output.rs:71-86 | a blank line unless nothing was written, the comments, then the header; in Rust the indent grows by four |
| AxOutput.Output.TableEnd | vendor/axconfig-gen/src/output.rs:88-93 | in Rust the indent shrinks by four and `}` closes the module, and an indent of zero panics; TOML is left as it is |
| AxOutput.Output.WriteItem | vendor/axconfig-gen/src/output.rs:95-135 | TOML writes `key = value` with the declared type as a comment; Rust writes the constant with the declared or inferred type, refusing an inference error or `Unknown` after the comments, and panics on a type with `Unknown` inside |
| AxOutput.TableRoundTrip | vendor/axconfig-gen/src/output.rs:71-93 | in Rust, opening and closing a table never panics and leaves the indent where it was |
| AxMain.SplitOnceJoin | vendor/axconfig-gen/src/main.rs:43 | splitting at the first separator gives back the two parts it was joined from |
| AxMain.ParseReadArg | vendor/axconfig-gen/src/main.rs:42-48 | a read argument never fails; it is split at its first '.', or names a global key when it has none |
| AxMain.ParseReadArgJoin | vendor/axconfig-gen/src/main.rs:42-48 | `table.key` reads back the table and the key when the table has no '.' |
| AxMain.ParseWriteArg | vendor/axconfig-gen/src/main.rs:50-62 | a write argument fails exactly when it has no '=', with its message; otherwise it is the item, '=' and the value, the item split at its first '.' or naming a global key |
| AxMain.ParseWriteArgJoin | vendor/axconfig-gen/src/main.rs:50-62 | `table.key=value` parses back to its parts whatever the value holds |
| AxMain.ParseWriteArgGlobal | vendor/axconfig-gen/src/main.rs:60 | `key=value` without '.' sets a key of the global table |
| AxMain.ParseWriteArgValue | vendor/axconfig-gen/src/main.rs:51-58 | the value may hold '.' and '=' |
| ElfArch.RType | vendor/elf_loader/src/arch/mod.rs:113-115 | `r_type` is the low word of `r_info`: `r_info` is a multiple of 2^32 plus it |
| ElfArch.RSymbol | vendor/elf_loader/src/arch/mod.rs:118-120 | `r_symbol` is the high word of `r_info`: `r_info` lies in `[r·2^32, r·2^32 + 2^32)` |
| ElfArch.RInfoSplit | vendor/elf_loader/src/arch/mod.rs:113-120 | an `r_info` built from a symbol index and a type (gABI `ELF64_R_INFO`) splits back into both |
| ElfArch.RInfoJoin | vendor/elf_loader/src/arch/mod.rs:113-120 | every `r_info` is the one built from its own symbol and type |
| ElfArch.StBind | vendor/elf_loader/src/arch/mod.rs:174-176 | `st_bind` is the high nibble: below 16, and `st_info` lies in `[16·r, 16·r + 16)` |
| ElfArch.StType | vendor/elf_loader/src/arch/mod.rs:180-182 | `st_type` is the low nibble: `st_info = 16·st_bind + st_type` |
| ElfArch.StInfoSplit | vendor/elf_loader/src/arch/mod.rs:174-182 | an `st_info` built from a binding and a type (gABI `ELF64_ST_INFO`) splits back into both |
| ElfArch.IsOkBind | vendor/elf_loader/src/arch/mod.rs:211-213 | the bit test against `OK_BINDS` holds exactly for GLOBAL, WEAK and GNU_UNIQUE bindings |
| ElfArch.IsOkType | vendor/elf_loader/src/arch/mod.rs:216-218 | the bit test against `OK_TYPES` holds exactly for NOTYPE, OBJECT, FUNC, COMMON, TLS and GNU_IFUNC |
| ElfArch.LocalNotOkWeakOk | vendor/elf_loader/src/arch/mod.rs:221-228 | a local symbol never has an accepted binding; a weak one always has |
| ElfSymbols.GnuHash | vendor/elf_loader/src/symbol.rs:51-57 | the loop computes the GNU hash: seed 5381, then `h·33 + c` wrapping at 2^32 |
| ElfSymbols.GnuHashIsPolynomial | vendor/elf_loader/src/symbol.rs:51-57 | the wrapping GNU hash is the DJB polynomial of the name modulo 2^32 |
| ElfSymbols.ElfHashStep | vendor/elf_loader/src/symbol.rs:114-119 | one step of the System V hash leaves the top nibble clear |
| ElfSymbols.ElfHashFits | vendor/elf_loader/src/symbol.rs:110-123 | the System V hash always fits in 28 bits |
| ElfSymbols.ElfHash | vendor/elf_loader/src/symbol.rs:110-123 | the loop computes the System V hash, which is below 2^28 |
| ElfSymbols.Precompute | vendor/elf_loader/src/symbol.rs:241-249 | the GNU hash, the Bloom word `fofs` that holds bit `gnuhash` (`64·fofs <= gnuhash < 64·fofs + 64`), the mask `2^(gnuhash - 64·fofs)` within 64 bits, and no SysV hash yet |
| ElfSymbols.MaxBucket | vendor/elf_loader/src/symbol.rs:60-63 | the greatest bucket word: at least every bucket and one of them (0 for none) |
| ElfSymbols.ChainEnd | vendor/elf_loader/src/symbol.rs:67-70 | the first chain word at or after the start with its low bit set, every word before it even; none when all remaining words are even |
| ElfSymbols.GnuCountSyms | vendor/elf_loader/src/symbol.rs:59-74 | one past the last symbol of the chain of the greatest bucket: that symbol is at least every bucket, ends its chain, and no earlier word of the chain does; 1 for empty buckets; a fault when the greatest bucket is below `symbias` or its chain never ends |
| ElfSymbols.CountSymsGnu | vendor/elf_loader/src/symbol.rs:59-74 | the two loops of `count_syms` compute `GnuCountSyms` |
| ElfSymbols.CountSyms | vendor/elf_loader/src/symbol.rs:178-183 | a System V table counts `nchain` symbols; a GNU table counts by its chains |
| ElfSegments.MapProt | vendor/elf_loader/src/segment.rs:48-50 | PF_X gives PROT_EXEC, PF_W PROT_WRITE and PF_R PROT_READ, each in both directions, and nothing else |
| ElfSegments.MapProtTwice | vendor/elf_loader/src/segment.rs:48-50 | mapping twice keeps just the three permission bits (the flag and protection bits coincide) |
| ElfSegments.Rounddown | vendor/elf_loader/src/segment.rs:58-60 | page aligned, at most `x`, and less than a page below it |
| ElfSegments.Roundup | vendor/elf_loader/src/segment.rs:53-55 | page aligned, at least `x` and less than a page above it when `x + 4095` fits in 64 bits; wraps to 0 otherwise |
| ElfSegments.RoundAligned | vendor/elf_loader/src/segment.rs:53-60 | on a page-aligned address both roundings are the identity |
| ElfSegments.RoundIdempotent | vendor/elf_loader/src/segment.rs:53-60 | rounding a rounded address again changes nothing |
| ElfSegments.LowestLoadIsLowest | vendor/elf_loader/src/segment.rs:127-137 | the segment the scan keeps is a PT_LOAD one whose start is below every other PT_LOAD start, and the first such; none when there is no PT_LOAD segment below `usize::MAX` |
| ElfSegments.HighestEndIsHighest | vendor/elf_loader/src/segment.rs:138-140 | the end kept is at least every PT_LOAD end, and is one of them (0 for none) |
| ElfSegments.ParseSegments | vendor/elf_loader/src/segment.rs:117-163 | the reservation starts at the rounded-down lowest PT_LOAD start, is fixed at it only for an executable (`addr` is None exactly for a dylib), spans to the rounded-up highest end, carries the lowest segment's protection and file range, and the third result is the rounded-up end of that segment |
| ElfSegments.ReservationCovers | vendor/elf_loader/src/segment.rs:117-163 | when nothing wraps, the reservation covers every byte of every PT_LOAD segment |
| ElfSegments.ParseSegment | vendor/elf_loader/src/segment.rs:166-192 | None exactly for the segment at the mapped minimum; otherwise a fixed mapping at the rounded-down start plus the base, with its protection, a page-aligned file offset at most a page below `p_offset`, and a file size that still reaches `p_offset + p_filesz` |
| ElfRelocations.FindWeak | vendor/elf_loader/src/relocation.rs:139-152 | a weak undefined symbol with value 0 resolves to nothing in particular, one with a nonzero value fails the assertion; any other symbol with a value resolves to itself, and one without does not resolve |
| ElfRelocations.New | vendor/elf_loader/src/relocation.rs:430-465 | with RELR the tables are kept whole; otherwise the first `rela_count` entries are relative and a PLT table ending where the dynamic table ends is cut off its tail; a panic exactly when `rela_count` or the PLT table exceeds what is left |
| ElfRelocations.NewPartitions | vendor/elf_loader/src/relocation.rs:443-463 | the relative, remaining and PLT tables lie back to back and cover the dynamic table exactly |
| ElfRelocations.NewEmpty | vendor/elf_loader/src/relocation.rs:468-470 | with no tables at all the result is empty |
| ElfRelocations.NewNonEmpty | vendor/elf_loader/src/relocation.rs:468-470 | a nonempty dynamic table makes a nonempty result |
| ElfRelocations.BitmapSlotsMembers | vendor/elf_loader/src/relocation.rs:343-352 | the slots a bitmap relocates are exactly those `cursor + 8·(j-1)` whose bit `j >= 1` is set |
| ElfRelocations.BitmapWord | vendor/elf_loader/src/relocation.rs:343-352 | for a 64-bit bitmap word the slots are exactly those of bits 1 to 63 that are set |
| ElfRelocations.RelocateRelr | vendor/elf_loader/src/relocation.rs:334-357 | the loops relocate exactly the words `RelrDecode` names: each even word itself, then the slots of each following bitmap, the cursor moving 63 slots per bitmap |
| ElfRelocations.ApplyBitmap | vendor/elf_loader/src/relocation.rs:344-353 | a bitmap word relocates exactly the slots of its set bits above the lowest, in order; with the cursor still null it faults exactly when one such bit is set |
| ElfLoaders.Validate | vendor/elf_loader/src/loader.rs:65-80 | Ok exactly when magic, class, version and machine all match; otherwise the message of the first mismatch, in that order, each in both directions |
| ElfLoaders.PhdrRange | vendor/elf_loader/src/loader.rs:97-102 | the table starts at `e_phoff` and, when nothing wraps, ends `e_phentsize·e_phnum` bytes later |
| ElfLoaders.PhdrSizeIsTable | vendor/elf_loader/src/loader.rs:200-202 | `phdr_end - phdr_start` is the table's size even when its end wraps |
| ElfLoaders.ElfBuf.constructor | vendor/elf_loader/src/loader.rs:187-191 | a fresh buffer is 64 zero bytes |
| ElfLoaders.ElfBuf.Fill | vendor/elf_loader/src/loader.rs:203-208 | the buffer grows with zeros to the table's size and never shrinks; the read succeeds exactly when the table lies inside the file, and then its bytes are at the buffer's front; an I/O error otherwise |
| ElfLoaders.ElfBuf.PreparePhdrAsWritten | vendor/elf_loader/src/loader.rs:198-215 | as written, the count returned is the whole buffer's length over 56 (see Findings) |
| ElfLoaders.PhdrCountAsWrittenStale | vendor/elf_loader/src/loader.rs:212 | a fresh buffer returns one header for a file with none, and a buffer grown by ten headers returns ten for a file with two |
| ElfLoaders.ElfBuf.PreparePhdr | vendor/elf_loader/src/loader.rs:198-215 | corrected: on success the count is the table's size over 56, so `e_phnum` for 56-byte entries, and the buffer's front holds exactly the table's bytes from the file |
| ElfDynamics.FirstNull | vendor/elf_loader/src/dynamic.rs:124 | the first `DT_NULL` entry at or after the start, none before it; none when no entry is `DT_NULL` |
| ElfDynamics.LastOfIsLast | vendor/elf_loader/src/dynamic.rs:55-126 | the entry a field takes is one with its tag after which no entry has it; nothing exactly when no entry has it |
| ElfDynamics.NeededMembers | vendor/elf_loader/src/dynamic.rs:59-61 | the needed libraries are exactly the values of the `DT_NEEDED` entries |
| ElfDynamics.ScanSpecSnoc | vendor/elf_loader/src/dynamic.rs:55-126 | one more entry other than `DT_NULL` sets the field of its tag (appends for `DT_NEEDED`) and keeps every other field |
| ElfDynamics.ScanDynamic | vendor/elf_loader/src/dynamic.rs:49-130 | the loop finds, for every field, the last entry of its tag before the first `DT_NULL`, and every `DT_NEEDED` in order; a section without `DT_NULL` is a fault |
| ElfDynamics.ScanIgnoresTail | vendor/elf_loader/src/dynamic.rs:124 | the scan stops at `DT_NULL`: entries after it change nothing |
| ElfDynamics.HashTab.Off | vendor/elf_loader/src/dynamic.rs:212-217 | `into` gives the offset of either format |
| ElfDynamics.HashTab.Plus | vendor/elf_loader/src/dynamic.rs:223-228 | `add` keeps the format and adds to the offset |
| ElfDynamics.HashTab.Minus | vendor/elf_loader/src/dynamic.rs:234-239 | `sub` keeps the format and subtracts from the offset |
| ElfDynamics.PlusMinus | vendor/elf_loader/src/dynamic.rs:220-240 | moving a hash table by the base and back gives it back, even when the move wraps |
| ElfDynamics.GetSlice | vendor/elf_loader/src/segment.rs:382-388 | `get_slice` holds as many whole entries as fit in the byte size |
| ElfDynamics.Finish | vendor/elf_loader/src/dynamic.rs:131-202 | the missing-hash error exactly when neither hash offset was found (and the relocation kind is RELA); a fault exactly for a non-RELA kind, an offset without its size or count, or an overflowing version address; otherwise GNU hash preferred, hash, symbol and string tables moved by the base, `bind_now` exactly when DF_BIND_NOW or DF_1_NOW is set, no GOT exactly when its address is null |
| ElfDynamics.New | vendor/elf_loader/src/dynamic.rs:17-203 | `ElfDynamic::new` is the scan followed by `Finish`, a fault without `DT_NULL` |
| ElfDynamics.NewFromEntries | vendor/elf_loader/src/dynamic.rs:137-182 | in terms of the entries before `DT_NULL`: GNU hash chosen exactly when a `DT_GNU_HASH` entry exists, symbol and string tables from their last entries plus the base, `bind_now` from the last `DT_FLAGS` and `DT_FLAGS_1` |
| ElfDynamics.NewErrors | vendor/elf_loader/src/dynamic.rs:137-145 | no `DT_NULL` is a fault; the missing-hash error exactly when no entry before `DT_NULL` is `DT_GNU_HASH` or `DT_HASH` (and the relocation kind is RELA) |
| ElfUserData.FindValue | vendor/elf_loader/src/format/mod.rs:69-76 | a value found is held by an item with the key; nothing found means no item with the key holds a value |
| ElfUserData.UserData.Empty | vendor/elf_loader/src/format/mod.rs:48-50 | no items |
| ElfUserData.UserData.Insert | vendor/elf_loader/src/format/mod.rs:53-67 | the first item with the key takes the value and its old value is returned; without one the item is appended and None returned |
| ElfUserData.UserData.Get | vendor/elf_loader/src/format/mod.rs:69-76 | a value returned is held by an item with the key; None means no item with the key holds one |
| ElfUserData.GetAfterInsert | vendor/elf_loader/src/format/mod.rs:53-76 | after `insert(k, v)`, `get(k)` is `v` and `get` of any other key is unchanged |
| ElfUserData.InsertWellFormed | vendor/elf_loader/src/format/mod.rs:53-67 | inserting keeps every key once and every item holding a value, and the value replaced is the one `get` found |

## Left out

Whole model:
- Panics, failed `assert!`s, `unwrap`s of `None` and undefined behaviour in `unsafe` code are modelled as error outcomes (`None`, `Err(...)`, a `Fault` or `Panic` variant). Unwinding and what runs during it are not modelled.
- Concurrency is not modelled. Every `Mutex`, `RwLock`, `SpinLock`, atomic and `async` section becomes one sequential step on plain fields: the fd table, the pipe, wait4, the VFS caches and manager, the lifecycle, the CPU-time counters, the heap end, the frame reference counts and `LazyInit`. Memory orderings and interleavings are not modelled.
- Release-build integer semantics are assumed. Additions and subtractions that the source writes on `usize`/`u64` wrap at 2^64 where the model says so. A debug build would panic on those inputs instead.
- Rust strings (`&str`, `String`, UTF-8) are `seq<char>`. Byte-level UTF-8 encoding, char boundaries and the panics of slicing inside a character are not modelled.
- `log`/`warn!`/`debug!` output and `Debug`/`Display` implementations used only for messages are not modelled.
- Collaborators whose code is not part of this model are parameters of the operations that call them. These are:
  - the ext4 library under the vnode;
  - character devices;
  - the path resolver;
  - VMARs and VMOs, and `is_userspace_vaddr`;
  - the buddy allocator;
  - the id allocators' backing bitmaps;
  - the tick clock;
  - the random bytes of the initial stack;
  - user-memory copies, as the number of bytes reachable before a fault.
- Hardware effects are not modelled: PLIC enable/priority/threshold writes, CSR writes beyond the local interrupt-enable bit, cache-line flush instructions, TLB flushes and MMIO.

VFS:
- VfsDevFs: the character-device handle's `seek` always returns ENOSYS, and `flush` and `close` do nothing. None of them touches any state, so they are not members.
- VfsManager.Manager: only the mount/provider tables are modelled. The file-system instances, their root vnodes and path resolution beyond the symlink-depth check (`CheckSymlinkDepth`) are left out, because they go through the unseen `path_resolver` and static dispatch.
- VfsCache: the caches are the maps inside the locks. The `Arc` identities of cached vnodes are an explicit identity field.

Threads and system calls:
- DupSyscall: the model uses the corrected `dup` that leaves descriptor 0 alone. As written, `sys_dup` passes `min_fd` 0, and `FdTable::dup` then closes an open stdin. That behaviour is `FdTables.DupAsWritten` / `FdTables.DupClosesStdinAsWritten` (see Findings).
- ThreadClone.DoClone: scheduling the child task and copying the user context's registers beyond the return value, stack pointer and TLS are not modelled.
- ThreadWait.DoWait4: one attempt is modelled; the sleep-and-retry loop is the `Sleep` outcome.
- InitStack: the VMO write's failure is the parameter `writeError`, and the random bytes are a parameter.
- MMap.DoMmap: VMO allocation and the root VMAR's mapping are described by the returned `MapRequest`. Their own failures other than the file read/write (EIO) are not modelled.
- Time: `ticks_since_boot` and `duration_since_boot` read the timer and are not modelled.

Memory management:
- FrameAllocator.Init: a usable region whose end passes 2^64 is the `None` outcome. The frames of earlier regions that the source would already have handed to the global buddy allocator before panicking are not tracked.
- FrameAllocator.CountingFrameAllocator.Alloc: the buddy allocator's answer is the parameter `inner`; its internal state is not modelled.
- Mm: the paging constants are those of the LoongArch target (4 KiB pages, 8-byte entries, four levels). Other architectures' constants are not modelled.
- FrameMeta: the start of the metadata range is a parameter `base`; `MAX_PADDR` is the allocator's `maxPaddr` field.
- LoongArchPte: the cache-policy (MAT) bits of a page property are not modelled, and `set_prop` never writes them.
- PtChild: the cache policy of a `PageProperty` is not modelled.
- PageTables: `make_shared_tables` is not modelled, because it depends on the frame allocator and on tracking the kernel space. `split_if_untracked_huge` is commented out in the source.
- DmaStreams: the global set of DMA-mapped pages (ostd/src/mm/dma/mod.rs) is the object `DmaMappings`. The IOMMU mapping and the device address of a mapping through it are not modelled. The cache sync is the RISC-V branch: one flush per 64-byte line.
- Ext4Block and Ext4Rw: `BLOCK_SIZE` 4096 and `BASE_OFFSET` 1024 are the crate's constants, whose file is not part of this model. Checksums (`set_checksum`) are not computed: a `_with_csum` write is the plain write of an image whose checksum is already set.

Vendored crates:
- IntRatio: the `Debug` and `Display` implementations are not modelled.
- Lazy: the `INITIALIZING` state is never observed from outside a call, because the model is sequential. A racing `call_once` from another CPU is left out.
- Styles: a colour is represented by the SGR parameter text `fmt_raw_ansi_fg`/`fmt_raw_ansi_bg` write (defined in a file not part of this model). The `fmt::Result` errors a formatter's writes can return are not modelled: every write succeeds.
- ConfigTypes: the TOML parser's error is only its kind `Parse`.
- ConfigValues: TOML floats, dates and inline tables are one refused value `VOther`. The renderings of single values (`to_toml_value`, `to_rust_value`) are not modelled: `AxOutput.Output.WriteItem` takes them as parameters.
- ConfigValues.Update: the update is a function returning the new value, not an in-place update of `self`. On an error the old value is returned unchanged, as the source leaves it.
- AxConfigs.Config.Update: the two lists it returns are stated as sets (`ToSet`), not in `BTreeMap` key order.
- AxConfigs.Config.Merge: on a duplicate key in a named table, the tables created and the items merged before the duplicate stay in the configuration. The model states only that both lie between the old and the merged ones (`Between`), not which named tables and keys were visited first, because the loops take `BTreeMap` keys in any order.
- AxOutput.ConstName: the source upper-cases with Unicode `to_uppercase`; the model upper-cases ASCII letters only and leaves every other character as it is.
- AxOutput.Output.TableEnd: with the Rust format at indent 0, the unsigned indent would underflow. That is the `Underflow` outcome (a panic in a debug build).
- AxMain: only the parsing of the `--read` and `--write` arguments is modelled. The `clap` command line, file reading and output writing of `main` are I/O.

ELF loader:
- ElfLoaders: decoding the header's bytes (`ElfHeader::new`) is not modelled. An `Ehdr` holds the fields the loader reads. The target machine is a parameter.
- ElfLoaders.ElfBuf.Fill: the object's `read` is a read from the file's bytes; other I/O errors of a real object are not modelled.
- ElfSymbols: symbol lookup (`lookup`, `lookup_filter`, the Bloom-filter test and chain walk, string-table comparisons) is not modelled. Only the hashes, `precompute` and the symbol count are.
- ElfSymbols.ElfHash: the `+` of the System V hash would panic on overflow in a debug build. The model follows the release build, which wraps; the result's 28-bit bound holds in both.
- ElfSymbols.CountSyms: the dispatch of `SymbolTable::hash` between the two table formats is the `HashTable` datatype.
- ElfRelocations.RelocateRelr: the result is the sequence of relocated word offsets. Translating an offset to a pointer (`get_mut_ptr`) and writing `base + *slot` into memory are not modelled. A bitmap before any address word writes through the null cursor, which is the `None` outcome.
- ElfRelocations: the relocation of `DT_REL` tables (the `rel` feature) is not modelled. `ElfRelType` is `Elf64_Rela`. `relocate_dynrel`, `relocate_pltrel`, RELRO protection and lazy binding are left out, because they call symbol lookup and write memory.
- ElfDynamics.ScanDynamic: the scan stores most values with `NonZeroUsize::new_unchecked`, which is undefined behaviour for a value of 0. The model keeps the value 0 as found.
- ElfDynamics: `dyn_ptr` and calling the init/fini functions and arrays are left out. Only their addresses are kept. `HashTab`'s `AddAssign`/`SubAssign` are `Plus`/`Minus` of the value, not updates in place.
- ElfSegments: the `mmap` calls themselves are not modelled. `ParseSegments` and `ParseSegment` give the mappings they would request.

## Findings

| source | as written | input that shows it | evidently intended | confidence | as-written member | corrected member |
|---|---|---|---|---|---|---|
| kernel/comps/vfs/src/path/normalize.rs:31 | `..` pops the top of the stack even when the top is a `..` kept earlier | `../..` normalises to the empty string | a kept `..` is never cancelled, so `../..` stays `../..` | not executed; high | PathNormalize.DotDotPopsDotDotAsWritten | PathNormalize.DotDotsAreKept |
| kernel/comps/vfs/src/path/normalize.rs:20-22 | the fast-path test does not exclude a trailing `/.` or `/..` | `/a/..` is returned unchanged | `/a/..` normalises to `/` | not executed; high | PathNormalize.FastPathMissesTrailingDotDotAsWritten | PathNormalize.NormalizeIsNormal |
| kernel/comps/vfs/src/path.rs:321-334 | `join` does not check the component for NUL, though its documentation says it does | `join("/a", "b\0")` gives `/a/b\0` | a component with NUL is rejected with EINVAL | not executed; high | Paths.JoinAcceptsNulAsWritten | Paths.PathJoinIsNormal |
| kernel/comps/vfs/src/cache.rs:145-149 | `DentryCache::put` refuses every entry once the cache is full, even one whose key is already cached | capacity 1 holding `("/dev", "null")`; putting a new vnode for that key keeps the old one | as in `VnodeCache::put`, a cached key is replaced even when full | not executed; medium | VfsCache.DentryPutKeepsStaleAsWritten | VfsCache.DentryPutSpec |
| kernel/comps/vfs/src/impls/dev_fs/handle.rs:19-26 | `read_dir_chunk` slices from the cursor, which `seek_dir` may have put past the end | one entry, `seek_dir(2)`, then `read_dir_chunk(None)` slices `[2..1]` and panics | past the end the chunk is empty | not executed; high | VfsDevFs.SeekPastEndAsWritten | VfsDevFs.DirHandle.ReadDirChunk |
| kernel/comps/vfs/src/impls/ext4_fs/vnode.rs:265-275 | the remainder saturates at zero but the copy still slices the entries from the index | one entry, `seek_dir(2)`, then a chunk read slices `[2..2]` and panics | past the end nothing is copied | not executed; high | VfsExt4Vnode.DirChunkPastEndAsWritten | VfsExt4Vnode.DirHandle.ReadDirChunk |
| kernel/src/thread/fd_table.rs:154-162 | the search start is never compared with the capacity | capacity 2, fds 0 and 1 allocated, fd 0 closed, then `alloc` returns 2 | a descriptor is always below the capacity | not executed; high | FdTables.AllocPastCapacityAsWritten | FdTables.FdTable.Alloc |
| kernel/src/thread/fd_table.rs:209-216 | `oldfd == min_fd` returns `oldfd`, and `dup` passes `min_fd` 0 | `dup(0)` returns 0 | `dup` always gives a new descriptor | not executed; high | FdTables.DupZeroAsWritten | FdTables.FdTable.Dup |
| kernel/src/thread/fd_table.rs:218-222 | after closing `newfd` the copy is allocated from `max(next, newfd)` | fds 3 and 5 in use, next 10; `dup3(3, 5, 0)` returns 10 | `dup3` places the copy on `newfd` | not executed; high | FdTables.Dup3ElsewhereAsWritten | FdTables.FdTable.Dup3 |
| kernel/src/thread/fd_table.rs:131 | a `Path` source is opened read-only exactly when its flags are readable, and its flags are dropped | standard output from a path with read-write flags is opened read-only | the path is opened with the flags it comes with | not executed; medium | FdTables.StdoutPathReadOnlyAsWritten | FdTables.StdRequest |
| kernel/src/thread/clone.rs:125-131 | a process clone allocates one id for a separate leader record and another for the child | ids 5 then 6: the child's `getpid` reports 5, the parent receives 6 | the child leads its own group, so its pid is its tid | not executed; medium | ThreadClone.ProcessIdsAsWritten | ThreadClone.DoClone |
| kernel/src/thread/wait.rs:37-49 | `try_collect` waits on the last matching child whether or not it has exited, so `Ok(None)` is never returned | one running child and WNOHANG: the caller sleeps | WNOHANG returns 0 while matching children are running, and an exited child is collected first | not executed; high | ThreadWait.WnohangSleepsAsWritten | ThreadWait.DoWait4 |
| kernel/src/vm/mmap.rs:71-74 | the length is rounded up to a page with no bound, and the rounding wraps in a release build (panics in a debug build) | `len = 2^64 - 1` rounds to 0 | a length that does not round within the address space is refused (Linux returns ENOMEM) | not executed; medium | MMap.RoundLenWraps | MMap.DoMmap |
| kernel/src/vm/munmap.rs:17-23 | `addr + len` is not checked against the top of the address space and wraps | `addr = 2^64 - 4096`, `len = 8192` gives the range `[2^64 - 4096, 4096)` | a range that passes the top of the address space is refused with EINVAL | not executed; medium | MUnmap.UnmapRangeWraps | MUnmap.UnmapRangeCovers |
| kernel/src/syscall/fs.rs:468-474 | the descriptors are compared as 64-bit arguments and only then cut to 32 bits | `oldfd = 1`, `newfd = 0x1_0000_0001` passes the check and duplicates descriptor 1 onto itself | the check compares the descriptors the table sees, so the call is EINVAL | not executed; low | SyscallFs.Dup3SameFdAsWritten | SyscallFs.Dup3Args |
| ostd/src/arch/loongarch/mm/mod.rs:167-169 | `paddr` masks with bits 12-47, and bit 12 of a huge entry is the GLOBAL_HUGE flag that `set_prop` writes | `new_page(0x20_0000, 2, R\|W, GLOBAL).paddr()` is `0x20_1000` | the address of a huge entry leaves out the GLOBAL_HUGE bit, so it is `0x20_0000` | not executed; high | LoongArchPte.HugeGlobalPaddrAsWritten | LoongArchPte.Paddr |
| ostd/src/arch/loongarch/mm/mod.rs:254 | `set_prop` keeps the bits under the physical-address mask, which on a huge entry include GLOBAL_HUGE (bit 12) | `set_prop(new_page(0x20_0000, 2, R\|W, GLOBAL), R\|W, no privileges)` still reads GLOBAL | the new privileges replace the old, so GLOBAL is cleared | not executed; high | LoongArchPte.SetPropAsWrittenKeepsGlobal | LoongArchPte.SetPropPrivReadBack |
| ostd/src/mm/page_table/node/entry.rs:78-84 | `protect` writes the new property into the entry but leaves the child in the node's table with the old one, and `to_owned` (and so a cursor's query) hands out that child | a frame mapped read-only and protected to read-write is still reported read-only through `to_owned` | the child carries the property the entry has | not executed; medium | PtChild.ProtectLeavesStaleChildAsWritten | PtEntry.Entry.Protect |
| ostd/src/bus/pci/bar_alloc.rs:69-75 | `next_power_of_two` wraps to 0 for a request above 2^63, and `align_up` with alignment 0 gives 0, so the block is taken at address 0 | a window at 0x1000 of 0x1000 bytes and a request of 2^63 + 1 bytes is granted address 0 and its allocation point reset to 0 | a request with no 64-bit power of two is refused | not executed; medium (assumes wrap-around arithmetic; a build with overflow checks panics instead) | BarAlloc.AllocateAsWrittenHugeRequest | BarAlloc.AllocateSpec |
| vendor/axconfig-gen/src/value.rs:204-212 | the loop looking for `Unknown` element types stops at the first element that differs from the first one | the array `[1, "a", []]` is inferred as the tuple `(uint, str, ?)` | an array with an element of unknown type is itself `Unknown` | not executed; medium | ConfigValues.InferUnknownInTuple | ConfigValues.InferUnknownInTupleChecked |
| vendor/axconfig-gen/src/config.rs:310-318 | `update` records the touched items by `item_name`, which is the bare key in the global table and "table.key" elsewhere | global item `a.b` and item `b` of table `a`, the other configuration setting only `a.b` of table `a`: the global `a.b` is missing from the untouched items | an item is untouched when its own table and key were not updated | not executed; low (the global key must be written quoted, `"a.b" = …`) | AxConfigs.UntouchedAsWrittenMissesGlobal | AxConfigs.Untouched |
| kernel/comps/vfs/src/path/slice.rs:19 | `PathSlice::new` panics with `unreachable!` whenever `normalize` returns an owned string (every slow-path result except the root `/`), and `execve` and the path resolver pass user paths to it | `execve("/bin//sh", …)` reaches the panic | an input that is neither already normalised nor cancelled down to `/` is refused with an error | not executed; high | Paths.NewSliceAsWrittenPanics | Paths.NewSlice |
| kernel/src/thread/fd_table.rs:218-222 | `dup` closes an open `min_fd` before allocating, and `sys_dup` passes `min_fd` 0 | descriptors 0 and 3 open: `dup(3)` closes descriptor 0 and returns 4 | `dup` leaves every other descriptor open | not executed; high | FdTables.DupClosesStdinAsWritten | FdTables.FdTable.Dup |
| vendor/elf_loader/src/loader.rs:212 | `prepare_phdr` returns `buf.len() / size_of::<ElfPhdr>()` headers, the length of the whole reusable buffer rather than of the table just read | a fresh loader (64-byte buffer) reading a file with `e_phnum` 0 returns 1 header made of the ELF header's bytes; a buffer grown by a file with 10 headers returns 10 for a next file with 2 | `e_phnum` headers, the `size` bytes just read | not executed; medium (the kernel builds a fresh loader per exec, so there only the `e_phnum` 0 case applies) | ElfLoaders.PhdrCountAsWrittenStale | ElfLoaders.ElfBuf.PreparePhdr |
