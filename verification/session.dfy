/** The registry editor's life cycle (`src/prefix/regeditor/editor.rs`):
    opening a prefix through the cache, loading `user.reg` into the editor,
    and saving it back.  The file system is outside the model: what
    resolving a path, reading a file or writing one produced is passed in. */
module Session {
  import opened Common
  import opened Store
  import opened Cache

  datatype RegistryEditor = RegistryEditor(registry: Registry, prefixPath: Option<string>)

  /** `RegistryEditor::new`: an empty registry and no prefix. */
  function NewEditor(): (ed: RegistryEditor)
    ensures |ed.registry.entries| == 0 && ed.prefixPath.None?
    ensures forall p :: !KeyExists(ed.registry, p)
  {
    RegistryEditor(New(), None)
  }

  /** An editor together with the cache it shares. */
  datatype Opened = Opened(editor: Result<RegistryEditor>, cache: RegistryCache)

  /** `with_prefix`: a registry cached for the prefix and not expired is
      used as it is, and the cache is left alone; otherwise the prefix's
      files are loaded and, on success, cached at `now`. */
  function WithPrefix(cache: RegistryCache, prefix: string, now: nat,
                      system: RegFile, user: RegFile, userdef: RegFile): (r: Opened)
    ensures GetCachedRegistry(cache, prefix, now).Some? ==>
      r == Opened(Ok(RegistryEditor(GetCachedRegistry(cache, prefix, now).value, Some(prefix))), cache)
    ensures GetCachedRegistry(cache, prefix, now).None? ==>
      match LoadFromPrefix(system, user, userdef)
      case Err(e) => r == Opened(Err(e), cache)
      case Ok(reg) =>
        r.editor == Ok(RegistryEditor(reg, Some(prefix)))
        && GetCachedRegistry(r.cache, prefix, now) == Some(reg)
    ensures forall p, t: nat :: p != prefix ==> GetCachedRegistry(r.cache, p, t) == GetCachedRegistry(cache, p, t)
  {
    match GetCachedRegistry(cache, prefix, now)
    case Some(cached) => Opened(Ok(RegistryEditor(cached, Some(prefix))), cache)
    case None =>
      match LoadFromPrefix(system, user, userdef)
      case Err(e) => Opened(Err(e), cache)
      case Ok(reg) => Opened(Ok(RegistryEditor(reg, Some(prefix))), CacheRegistry(cache, prefix, reg, now))
  }

  /** What canonicalising `<prefix>/user.reg` produced. */
  datatype Resolution = Resolved(path: string) | Unresolvable(reason: string)

  /** `get_registry_path`: the canonical path of `user.reg`, or an
      invalid-path error carrying the reason. */
  function GetRegistryPath(res: Resolution): (r: Result<string>)
    ensures r.Ok? <==> res.Resolved?
    ensures r.Ok? ==> r.value == res.path
    ensures r.Err? ==> ErrorText(r.error) == "Invalid path: Invalid prefix path: " + res.reason
  {
    match res
    case Resolved(path) => Ok(path)
    case Unresolvable(reason) => Err(InvalidPath("Invalid prefix path: " + reason))
  }

  /** What reading and parsing one `.reg` file produced. */
  datatype FileRead = Unreadable(reason: string) | Read(registry: Registry)

  /** `load_from_file`: the parsed registry, or a registry error. */
  function LoadFromFile(file: FileRead): (r: Result<Registry>)
    ensures r.Ok? <==> file.Read?
    ensures r.Ok? ==> r.value == file.registry
    ensures r.Err? ==> r.error == RegistryError("Failed to load registry: " + file.reason)
  {
    match file
    case Read(reg) => Ok(reg)
    case Unreadable(reason) => Err(RegistryError("Failed to load registry: " + reason))
  }

  datatype Session = Session(editor: RegistryEditor, cache: RegistryCache, status: Status)

  /** `load_registry`: replaces the editor's registry by the content of the
      prefix's `user.reg` and caches it at `now`.  Either failure leaves
      editor and cache as they were. */
  function LoadRegistry(ed: RegistryEditor, cache: RegistryCache, prefix: string, now: nat,
                        res: Resolution, file: FileRead): (r: Session)
    ensures r.status.Ok? <==> res.Resolved? && file.Read?
    ensures res.Unresolvable? ==> r == Session(ed, cache, Err(InvalidPath("Invalid prefix path: " + res.reason)))
    ensures res.Resolved? && file.Unreadable? ==>
      r == Session(ed, cache, Err(RegistryError("Failed to load registry: " + file.reason)))
    ensures r.status.Ok? ==> r.editor == RegistryEditor(file.registry, Some(prefix))
    ensures r.status.Ok? ==> forall t: nat :: t <= now + cache.defaultTtl ==>
      GetCachedRegistry(r.cache, prefix, t) == Some(file.registry)
    ensures forall p, t: nat :: p != prefix ==> GetCachedRegistry(r.cache, p, t) == GetCachedRegistry(cache, p, t)
  {
    match GetRegistryPath(res)
    case Err(e) => Session(ed, cache, Err(e))
    case Ok(_) =>
      match LoadFromFile(file)
      case Err(e) => Session(ed, cache, Err(e))
      case Ok(reg) =>
        var ed' := ed.(registry := reg, prefixPath := Some(prefix));
        Session(ed', CacheRegistry(cache, prefix, ed'.registry, now), Ok(()))
  }

  /** What serialising the registry to `user.reg` produced. */
  datatype FileWrite = Written | WriteFailed(reason: string)

  /** `save_registry`: writes the editor's registry to the prefix's
      `user.reg` and then drops the prefix's cache entry.  The editor itself
      is not changed; a failure leaves the cache as it was. */
  function SaveRegistry(ed: RegistryEditor, cache: RegistryCache, prefix: string,
                        res: Resolution, write: FileWrite): (r: Session)
    ensures r.editor == ed
    ensures r.status.Ok? <==> res.Resolved? && write.Written?
    ensures res.Unresolvable? ==> r.status == Err(InvalidPath("Invalid prefix path: " + res.reason)) && r.cache == cache
    ensures res.Resolved? && write.WriteFailed? ==>
      r.status == Err(RegistryError("Failed to save registry: " + write.reason)) && r.cache == cache
    ensures r.status.Ok? ==> forall t: nat :: GetCachedRegistry(r.cache, prefix, t).None?
    ensures forall p, t: nat :: p != prefix ==> GetCachedRegistry(r.cache, p, t) == GetCachedRegistry(cache, p, t)
  {
    match GetRegistryPath(res)
    case Err(e) => Session(ed, cache, Err(e))
    case Ok(_) =>
      match write
      case WriteFailed(reason) => Session(ed, cache, Err(RegistryError("Failed to save registry: " + reason)))
      case Written => Session(ed, InvalidateCache(cache, prefix), Ok(()))
  }

  // ---------------------------------------------------------------------------
  // Properties
  // ---------------------------------------------------------------------------

  /** Within the time to live, opening a prefix ignores its files: another
      program's changes to them are not seen until the entry expires. */
  lemma CachedRegistryIsStale(cache: RegistryCache, prefix: string, reg: Registry, cachedAt: nat, now: nat,
                              user: RegFile)
    requires cachedAt <= now <= cachedAt + cache.defaultTtl
    requires user.Parsed? && user.registry != reg
    ensures var c := CacheRegistry(cache, prefix, reg, cachedAt);
      WithPrefix(c, prefix, now, Absent, user, Absent).editor == Ok(RegistryEditor(reg, Some(prefix)))
  {
  }

  /** A successful save invalidates the entry, so the next opening reads the
      files again: with `user.reg` holding what was saved, the editor that
      opens the prefix sees the saved registry, whatever was cached. */
  lemma SaveThenReopen(ed: RegistryEditor, cache: RegistryCache, prefix: string, res: Resolution,
                       now: nat, system: RegFile, userdef: RegFile)
    requires SaveRegistry(ed, cache, prefix, res, Written).status.Ok?
    ensures var saved := SaveRegistry(ed, cache, prefix, res, Written).cache;
      WithPrefix(saved, prefix, now, system, Parsed(ed.registry), userdef).editor
        == Ok(RegistryEditor(ed.registry, Some(prefix)))
  {
    var saved := SaveRegistry(ed, cache, prefix, res, Written).cache;
    assert GetCachedRegistry(saved, prefix, now).None?;
  }

  /** Loading `user.reg` and then opening the prefix within the time to live
      yields the registry just loaded, from the cache. */
  lemma LoadThenOpen(ed: RegistryEditor, cache: RegistryCache, prefix: string, now: nat, res: Resolution,
                     file: FileRead, later: nat, system: RegFile, user: RegFile, userdef: RegFile)
    requires LoadRegistry(ed, cache, prefix, now, res, file).status.Ok?
    requires later <= now + cache.defaultTtl
    ensures var s := LoadRegistry(ed, cache, prefix, now, res, file);
      WithPrefix(s.cache, prefix, later, system, user, userdef) == Opened(Ok(s.editor), s.cache)
  {
  }
}
