/** The scope cache of src/cache.rs: one index of scopes to changed files per
    repository, kept in a single cache file that the `cache` subcommands
    create, update, drop entries from, and delete. */
module ScopeCache {
  import opened Wrappers
  import opened Utils
  import opened History

  /** A repository is identified by the path of its working directory. */
  type RepoId = string

  datatype CacheEntry = CacheEntry(scopes: ScopeIndex)

  datatype CacheError =
    | LockFailed         // the cache file cannot be opened for locking
    | CacheMissing       // the cache file does not exist
    | Undecodable        // the cache file's bytes are not a serialised cache
    | NoScopesDetected   // the history holds no scoped commit
    | WriteFailed        // the cache file cannot be written

  /** What the cache file holds. An empty file, such as the one `Cache::lock`
      creates, does not deserialise and is `Garbled`. */
  datatype FileContents = Absent | Garbled | Holds(entries: map<RepoId, CacheEntry>)

  /** The in-memory cache, as loaded from the cache file. */
  class Cache {
    var entries: map<RepoId, CacheEntry>

    /** `Cache::new`: an empty cache. */
    constructor()
      ensures entries == map[]
    {
      entries := map[];
    }

    /** `get_scopes_for_repo`: a copy of the repository's index, if cached. */
    method GetScopesForRepo(repo: RepoId) returns (r: Option<ScopeIndex>)
      ensures repo in entries ==> r == Some(entries[repo].scopes)
      ensures repo !in entries ==> r == None
    {
      if repo in entries {
        r := Some(entries[repo].scopes);
      } else {
        r := None;
      }
    }

    /** `entries.insert`: stores or replaces the repository's entry. */
    method Insert(repo: RepoId, entry: CacheEntry)
      modifies this
      ensures entries == old(entries)[repo := entry]
    {
      entries := entries[repo := entry];
    }

    /** `entries.remove`: drops the repository's entry and reports whether it was there. */
    method Remove(repo: RepoId) returns (existed: bool)
      modifies this
      ensures entries == old(entries) - {repo}
      ensures existed <==> repo in old(entries)
    {
      existed := repo in entries;
      entries := entries - {repo};
    }
  }

  /** The cache file and the cache directory that contains it. */
  class CacheFile {
    var dirExists: bool
    var contents: FileContents

    /** A file can only exist inside an existing directory. */
    ghost predicate Valid()
      reads this
    {
      contents.Absent? || dirExists
    }

    constructor(dirExists: bool, contents: FileContents)
      requires contents.Absent? || dirExists
      ensures Valid() && this.dirExists == dirExists && this.contents == contents
    {
      this.dirExists := dirExists;
      this.contents := contents;
    }

    /** `Cache::lock`: opens the cache file for writing, creating it (empty)
        when the directory exists and the file does not, and releases the lock
        at once. With `create` false the file is opened only if it exists. */
    method Lock(create: bool) returns (outcome: Outcome<CacheError>)
      requires Valid()
      modifies this
      ensures Valid() && dirExists == old(dirExists)
      ensures !dirExists ==> outcome == Fail(LockFailed) && contents == old(contents)
      ensures dirExists && old(contents).Absent? && create ==> outcome == Pass && contents == Garbled
      ensures dirExists && old(contents).Absent? && !create ==> outcome == Fail(LockFailed) && contents == Absent
      ensures !old(contents).Absent? ==> outcome == Pass && contents == old(contents)
    {
      if !dirExists || (contents.Absent? && !create) {
        return Fail(LockFailed);
      }
      if contents.Absent? {
        contents := Garbled;
      }
      outcome := Pass;
    }

    /** `Cache::load`: fails when the file does not exist or does not deserialise. */
    method Load() returns (r: Result<Cache, CacheError>)
      ensures contents.Absent? ==> r == Failure(CacheMissing)
      ensures contents.Garbled? ==> r == Failure(Undecodable)
      ensures contents.Holds? ==> r.Success? && fresh(r.value) && r.value.entries == contents.entries
    {
      if contents.Absent? {
        return Failure(CacheMissing);
      }
      if contents.Garbled? {
        return Failure(Undecodable);
      }
      var cache := new Cache();
      cache.entries := contents.entries;
      r := Success(cache);
    }

    /** `Cache::save`: overwrites the file with the cache's entries; the write
        fails when the directory does not exist. */
    method Save(cache: Cache) returns (outcome: Outcome<CacheError>)
      requires Valid()
      modifies this
      ensures Valid() && dirExists == old(dirExists)
      ensures dirExists ==> outcome == Pass && contents == Holds(cache.entries)
      ensures !dirExists ==> outcome == Fail(WriteFailed) && contents == old(contents)
    {
      if !dirExists {
        return Fail(WriteFailed);
      }
      contents := Holds(cache.entries);
      outcome := Pass;
    }

    /** `create_cache`: creates the directory, then writes an empty cache
        unless a file already exists, whatever that file holds. */
    method Create()
      requires Valid()
      modifies this
      ensures Valid() && dirExists
      ensures old(contents).Absent? ==> contents == Holds(map[])
      ensures !old(contents).Absent? ==> contents == old(contents)
    {
      dirExists := true;
      if contents.Absent? {
        var cache := new Cache();
        var _ := Save(cache);
      }
    }

    /** The part of `update_cache_for_repo` after the lock: loads the cache,
        indexes `walk` (the commits the revision walk yields) and, if any
        commit has a scope, replaces the repository's entry with that index
        and saves. Otherwise the file is left as it was. */
    method UpdateLoaded(repo: RepoId, walk: seq<Commit>) returns (outcome: Outcome<CacheError>)
      requires Valid()
      requires forall i :: 0 <= i < |walk| ==> Walkable(walk[i])
      modifies this
      ensures Valid() && dirExists == old(dirExists)
      ensures old(contents).Absent? ==> outcome == Fail(CacheMissing) && contents == old(contents)
      ensures old(contents).Garbled? ==> outcome == Fail(Undecodable) && contents == old(contents)
      ensures (old(contents).Holds? && forall i :: 0 <= i < |walk| ==> KeyOf(walk[i]).None?) ==>
                outcome == Fail(NoScopesDetected) && contents == old(contents)
      ensures (old(contents).Holds? && exists i :: 0 <= i < |walk| && KeyOf(walk[i]).Some?) ==>
                outcome == Pass && contents == Holds(old(contents).entries[repo := CacheEntry(BuildIndex(walk))])
    {
      var loaded := Load();
      if loaded.Failure? {
        return Fail(loaded.error);
      }
      var cache := loaded.value;
      var changes := ScopesXChanges(walk);
      match changes {
        case None =>
          outcome := Fail(NoScopesDetected);
        case Some(index) =>
          cache.Insert(repo, CacheEntry(index));
          outcome := Save(cache);
      }
    }

    /** `update_cache_for_repo` as written: the lock creates an empty file
        when there is none, which then fails to load and stays behind. */
    method UpdateCacheForRepo(repo: RepoId, walk: seq<Commit>) returns (outcome: Outcome<CacheError>)
      requires Valid()
      requires forall i :: 0 <= i < |walk| ==> Walkable(walk[i])
      modifies this
      ensures Valid() && dirExists == old(dirExists)
      ensures !dirExists ==> outcome == Fail(LockFailed) && contents == old(contents)
      ensures dirExists && !old(contents).Holds? ==> outcome == Fail(Undecodable) && contents == Garbled
      ensures (old(contents).Holds? && forall i :: 0 <= i < |walk| ==> KeyOf(walk[i]).None?) ==>
                outcome == Fail(NoScopesDetected) && contents == old(contents)
      ensures (old(contents).Holds? && exists i :: 0 <= i < |walk| && KeyOf(walk[i]).Some?) ==>
                outcome == Pass && contents == Holds(old(contents).entries[repo := CacheEntry(BuildIndex(walk))])
    {
      outcome := Lock(true);
      if outcome.Fail? {
        return;
      }
      outcome := UpdateLoaded(repo, walk);
    }

    /** `update_cache_for_repo` with a lock that does not create the file: a
        missing cache is reported and left missing. */
    method UpdateCacheForRepoIntended(repo: RepoId, walk: seq<Commit>) returns (outcome: Outcome<CacheError>)
      requires Valid()
      requires forall i :: 0 <= i < |walk| ==> Walkable(walk[i])
      modifies this
      ensures Valid() && dirExists == old(dirExists)
      ensures old(contents).Absent? ==> outcome.Fail? && contents == Absent
      ensures old(contents).Garbled? ==> outcome == Fail(Undecodable) && contents == Garbled
      ensures (old(contents).Holds? && forall i :: 0 <= i < |walk| ==> KeyOf(walk[i]).None?) ==>
                outcome == Fail(NoScopesDetected) && contents == old(contents)
      ensures (old(contents).Holds? && exists i :: 0 <= i < |walk| && KeyOf(walk[i]).Some?) ==>
                outcome == Pass && contents == Holds(old(contents).entries[repo := CacheEntry(BuildIndex(walk))])
    {
      outcome := Lock(false);
      if outcome.Fail? {
        return;
      }
      outcome := UpdateLoaded(repo, walk);
    }

    /** `drop_cache_for_repo`: locks (creating an empty file when there is
        none), loads the cache, removes the repository's entry if there is
        one, and saves. */
    method DropCacheForRepo(repo: RepoId) returns (outcome: Outcome<CacheError>, existed: bool)
      requires Valid()
      modifies this
      ensures Valid() && dirExists == old(dirExists)
      ensures !dirExists ==> outcome == Fail(LockFailed) && contents == old(contents) && !existed
      ensures dirExists && !old(contents).Holds? ==> outcome == Fail(Undecodable) && contents == Garbled && !existed
      ensures old(contents).Holds? ==> outcome == Pass && contents == Holds(old(contents).entries - {repo})
      ensures old(contents).Holds? ==> (existed <==> repo in old(contents).entries)
    {
      existed := false;
      outcome := Lock(true);
      if outcome.Fail? {
        return;
      }
      var loaded := Load();
      if loaded.Failure? {
        return Fail(loaded.error), false;
      }
      var cache := loaded.value;
      existed := cache.Remove(repo);
      outcome := Save(cache);
    }

    /** `nuke_cache`: deletes the cache file if it exists; the directory stays. */
    method Nuke()
      requires Valid()
      modifies this
      ensures Valid() && dirExists == old(dirExists)
      ensures contents == Absent
    {
      contents := Absent;
    }
  }

  /** Deleting the cache and then updating it leaves an empty file behind,
      which `create_cache` then keeps: the cache cannot be loaded again until
      the file is removed by hand. */
  method NukeUpdateCreateIsStuck(file: CacheFile, repo: RepoId, walk: seq<Commit>)
      returns (update: Outcome<CacheError>, reload: Result<Cache, CacheError>)
    requires file.Valid() && file.dirExists
    requires forall i :: 0 <= i < |walk| ==> Walkable(walk[i])
    modifies file
    ensures update == Fail(Undecodable)
    ensures file.contents == Garbled && reload == Failure(Undecodable)
  {
    file.Nuke();
    update := file.UpdateCacheForRepo(repo, walk);
    file.Create();
    reload := file.Load();
  }

  /** The same sequence with the non-creating lock: the update reports the
      missing cache, and `create_cache` then makes a usable empty cache. */
  method NukeUpdateCreateRecovers(file: CacheFile, repo: RepoId, walk: seq<Commit>)
      returns (update: Outcome<CacheError>, reload: Result<Cache, CacheError>)
    requires file.Valid() && file.dirExists
    requires forall i :: 0 <= i < |walk| ==> Walkable(walk[i])
    modifies file
    ensures update.Fail?
    ensures file.contents == Holds(map[]) && reload.Success? && reload.value.entries == map[]
  {
    file.Nuke();
    update := file.UpdateCacheForRepoIntended(repo, walk);
    file.Create();
    reload := file.Load();
  }

  /** What a later lookup sees after an update: the index of the walked
      commits for that repository, every other repository's entry untouched. */
  method UpdateThenLookup(file: CacheFile, repo: RepoId, other: RepoId, walk: seq<Commit>)
      returns (mine: Option<ScopeIndex>, theirs: Option<ScopeIndex>)
    requires file.Valid() && file.contents.Holds? && repo != other
    requires forall i :: 0 <= i < |walk| ==> Walkable(walk[i])
    requires exists i :: 0 <= i < |walk| && KeyOf(walk[i]).Some?
    modifies file
    ensures mine == Some(BuildIndex(walk))
    ensures theirs == (if other in old(file.contents.entries) then Some(old(file.contents.entries)[other].scopes) else None)
  {
    var outcome := file.UpdateCacheForRepo(repo, walk);
    var loaded := file.Load();
    var cache := loaded.value;
    mine := cache.GetScopesForRepo(repo);
    theirs := cache.GetScopesForRepo(other);
  }
}
