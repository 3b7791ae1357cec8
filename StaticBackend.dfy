/**
  Zend_Cache_Backend_Static: full pages stored as files under public_dir,
  named after the request path, with a tag index kept in an inner cache.
 */
module StaticBackend {
  import opened Common
  import opened Tagging
  import opened Resolver
  import opened Storage

  /** The key the tag index is stored under in the inner cache. */
  const InnerCacheName: string := "zend_cache_backend_static_tagcache"

  /** The Zend_Cache::CLEANING_MODE_* constants clean() switches on, and anything else. */
  datatype CleanMode = All | Old | MatchingTag | NotMatchingTag | MatchingAnyTag | Other

  /** What removeRecursively() does, as far as it is modelled. */
  datatype RecursiveOutcome =
    | Finished(ok: bool)   // returned this boolean
    | DirectoryWalk        // walked the directory; the code after the walk is not followed

  /** The stored tag index, or false when there is none. */
  function StoredIndex(c: InnerCache?): Option<Index>
    reads c
  {
    if c != null && InnerCacheName in c.entries then Some(c.entries[InnerCacheName]) else None
  }

  /** PHP truthiness of what the inner cache returned: a non-empty array. */
  predicate Truthy(stored: Option<Index>)
  {
    stored.Some? && stored.value != map[]
  }

  /** $_tagged after save()'s hydration: the stored index when truthy, otherwise an empty one. */
  function HydratedForSave(tagged: Option<Index>, stored: Option<Index>): Index
  {
    if tagged.Some? then tagged.value else if Truthy(stored) then stored.value else map[]
  }

  /**
    $_tagged after the hydration of the two tag-matching modes: assigned only
    when the stored index is truthy, so it may stay null.
   */
  function HydratedForMatching(tagged: Option<Index>, stored: Option<Index>): Option<Index>
  {
    if tagged.Some? then tagged else if Truthy(stored) then stored else None
  }

  /**
    $_tagged after the hydration of ALL and NOT_MATCHING_TAG: whatever load()
    returned; its false behaves as an empty index everywhere it is read.
   */
  function HydratedForSweep(tagged: Option<Index>, stored: Option<Index>): Index
  {
    if tagged.Some? then tagged.value else if stored.Some? then stored.value else map[]
  }

  class Backend {
    /** The option table; public_dir and friends are fixed once the backend is built. */
    const options: Options
    const fs: FileSystem
    /** $_tagCache. */
    var tagCache: InnerCache?
    /** $_options['tag_cache'], kept beside $_tagCache by setInnerCache(). */
    var tagCacheOption: InnerCache?
    /** $_tagged: null until hydrated. */
    var tagged: Option<Index>

    /**
      The index is only ever hydrated through getInnerCache(), and
      setInnerCache() accepts no null, so a hydrated index has an inner cache.
     */
    ghost predicate Valid()
      reads this
    {
      tagged.Some? ==> tagCache != null
    }

    constructor (options: Options, fs: FileSystem)
      ensures Valid()
      ensures this.options == options && this.fs == fs
      ensures tagCache == null && tagCacheOption == null && tagged == None
    {
      this.options := options;
      this.fs := fs;
      tagCache := null;
      tagCacheOption := null;
      tagged := None;
    }

    /** _verifyPath($id) against this backend's public_dir. */
    predicate VerifiesPath(id: string)
    {
      VerifyPath(fs.realpath, options.publicDir, id)
    }

    /** The cache files of a set of ids. */
    function FilesOf(ids: set<string>): set<string>
    {
      set id | id in ids :: FilePath(options, id)
    }

    /** Deleting one more id's file from what is left after deleting a set of ids' files. */
    lemma RemoveOneMoreFile(m: map<string, Bytes>, ids: set<string>, id: string)
      ensures (m - FilesOf(ids)) - {FilePath(options, id)} == m - FilesOf(ids + {id})
    {
      assert FilesOf({id}) == {FilePath(options, id)};
      RemoveMoreFiles(m, ids, {id});
    }

    /** Deleting the files of two sets of ids one after the other deletes those of their union. */
    lemma RemoveMoreFiles(m: map<string, Bytes>, ids: set<string>, more: set<string>)
      ensures (m - FilesOf(ids)) - FilesOf(more) == m - FilesOf(ids + more)
    {
      assert FilesOf(ids + more) == FilesOf(ids) + FilesOf(more);
    }

    /** setInnerCache(). */
    method SetInnerCache(cache: InnerCache)
      modifies this
      ensures tagCache == cache && tagCacheOption == cache
      ensures tagged == old(tagged)
      ensures Valid()
    {
      tagCache := cache;
      tagCacheOption := cache;
    }

    /** getInnerCache(): the inner cache, or the exception when none was set. */
    method GetInnerCache() returns (r: Result<InnerCache>)
      ensures tagCache == null ==> r == Failure(MissingInnerCache)
      ensures tagCache != null ==> r == Success(tagCache)
    {
      if tagCache == null {
        r := Failure(MissingInnerCache);
      } else {
        r := Success(tagCache);
      }
    }

    /** getInnerCache()->load(INNER_CACHE_NAME). */
    method LoadStored() returns (r: Result<Option<Index>>)
      ensures tagCache == null ==> r == Failure(MissingInnerCache)
      ensures tagCache != null ==> r == Success(StoredIndex(tagCache))
    {
      var cache := GetInnerCache();
      if cache.Failure? {
        return Failure(cache.error);
      }
      var stored := cache.value.Load(InnerCacheName);
      r := Success(stored);
    }

    /**
      load(): an empty() id is replaced by the request URI; an id refused by
      _verifyPath throws; otherwise the cache file's contents, or false.
     */
    method Load(id: string, requestUri: string) returns (r: Result<Option<Bytes>>)
      ensures var key := if PhpEmpty(id) then requestUri else id;
              var file := FilePath(options, key);
              r == if !VerifiesPath(key) then Failure(InvalidCacheId)
                   else if file in fs.files then Success(Some(fs.files[file]))
                   else Success(None)
    {
      var key := if PhpEmpty(id) then requestUri else id;
      if !VerifiesPath(key) {
        return Failure(InvalidCacheId);
      }
      var file := FilePath(options, key);
      if fs.Exists(file) {
        var content := fs.GetContents(file);
        return Success(content);
      }
      r := Success(None);
    }

    /** test(): whether the cache file (or a directory by its name) exists. */
    method Test(id: string) returns (r: Result<bool>)
      ensures !VerifiesPath(id) ==> r == Failure(InvalidCacheId)
      ensures VerifiesPath(id) ==> r == Success(fs.Exists(FilePath(options, id)))
    {
      if !VerifiesPath(id) {
        return Failure(InvalidCacheId);
      }
      r := Success(fs.Exists(FilePath(options, id)));
    }

    /**
      save(): an empty id is replaced by the request URI (no _verifyPath
      check); the page is written (WritePage); with tags, the id's tag list is
      merged and the index persisted once (IndexTags). When the detected id is
      empty too, the data is first unserialized, which the parameter
      `unserializeData` stands for.
     */
    method Save(data: Bytes, id: string, tags: Tags, requestUri: string, unserializeData: Bytes -> Bytes)
      returns (r: Result<bool>)
      requires Valid()
      modifies this`tagged, fs`files, fs`dirs, tagCache
      ensures Valid()
      ensures var key := if id == [] then requestUri else id;
              var payload := if key == [] then unserializeData(data) else data;
              && PageWritten(key, payload)
              && (r.Success? ==> r.value == PutSucceeds(key, payload))
      ensures |tags| == 0 ==> r.Success? && tagged == old(tagged)
      ensures |tags| == 0 && tagCache != null ==> unchanged(tagCache)
      ensures |tags| > 0 ==> TagsIndexed(if id == [] then requestUri else id, tags, r.Success?)
      ensures |tags| > 0 ==> (r.Failure? ==> r.error == MissingInnerCache)
    {
      var key := if id == [] then requestUri else id;
      var payload := if key == [] then unserializeData(data) else data;
      var ok := WritePage(key, payload);
      if |tags| > 0 {
        var indexed := IndexTags(key, tags);
        if indexed.Failure? {
          return Failure(indexed.error);
        }
      }
      r := Success(ok);
    }

    /** Whether file_put_contents() on the id's cache file, in the state before save(), writes. */
    twostate predicate PutSucceeds(key: string, payload: Bytes)
      reads fs
    {
      var file := FilePath(options, key);
      file !in old(fs.dirs) && file !in old(fs.readOnly) && |payload| > 0
    }

    /** The file-system effect of save(): the directory made when missing, the page written when possible. */
    twostate predicate PageWritten(key: string, payload: Bytes)
      reads fs
    {
      var pathName, file := PathName(options, key), FilePath(options, key);
      var writable := file !in old(fs.dirs) && file !in old(fs.readOnly);
      && fs.dirs == (if old(fs.Exists(pathName)) then old(fs.dirs) else old(fs.dirs) + {pathName})
      && fs.files == (if writable then old(fs.files)[file := payload] else old(fs.files))
      && fs.readOnly == old(fs.readOnly)
    }

    /**
      The index effect of save() with tags: without an index and without an
      inner cache it throws and changes nothing; otherwise the hydrated index
      gets the merged tag list for the id and is persisted once.
     */
    twostate predicate TagsIndexed(key: string, tags: Tags, succeeded: bool)
      reads this, tagCache
    {
      if old(tagged).None? && old(tagCache) == null then
        !succeeded && tagged == old(tagged)
      else
        var index := AddTags(HydratedForSave(old(tagged), old(StoredIndex(tagCache))), key, tags);
        && succeeded
        && tagged == Some(index)
        && tagCache == old(tagCache) && tagCache != null
        && tagCache.entries == old(tagCache.entries)[InnerCacheName := index]
        && tagCache.log == old(tagCache.log) + [(InnerCacheName, index)]
    }

    /** The mkdir() and file_put_contents() half of save(); true when bytes were written. */
    method WritePage(key: string, payload: Bytes) returns (ok: bool)
      modifies fs`files, fs`dirs
      ensures PageWritten(key, payload)
      ensures ok == PutSucceeds(key, payload)
    {
      var pathName := PathName(options, key);
      if !fs.Exists(pathName) {
        var _ := fs.Mkdir(pathName);
      }
      var file := FilePath(options, key);
      FileBelowPathName(options, key);
      var written := fs.PutContents(file, payload);
      ok := written.Some? && written.value > 0;
    }

    /** The tag half of save(): hydrate $_tagged, merge the id's tags, persist. */
    method IndexTags(key: string, tags: Tags) returns (r: Result<()>)
      requires Valid()
      modifies this`tagged, tagCache
      ensures Valid()
      ensures TagsIndexed(key, tags, r.Success?)
      ensures r.Failure? ==> r.error == MissingInnerCache
    {
      if tagged.None? {
        var stored := LoadStored();
        if stored.Failure? {
          return Failure(stored.error);
        }
        if Truthy(stored.value) {
          tagged := stored.value;
        }
      }
      if tagged.None? {
        tagged := Some(map[]);
      }
      tagged := Some(AddTags(tagged.value, key, tags));
      tagCache.Save(tagged.value, InnerCacheName);
      r := Success(());
    }

    /** remove(): deletes the id's cache file; false when there is no such file. */
    method Remove(id: string) returns (r: Result<bool>)
      modifies fs`files
      ensures !VerifiesPath(id) ==> r == Failure(InvalidCacheId) && fs.files == old(fs.files)
      ensures VerifiesPath(id) ==>
                && r == Success(FilePath(options, id) in old(fs.files))
                && fs.files == old(fs.files) - {FilePath(options, id)}
    {
      if !VerifiesPath(id) {
        return Failure(InvalidCacheId);
      }
      var file := FilePath(options, id);
      if !fs.Exists(file) {
        return Success(false);
      }
      var ok := fs.Unlink(file);
      r := Success(ok);
    }

    /**
      removeRecursively(). When a writable directory is named after the id,
      every regular file directly inside it is unlinked (DirectoryIterator
      order is left open); a regular file at that path makes the iterator
      throw. What follows the walk is not modelled: the result DirectoryWalk
      stands for it.
     */
    method RemoveRecursively(id: string) returns (r: Result<RecursiveOutcome>)
      modifies fs`files
      ensures !VerifiesPath(id) ==> r == Failure(InvalidCacheId) && fs.files == old(fs.files)
      ensures VerifiesPath(id) ==>
                var directory, file := DirectoryPath(options, id), FilePath(options, id);
                if old(fs.Exists(directory)) then
                  if !old(fs.IsWritable(directory)) then
                    r == Success(Finished(false)) && fs.files == old(fs.files)
                  else if directory !in fs.dirs then
                    r == Failure(NotADirectory) && fs.files == old(fs.files)
                  else
                    r == Success(DirectoryWalk) && fs.files == old(fs.files) - FilesIn(old(fs.files), directory)
                else if !old(fs.Exists(file)) then
                  r == Success(Finished(true)) && fs.files == old(fs.files)
                else if !old(fs.IsWritable(file)) then
                  r == Success(Finished(false)) && fs.files == old(fs.files)
                else
                  r == Success(Finished(file in old(fs.files))) && fs.files == old(fs.files) - {file}
    {
      if !VerifiesPath(id) {
        return Failure(InvalidCacheId);
      }
      var file := FilePath(options, id);
      var directory := DirectoryPath(options, id);
      if fs.Exists(directory) {
        if !fs.IsWritable(directory) {
          return Success(Finished(false));
        }
        if directory !in fs.dirs {
          return Failure(NotADirectory);
        }
        var entries := fs.ListFiles(directory);
        ghost var listed := entries;
        while entries != {}
          invariant entries <= listed <= old(fs.files).Keys
          invariant fs.files == old(fs.files) - (listed - entries)
          decreases entries
        {
          var entry :| entry in entries;
          var ok := fs.Unlink(entry);
          // the file is still there, so removeRecursively's early `return false` (Static.php:273) is never taken
          assert ok;
          assert listed - (entries - {entry}) == (listed - entries) + {entry};
          entries := entries - {entry};
        }
        return Success(DirectoryWalk);
      }
      if fs.Exists(file) {
        if !fs.IsWritable(file) {
          return Success(Finished(false));
        }
        var ok := fs.Unlink(file);
        return Success(Finished(ok));
      }
      r := Success(Finished(true));
    }

    /**
      One pass of clean() over a snapshot of the index's ids: every id the
      rule selects is remove()d and unset. The order of array_keys is left
      open. A remove() that throws stops the pass.
     */
    method Sweep(rule: SweepRule) returns (r: Result<()>)
      requires tagged.Some?
      modifies this`tagged, fs`files
      ensures var before := old(tagged.value);
              && (r.Success? <==> forall id :: id in Selected(before, rule) ==> VerifiesPath(id))
              && (r.Failure? ==> r.error == InvalidCacheId)
              && (r.Success? ==> tagged == Some(Swept(before, rule))
                                 && fs.files == old(fs.files) - FilesOf(Selected(before, rule)))
              && tagged.Some? && tagged.value.Keys <= before.Keys
    {
      ghost var before := tagged.value;
      var pending := tagged.value.Keys;
      while pending != {}
        invariant pending <= before.Keys
        invariant tagged == Some(PartlySwept(before, rule, pending))
        invariant fs.files == old(fs.files) - FilesOf(PartlySelected(before, rule, pending))
        invariant forall id :: id in PartlySelected(before, rule, pending) ==> VerifiesPath(id)
        decreases pending
      {
        var url :| url in pending;
        SweepProgress(before, rule, pending, url);
        if Selects(rule, tagged.value[url]) {
          var removed := Remove(url);
          if removed.Failure? {
            return Failure(removed.error);
          }
          RemoveOneMoreFile(old(fs.files), PartlySelected(before, rule, pending), url);
          tagged := Some(tagged.value - {url});
        }
        pending := pending - {url};
      }
      r := Success(());
    }

    /** clean(): dispatches on the mode. */
    method Clean(mode: CleanMode, tags: Tags) returns (r: Result<bool>)
      requires Valid()
      modifies this`tagged, fs`files, tagCache
      ensures Valid()
      ensures mode == Old ==> r == Success(false)
      ensures mode == Other ==> r == Failure(InvalidCleanMode)
      ensures mode in {MatchingTag, MatchingAnyTag, NotMatchingTag} && tags == [] ==>
                r == Failure(NoTagsDefined)
      ensures mode in {Old, Other} || (mode in {MatchingTag, MatchingAnyTag, NotMatchingTag} && tags == []) ==>
                && tagged == old(tagged) && fs.files == old(fs.files)
                && (tagCache != null ==> unchanged(tagCache))
      ensures mode == All ==> CleanedAll(r)
      ensures mode in {MatchingTag, MatchingAnyTag} && tags != [] ==> CleanedMatching(tags, r)
      ensures mode == NotMatchingTag && tags != [] ==> CleanedNotMatching(tags, r)
    {
      match mode
      case MatchingTag =>
        if tags == [] {
          return Failure(NoTagsDefined);
        }
        r := CleanMatching(tags);
      case MatchingAnyTag =>
        if tags == [] {
          return Failure(NoTagsDefined);
        }
        r := CleanMatching(tags);
      case All =>
        r := CleanAll();
      case Old =>
        r := Success(false);
      case NotMatchingTag =>
        if tags == [] {
          return Failure(NoTagsDefined);
        }
        r := CleanNotMatching(tags);
      case Other =>
        r := Failure(InvalidCleanMode);
    }

    /** The effect of clean(CLEANING_MODE_ALL). */
    twostate predicate CleanedAll(new r: Result<bool>)
      reads this, fs, tagCache
    {
      if old(tagged).None? && old(tagCache) == null then
        r == Failure(MissingInnerCache) && tagged == old(tagged) && fs.files == old(fs.files)
      else
        var before := HydratedForSweep(old(tagged), old(StoredIndex(tagCache)));
        && tagCache == old(tagCache) && tagCache != null
        && if before == map[] then
             r == Success(true) && tagged == Some(map[]) && fs.files == old(fs.files) && unchanged(old(tagCache))
           else
             && (r.Success? <==> forall id :: id in before ==> VerifiesPath(id))
             && (r.Failure? ==> r.error == InvalidCacheId && unchanged(old(tagCache)))
             && (r.Success? ==>
                   && r.value
                   && tagged == Some(map[])
                   && fs.files == old(fs.files) - FilesOf(before.Keys)
                   && tagCache.entries == old(tagCache.entries)[InnerCacheName := map[]]
                   && tagCache.log == old(tagCache.log) + [(InnerCacheName, map[])])
    }

    /** The effect of clean(CLEANING_MODE_MATCHING_TAG or _MATCHING_ANY_TAG, tags). */
    twostate predicate CleanedMatching(tags: Tags, new r: Result<bool>)
      reads this, fs, tagCache
    {
      if old(tagged).None? && old(tagCache) == null then
        r == Failure(MissingInnerCache) && tagged == old(tagged) && fs.files == old(fs.files)
      else
        var hydrated := HydratedForMatching(old(tagged), old(StoredIndex(tagCache)));
        && tagCache == old(tagCache) && tagCache != null
        && if hydrated.None? || hydrated.value == map[] then
             r == Success(true) && tagged == hydrated && fs.files == old(fs.files) && unchanged(old(tagCache))
           else
             var before := hydrated.value;
             && (r.Success? <==> forall id :: id in Matched(before, tags) ==> VerifiesPath(id))
             && (r.Failure? ==> r.error == InvalidCacheId && unchanged(old(tagCache)))
             && (r.Success? ==>
                   && r.value
                   && tagged == Some(Unmatched(before, tags))
                   && fs.files == old(fs.files) - FilesOf(Matched(before, tags).Keys)
                   && tagCache.entries == old(tagCache.entries)[InnerCacheName := Unmatched(before, tags)]
                   && tagCache.log == old(tagCache.log) + [(InnerCacheName, Unmatched(before, tags))])
    }

    /** The effect of clean(CLEANING_MODE_NOT_MATCHING_TAG, tags). */
    twostate predicate CleanedNotMatching(tags: Tags, new r: Result<bool>)
      reads this, fs, tagCache
    {
      if old(tagged).None? && old(tagCache) == null then
        r == Failure(MissingInnerCache) && tagged == old(tagged) && fs.files == old(fs.files)
      else
        var before := HydratedForSweep(old(tagged), old(StoredIndex(tagCache)));
        && tagCache == old(tagCache) && tagCache != null
        && if before == map[] then
             r == Success(true) && tagged == Some(map[]) && fs.files == old(fs.files) && unchanged(old(tagCache))
           else
             && (r.Success? <==> forall id :: id in Unmatched(before, tags) ==> VerifiesPath(id))
             && (r.Failure? ==> r.error == InvalidCacheId && unchanged(old(tagCache)))
             && (r.Success? ==>
                   && r.value
                   && tagged == Some(Matched(before, tags))
                   && fs.files == old(fs.files) - FilesOf(Unmatched(before, tags).Keys)
                   && tagCache.entries == old(tagCache.entries)[InnerCacheName := Matched(before, tags)]
                   && tagCache.log == old(tagCache.log) + [(InnerCacheName, Matched(before, tags))])
    }

    /** clean(CLEANING_MODE_ALL): unset and remove every indexed id, then persist the empty index. */
    method CleanAll() returns (r: Result<bool>)
      requires Valid()
      modifies this`tagged, fs`files, tagCache
      ensures Valid()
      ensures CleanedAll(r)
    {
      if tagged.None? {
        var stored := LoadStored();
        if stored.Failure? {
          return Failure(stored.error);
        }
        tagged := Some(HydratedForSweep(None, stored.value));
      }
      if tagged.value == map[] {
        return Success(true);
      }
      var swept := Sweep(Everything);
      if swept.Failure? {
        return Failure(swept.error);
      }
      SweepEverything(old(HydratedForSweep(tagged, StoredIndex(tagCache))));
      tagCache.Save(tagged.value, InnerCacheName);
      r := Success(true);
    }

    /**
      clean(CLEANING_MODE_MATCHING_TAG / _MATCHING_ANY_TAG): one sweep per
      requested tag, each over what the earlier ones left, then persist.
     */
    method CleanMatching(tags: Tags) returns (r: Result<bool>)
      requires Valid()
      requires tags != []
      modifies this`tagged, fs`files, tagCache
      ensures Valid()
      ensures CleanedMatching(tags, r)
    {
      if tagged.None? {
        var stored := LoadStored();
        if stored.Failure? {
          return Failure(stored.error);
        }
        if Truthy(stored.value) {
          tagged := stored.value;
        }
      }
      if tagged.None? || tagged.value == map[] {
        return Success(true);
      }
      var swept := SweepTags(tags);
      if swept.Failure? {
        return Failure(swept.error);
      }
      tagCache.Save(tagged.value, InnerCacheName);
      r := Success(true);
    }

    /**
      The loops of the tag-matching modes: for each requested tag in turn, a
      sweep of the ids carrying it. Together they remove exactly the ids that
      share a tag with the request.
     */
    method SweepTags(tags: Tags) returns (r: Result<()>)
      requires tagged.Some?
      modifies this`tagged, fs`files
      ensures var before := old(tagged.value);
              && (r.Success? <==> forall id :: id in Matched(before, tags) ==> VerifiesPath(id))
              && (r.Failure? ==> r.error == InvalidCacheId)
              && (r.Success? ==> tagged == Some(Unmatched(before, tags))
                                 && fs.files == old(fs.files) - FilesOf(Matched(before, tags).Keys))
              && tagged.Some?
    {
      ghost var before := tagged.value;
      UnmatchedNothing(before);
      assert Matched(before, tags[..0]).Keys == {};
      assert old(fs.files) - FilesOf({}) == old(fs.files);
      for i := 0 to |tags|
        invariant tagged == Some(Unmatched(before, tags[..i]))
        invariant fs.files == old(fs.files) - FilesOf(Matched(before, tags[..i]).Keys)
        invariant forall id :: id in Matched(before, tags[..i]) ==> VerifiesPath(id)
      {
        ghost var filesBefore := fs.files;
        var swept := Sweep(HasTag(tags[i]));
        ghost var selected := Selected(Unmatched(before, tags[..i]), HasTag(tags[i]));
        if swept.Failure? {
          ghost var id :| id in selected && !VerifiesPath(id);
          SelectedByTagIsMatched(before, tags, i, id);
          return Failure(swept.error);
        }
        SweepStep(before, tags, i);
        MatchedStep(before, tags, i);
        RemoveMoreFiles(old(fs.files), Matched(before, tags[..i]).Keys, selected);
      }
      assert tags[..|tags|] == tags;
      r := Success(());
    }

    /** clean(CLEANING_MODE_NOT_MATCHING_TAG): remove and unset every id sharing no tag with the request. */
    method CleanNotMatching(tags: Tags) returns (r: Result<bool>)
      requires Valid()
      requires tags != []
      modifies this`tagged, fs`files, tagCache
      ensures Valid()
      ensures CleanedNotMatching(tags, r)
    {
      if tagged.None? {
        var stored := LoadStored();
        if stored.Failure? {
          return Failure(stored.error);
        }
        tagged := Some(HydratedForSweep(None, stored.value));
      }
      if tagged.value == map[] {
        return Success(true);
      }
      ghost var before := tagged.value;
      NotMatchingKeepsMatched(before, tags);
      var swept := Sweep(SharesNone(tags));
      if swept.Failure? {
        return Failure(swept.error);
      }
      tagCache.Save(tagged.value, InnerCacheName);
      r := Success(true);
    }
  }
}
