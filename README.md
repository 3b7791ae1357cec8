# Zend_Cache_Backend_Static in Dafny

This project models the static-page cache backend of Zend Framework 1,
`Zend_Cache_Backend_Static`. The backend stores each page as a file under
`public_dir`, named after the request path. It also keeps a tag index that
maps each cache id to its tags, and it persists that index in an inner cache.

The model has eight modules:

- `Common`: bytes, `Option`, `Result`, the exceptions the backend throws, and PHP's `empty()` on strings.
- `PhpPath`: PHP's `basename()` and `dirname()` on Unix paths. `dirname` follows `zend_dirname`.
- `Resolver`: the option table and the id-to-file mapping. `load`, `test`, `save`, `remove` and `removeRecursively` each repeat this mapping. The module also models the containment check `_verifyPath`, with `strncmp` made explicit and `realpath` as an uninterpreted function.
- `Validation`: `_validateIdOrTag`. Its URL-path regular expression is written as a character scan and proved equal to a position-wise reference definition.
- `Octal`: `_octdec`, with PHP's `decoct`/`octdec` and the loose string comparison of its guard.
- `Tagging`: the tag index as a value. It covers the `array_unique(array_merge(...))` merge done by `save`, and the selections `clean` makes: ALL, MATCHING_TAG / MATCHING_ANY_TAG and NOT_MATCHING_TAG.
- `Storage`: the file system as a map of files plus a set of directories, and the inner cache as a key-value store. Both are classes whose methods update them in place.
- `StaticBackend`: the backend class. Its fields are `$_tagCache`, `$_options['tag_cache']` and `$_tagged`, and it has the public operations.
  - `clean` is proved against the `Tagging` functions. Its loop runs over a snapshot of the index's keys, calls `remove` on each selected id and unsets it.
  - The loop visits ids in an order left open, so every proved property holds for any order of `array_keys`.

`_verifyPath` is modelled as written. It passes exactly when the string
`realpath(public_dir)` is NOT a prefix of the string `realpath(id)`, where a
`realpath` that fails reads as the empty string. So `load`, `test`, `remove`
and `removeRecursively` throw:

- for every id that canonicalises inside the root;
- for an id outside the root whose canonical path merely starts with the root's string, such as `/var/www2/x` against `/var/www`;
- for every id when `public_dir` itself does not resolve.

An id that resolves elsewhere passes, and so does an id that does not resolve
at all, as long as the root resolves. `save` performs no check.

The model follows the code, also where the code does less or more than its
documentation and names suggest:

- `basename("/docs/")` is `docs` in PHP. A trailing slash therefore does not bring in `index_filename`: only the empty id, all-slash ids and the base name `"0"` (PHP `empty()`) do.
- `save` calls neither `_verifyPath` nor `_validateIdOrTag`. In fact nothing in this file calls `_validateIdOrTag`.
- `_validateIdOrTag` rejects the empty string, because the pattern needs at least one `/`. Because PCRE's `$` also matches before a final newline, the pattern also accepts a valid path followed by one `"\n"`.
- The docblock of `clean` (`Zend/Cache/Backend/Static.php:294`) says CLEANING_MODE_MATCHING_TAG removes the entries matching all given tags. The code removes every id that carries any one of the tags, exactly as MATCHING_ANY_TAG does.

## Model

| member | source | states |
|---|---|---|
| PhpPath.Basename | Zend/Cache/Backend/Static.php:128 | PHP basename() on a Unix path: trailing slashes dropped, then the last component; BasenameShape, TrailingSlashIgnored and SplitJoin state its properties |
| PhpPath.Dirname | Zend/Cache/Backend/Static.php:132 | zend_dirname(): "" for the empty id, "/" for an all-slash id or one at the root, "." for a slash-free id, otherwise the path before the last component with its trailing slashes dropped; SplitJoin, RootLevelSplit and RelativeName state its properties |
| PhpPath.StripShape | Zend/Cache/Backend/Static.php:128 | stripping trailing slashes leaves a prefix that does not end in '/', and removes only slashes |
| PhpPath.LastComponentShape | Zend/Cache/Backend/Static.php:128 | the last component is a suffix with no '/', preceded by '/' unless it is the whole string |
| PhpPath.StripAllSlashes | Zend/Cache/Backend/Static.php:128-132 | stripping gives the empty string exactly for all-slash paths |
| PhpPath.BasenameShape | Zend/Cache/Backend/Static.php:128 | basename never contains '/', and it is empty exactly when the id is all slashes (or empty) |
| PhpPath.TrailingSlashIgnored | Zend/Cache/Backend/Static.php:128-132 | a trailing '/' on a non-empty id changes neither basename nor dirname |
| PhpPath.SplitJoin | Zend/Cache/Backend/Static.php:128-132 | basename and dirname split `d/b` back into b and d |
| PhpPath.RootLevelSplit | Zend/Cache/Backend/Static.php:128-132 | `/b` splits into b and directory "/" |
| PhpPath.RelativeName | Zend/Cache/Backend/Static.php:128-132 | a slash-free id splits into itself and directory "." |
| PhpPath.LastComponentOfJoin | Zend/Cache/Backend/Static.php:128 | after a '/' (or at the start), a slash-free tail is the last component |
| Resolver.FileName | Zend/Cache/Backend/Static.php:128-131 | $fileName: basename(id), or index_filename when empty() holds of it; FileNameFallback states when |
| Resolver.PathName | Zend/Cache/Backend/Static.php:132 | $pathName: public_dir followed by dirname(id) |
| Resolver.FilePath | Zend/Cache/Backend/Static.php:133 | $file: $pathName . '/' . $fileName . file_extension; the FilePathOf lemmas below give its value per id shape |
| Resolver.DirectoryPath | Zend/Cache/Backend/Static.php:265 | $directory in removeRecursively: $pathName . '/' . $fileName |
| Resolver.FileNameFallback | Zend/Cache/Backend/Static.php:128-131 | index_filename replaces the base name exactly for all-slash ids and the base name "0" |
| Resolver.FilePathOfNestedId | Zend/Cache/Backend/Static.php:128-133 | id `d/b` maps to file public_dir + d + "/" + b + extension, and to directory public_dir + d + "/" + b |
| Resolver.FilePathOfTopLevelId | Zend/Cache/Backend/Static.php:154-159 | id `/b` maps to public_dir + "//" + b + extension |
| Resolver.AllSlashIdIsIndexFile | Zend/Cache/Backend/Static.php:185-200 | an all-slash id maps to the index file in directory "/" under public_dir |
| Resolver.TrailingSlashSameFile | Zend/Cache/Backend/Static.php:234-239 | `id/` and `id` name the same file and the same directory |
| Resolver.FileBelowPathName | Zend/Cache/Backend/Static.php:190-200 | the cache file path is strictly longer than the directory save creates |
| Resolver.Strncmp | Zend/Cache/Backend/Static.php:417 | binary-safe strncmp: the first differing byte within n decides, otherwise the lengths cut at n; StrncmpZeroIffPrefix states its zero case |
| Resolver.Canonical | Zend/Cache/Backend/Static.php:415-416 | realpath() as a string: the canonical path, or "" where realpath returns false |
| Resolver.VerifyPath | Zend/Cache/Backend/Static.php:413-418 | _verifyPath as written: strncmp of the two canonical paths over the root's length is non-zero; VerifyPathInverted states what that means |
| Resolver.StrncmpZeroIffPrefix | Zend/Cache/Backend/Static.php:417 | strncmp(a, b, strlen(b)) is 0 exactly when b is a prefix of a |
| Resolver.VerifyPathInverted | Zend/Cache/Backend/Static.php:413-418 | _verifyPath passes exactly when realpath(public_dir) is not a prefix of realpath(id) |
| Resolver.InsideRootRefused | Zend/Cache/Backend/Static.php:413-418 | an id that canonicalises inside public_dir is refused |
| Resolver.UnresolvedRootRefusesAll | Zend/Cache/Backend/Static.php:413-418 | when public_dir does not resolve, every id is refused |
| Resolver.UnresolvedIdPasses | Zend/Cache/Backend/Static.php:413-418 | an id that does not resolve passes whenever the root resolves to a non-empty path |
| Validation.ScanPath | Zend/Cache/Backend/Static.php:452 | the repeated group of the pattern: '/', path characters and %XX escapes, scanned left to right |
| Validation.IsUrlPath | Zend/Cache/Backend/Static.php:452 | the pattern without its end anchor: a non-empty string starting with '/' that ScanPath accepts |
| Validation.MatchesUrlPathPattern | Zend/Cache/Backend/Static.php:451-454 | preg_match with the pattern: a URL path, optionally followed by one final newline that PCRE's `$` lets through |
| Validation.ValidateIdOrTag | Zend/Cache/Backend/Static.php:439-458 | "internal-" strings return at once; other strings return when the pattern matches and throw otherwise; the lemmas below state which strings are accepted |
| Validation.ScanPathIsWellFormed | Zend/Cache/Backend/Static.php:451-453 | the character scan accepts exactly the strings in which every position is allowed |
| Validation.ShiftWellFormed | Zend/Cache/Backend/Static.php:452 | dropping an allowed first character or a leading %XX keeps well-formedness both ways |
| Validation.InternalIdsExempt | Zend/Cache/Backend/Static.php:446-448 | every string starting with "internal-" is accepted |
| Validation.AcceptedIsUrlPath | Zend/Cache/Backend/Static.php:451-457 | any other accepted string, without one optional final newline, is non-empty, starts with '/' and is well-formed |
| Validation.WellFormedAccepted | Zend/Cache/Backend/Static.php:451-457 | every well-formed string that starts with '/' is accepted |
| Validation.QueryAndFragmentRejected | Zend/Cache/Backend/Static.php:450-457 | a '?' or '#' anywhere rejects a non-internal string |
| Validation.NotUrlPathWithMarker | Zend/Cache/Backend/Static.php:452 | a string holding '?' or '#' does not match the path pattern |
| Validation.EmptyRejected | Zend/Cache/Backend/Static.php:451-457 | the empty string is rejected |
| Octal.DigitChar | Zend/Cache/Backend/Static.php:469 | the digit character of d below 8 is an octal digit whose value is d |
| Octal.Decoct | Zend/Cache/Backend/Static.php:469 | decoct gives a non-empty octal digit string without leading zeros |
| Octal.Octdec | Zend/Cache/Backend/Static.php:467-473 | an integer passes through; a string of 1 to 19 octal digits becomes its octal value |
| Octal.OctalValue | Zend/Cache/Backend/Static.php:469-470 | octdec() on a digit string: the base-8 value; OctalOfDecoct states that decoct inverts it |
| Octal.DecimalValue | Zend/Cache/Backend/Static.php:469 | the number a digit string denotes when == compares it as a numeric string |
| Octal.ZeroOctalIsZeroDecimal | Zend/Cache/Backend/Static.php:469 | a digit string of octal value 0 also reads as decimal 0 |
| Octal.DecoctOctdecLooselyEqual | Zend/Cache/Backend/Static.php:469 | decoct(octdec(s)) == s under PHP's numeric-string comparison, for every octal digit string s |
| Octal.OctalOfDecoct | Zend/Cache/Backend/Static.php:469 | octdec(decoct(n)) == n |
| Octal.DecoctLength | Zend/Cache/Backend/Static.php:469 | a number below 8^k has at most k octal digits |
| Octal.LeadingZeroIgnored | Zend/Cache/Backend/Static.php:469 | a leading '0' changes neither a digit string's octal value nor its being a digit string |
| Octal.LeadingZeroModeString | Zend/Cache/Backend/Static.php:467-473 | every option string written as '0' followed by a mode's octal digits (such as "0644") converts to that mode, for every mode below 8^18 |
| Octal.OctdecOfDecoct | Zend/Cache/Backend/Static.php:467-473 | _octdec(decoct(n)) is the mode n, for every n below 8^19 |
| Tagging.Unique | Zend/Cache/Backend/Static.php:217 | array_unique's result has no duplicates and the same elements as its input |
| Tagging.Diff | Zend/Cache/Backend/Static.php:363 | array_diff(a, b) holds exactly the entries of a not in b, and is no longer than a |
| Tagging.MergeTags | Zend/Cache/Backend/Static.php:217 | array_unique(array_merge(current, added)); MergeProperties and MergeAppendsNewTags state its content and order |
| Tagging.AddTags | Zend/Cache/Backend/Static.php:214-217 | the id gets a duplicate-free list of its old and new tags; every other id keeps its entry |
| Tagging.MergeProperties | Zend/Cache/Backend/Static.php:217 | the merged list has no duplicates and holds exactly the tags of both lists |
| Tagging.UniqueOfDistinct | Zend/Cache/Backend/Static.php:217 | array_unique leaves a duplicate-free list unchanged |
| Tagging.MergeAppendsNewTags | Zend/Cache/Backend/Static.php:217 | a duplicate-free tag list is kept and followed by the new tags not already present, once each, in order |
| Tagging.UniqueSnoc | Zend/Cache/Backend/Static.php:217 | appending a tag to the input of array_unique appends it to the output unless it is already present |
| Tagging.DiffSnoc | Zend/Cache/Backend/Static.php:363 | appending an entry to a extends array_diff(a, b) by it unless it is in b |
| Tagging.MergeStepKnownTag | Zend/Cache/Backend/Static.php:217 | an added tag already in the current list does not change the merge |
| Tagging.MergeStepNewTag | Zend/Cache/Backend/Static.php:217 | an added tag not in the current list is appended unless an earlier added tag equals it |
| Tagging.MergeIdempotent | Zend/Cache/Backend/Static.php:217 | saving the same tags twice leaves the list as the first save made it |
| Tagging.DiffEmptyWhenCovered | Zend/Cache/Backend/Static.php:363 | array_diff is empty when b covers a |
| Tagging.DiffFullIffDisjoint | Zend/Cache/Backend/Static.php:363-364 | count(array_diff(T, l)) == count(T) exactly when T and l share no tag |
| Tagging.Unmatched | Zend/Cache/Backend/Static.php:319-327 | the ids whose tag list shares no tag with the request: what the MATCHING_TAG loops leave; SweepStep states that |
| Tagging.Matched | Zend/Cache/Backend/Static.php:319-327 | the ids whose tag list shares a tag with the request; MatchedStep and MatchedUnmatchedPartition relate it to the sweeps |
| Tagging.Selects | Zend/Cache/Backend/Static.php:322 | the per-id test of one loop: always for ALL (340-342), in_array($tag, ...) for a matching tag, count($tags) == count(array_diff(...)) for NOT_MATCHING_TAG (363-364) |
| Tagging.Selected | Zend/Cache/Backend/Static.php:320-326 | the ids one loop removes; PartlySelected and SweepProgress connect it to the loop |
| Tagging.Swept | Zend/Cache/Backend/Static.php:320-326 | the index after one loop has unset every selected id; PartlySwept and SweepProgress connect it to the loop |
| Tagging.MatchedUnmatchedPartition | Zend/Cache/Backend/Static.php:319-368 | the ids sharing a tag with the request and the others split the index |
| Tagging.UnmatchedNothing | Zend/Cache/Backend/Static.php:319 | before any tag is swept, the whole index remains |
| Tagging.SweepStep | Zend/Cache/Backend/Static.php:319-327 | after the sweep for tags[i], the ids left are those sharing no tag with tags[..i+1] |
| Tagging.NotMatchingKeepsMatched | Zend/Cache/Backend/Static.php:361-368 | NOT_MATCHING_TAG keeps exactly the ids sharing a tag with the request, and removes the others |
| Tagging.SweepEverything | Zend/Cache/Backend/Static.php:339-343 | the ALL sweep removes every id |
| Tagging.PartlySwept | Zend/Cache/Backend/Static.php:320-326 | a sweep that has not started keeps the index, and a finished sweep is the full sweep |
| Tagging.PartlySelected | Zend/Cache/Backend/Static.php:320-326 | a sweep that has not started has removed nothing, and a finished sweep has removed exactly the selected ids |
| Tagging.SweepProgress | Zend/Cache/Backend/Static.php:321-325 | visiting one pending id removes it exactly when the rule selects it |
| Tagging.MatchedStep | Zend/Cache/Backend/Static.php:319-327 | the ids removed after tags[..i+1] are those removed after tags[..i] plus those the sweep for tags[i] selects |
| Tagging.SelectedByTagIsMatched | Zend/Cache/Backend/Static.php:319-325 | an id selected by one requested tag shares a tag with the request |
| Tagging.AddTagsAppends | Zend/Cache/Backend/Static.php:214-217 | save keeps the id's duplicate-free list and appends the new tags |
| Storage.FileSystem.GetContents | Zend/Cache/Backend/Static.php:135 | file_get_contents gives a regular file's contents, false for anything else |
| Storage.FileSystem.PutContents | Zend/Cache/Backend/Static.php:201-205 | file_put_contents writes and returns the byte count, or false on a directory or write-protected path |
| Storage.FileSystem.Mkdir | Zend/Cache/Backend/Static.php:191-193 | mkdir adds the directory exactly when nothing exists at that path |
| Storage.FileSystem.ListFiles | Zend/Cache/Backend/Static.php:269-270 | DirectoryIterator with isFile(): the regular files directly inside the directory |
| Storage.FileSystem.Unlink | Zend/Cache/Backend/Static.php:243 | unlink deletes the path and succeeds exactly when it was a regular file |
| Storage.InnerCache.Load | Zend/Cache/Backend/Static.php:209 | load gives the stored value, or false |
| Storage.InnerCache.Save | Zend/Cache/Backend/Static.php:218 | save stores the value under the key and logs exactly one save |
| StaticBackend.StoredIndex | Zend/Cache/Backend/Static.php:209 | getInnerCache()->load(INNER_CACHE_NAME): the stored index, or false when none is stored |
| StaticBackend.Truthy | Zend/Cache/Backend/Static.php:209 | PHP truthiness of that result: a non-empty array |
| StaticBackend.HydratedForSave | Zend/Cache/Backend/Static.php:209-213 | save's hydration: the loaded index when it is truthy, otherwise an empty array; an index already held is kept |
| StaticBackend.HydratedForMatching | Zend/Cache/Backend/Static.php:314-318 | the matching modes' hydration: assigned only from a truthy load, so the index may stay null, which makes clean return true |
| StaticBackend.HydratedForSweep | Zend/Cache/Backend/Static.php:332-337 | the hydration of ALL (and of NOT_MATCHING_TAG at lines 354-357): whatever load returned, false reading as an empty index |
| StaticBackend.Backend.constructor | Zend/Cache/Backend/Static.php:49-70 | no inner cache and no index yet |
| StaticBackend.Backend.RemoveMoreFiles | Zend/Cache/Backend/Static.php:340-342 | deleting the files of two id sets in turn deletes those of their union |
| StaticBackend.Backend.RemoveOneMoreFile | Zend/Cache/Backend/Static.php:340-342 | deleting one more id's file extends the deleted set by that id |
| StaticBackend.Backend.SetInnerCache | Zend/Cache/Backend/Static.php:388-392 | both $_tagCache and $_options['tag_cache'] become the cache; the index is untouched |
| StaticBackend.Backend.GetInnerCache | Zend/Cache/Backend/Static.php:399-405 | the inner cache, or the exception when none was set |
| StaticBackend.Backend.LoadStored | Zend/Cache/Backend/Static.php:209 | getInnerCache()->load(INNER_CACHE_NAME): the stored index, false, or the exception |
| StaticBackend.Backend.Load | Zend/Cache/Backend/Static.php:116-140 | an empty() id becomes the request URI; a refused id throws; otherwise the resolved file's contents, or false |
| StaticBackend.Backend.Test | Zend/Cache/Backend/Static.php:148-164 | a refused id throws; otherwise whether the resolved file exists |
| StaticBackend.Backend.Save | Zend/Cache/Backend/Static.php:178-221 | the page is written at the resolved path, and the result is true exactly when bytes were written; with tags the id's merged list is stored and persisted once; without tags the index is untouched; the only exception is a missing inner cache |
| StaticBackend.Backend.WritePage | Zend/Cache/Backend/Static.php:185-206 | the directory is created when missing, and the file is written unless it is a directory or write-protected |
| StaticBackend.Backend.IndexTags | Zend/Cache/Backend/Static.php:208-219 | the hydrated index gets AddTags for the id and is saved once to the inner cache, or the exception without an inner cache |
| StaticBackend.Backend.Remove | Zend/Cache/Backend/Static.php:229-244 | a refused id throws; otherwise the resolved file is deleted, and the result says whether it was a regular file |
| StaticBackend.Backend.RemoveRecursively | Zend/Cache/Backend/Static.php:254-275 | a refused id throws; a write-protected directory or file gives false; a writable directory loses exactly the regular files directly inside it, and a regular file in its place makes the walk throw; without a directory, a writable file is unlinked and nothing existing gives true |
| StaticBackend.Backend.Sweep | Zend/Cache/Backend/Static.php:320-326 | one pass over the index's ids: it succeeds exactly when every selected id passes _verifyPath; then the index is the swept index and exactly the selected ids' files are gone |
| StaticBackend.Backend.Clean | Zend/Cache/Backend/Static.php:305-377 | OLD gives false and unknown modes throw; tag modes with no tags throw before any change; MATCHING_TAG and MATCHING_ANY_TAG have the same effect |
| StaticBackend.Backend.CleanAll | Zend/Cache/Backend/Static.php:331-346 | an empty or missing index gives true with no effect; otherwise every indexed id's file is removed, and the index is emptied and persisted once |
| StaticBackend.Backend.CleanMatching | Zend/Cache/Backend/Static.php:309-330 | the index keeps exactly the ids sharing no tag with the request; the files deleted are exactly the files of the removed ids (a kept id loses its file only when it resolves to the same path, as "/x/0" and "/x/index" do); the index is persisted once |
| StaticBackend.Backend.SweepTags | Zend/Cache/Backend/Static.php:319-327 | the per-tag sweeps together remove exactly the ids sharing a tag with the request |
| StaticBackend.Backend.CleanNotMatching | Zend/Cache/Backend/Static.php:350-371 | exactly the ids sharing no tag with the request are unset and the rest stay in the index; the files deleted are exactly the files of the removed ids (a kept id loses its file only when it resolves to the same path); the index is persisted once |

## Left out

- `setOption` and `getOption` forward to the parent class `Zend_Cache_Backend`, which is not part of this model.
- `_detectId` reads `$_SERVER['REQUEST_URI']`. It is the `requestUri` parameter of `Load` and `Save`.
- `unserialize` in `save` is the function parameter `unserializeData`. PHP's serialization format is not modelled.
- The `_log` calls, the `$doNotTestCacheValidity` argument of `load` and the `$specificLifetime` argument of `save` have no effect on the model.
- File locking (`LOCK_EX`), `clearstatcache`, `chmod` and the permission mode passed to `mkdir` are not modelled. `_octdec` is modelled on its own.
- `realpath` is an uninterpreted function. Symlinks and `.`/`..` segments are not modelled, and paths are compared as plain strings, so `a//b` and `a/b` are different paths.
- StaticBackend.Backend.RemoveRecursively: for a top-level id such as `/b`, the directory checked is `public_dir//b` (`dirname("/b")` is `/`), while saving a child such as `/b/x` creates `public_dir/b`. PHP's file functions treat the two as one directory. The string-keyed file system does not, so for a top-level id the model never reaches the walk over the files its children's saves created: it finds no directory and goes on to the single cache file.
- StaticBackend.Backend.WritePage: for a top-level id, `$pathName` is `public_dir/`. PHP finds it to be `public_dir`, but the model's `file_exists` does not, so the model creates a directory `public_dir/` even when `public_dir` exists.
- `mkdir` with `recursive = true` creates only the requested directory, not its missing ancestors.
- `file_put_contents` does not check that the parent directory exists. Its failure causes are limited to a directory at the path or a write-protected path.
- `file_get_contents` on a directory is modelled as returning false.
- The inner cache (a `Zend_Cache_Core`) is a key-value map. Its own id validation, lifetimes and serialization are left out, and the result of its `save` is ignored, as the backend ignores it.
- PHP arrays turn numeric-string ids into integer keys, and `in_array` compares loosely. The model uses string keys and string equality.
- The `false` that `load()` returns when nothing is stored is kept by the ALL and NOT_MATCHING_TAG modes, and behaves as an empty array wherever it is read. The model stores an empty index in its place.
- The `Zend_Cache::CLEANING_MODE_*` constants are the constructors of `CleanMode`. Their string values and PHP's loose `switch` comparison are left out.
- Octal.Octdec: modelled only on integers and on strings of 1 to 19 octal digits. PHP integers are 64-bit: above PHP_INT_MAX `octdec` returns a float, `decoct` truncates, and the loose `==` compares floats, so the contract is not claimed for longer strings. Other strings depend on PHP's numeric-string parsing.
- Octal.OctdecOfDecoct: stated only for modes below 8^19, whose `decoct` has at most 19 digits, for the same reason.
- `_validateIdOrTag`'s `is_string` check always passes, because ids and tags are strings in the model.
- `Backend.Valid()` excludes a hydrated index without an inner cache. The index is hydrated only through `getInnerCache()`, and `setInnerCache` accepts no null, so that state cannot arise.
- StaticBackend.Backend.RemoveRecursively: after the directory walk the code calls `rmdir(dirname($path))` on an undefined `$path`, and then tests `file_exists($file)` with `$file` rebound to the iterator. The model stops after the walk with the result `DirectoryWalk`. It does not say what the method then returns or whether the cache file beside the directory is removed.
- StaticBackend.Backend.RemoveRecursively: unlinking a listed regular file always succeeds in the model, so the walk's early `return false` is never taken. Failures that PHP's `unlink` can meet (a file that vanishes meanwhile) are not modelled.
- StaticBackend.Backend.Sweep: when a `remove()` throws midway, the contract states only the error and that the index kept a subset of its ids. The ids and files already removed by then are not described.
- StaticBackend.Backend.SweepTags: when a `remove()` throws midway, the contract states only the error. The partial state is not described.
- StaticBackend.Backend.CleanAll: when a `remove()` throws midway, the contract states only the error and that nothing was persisted. The partial state is not described.
- StaticBackend.Backend.CleanMatching: when a `remove()` throws midway, the contract states only the error and that nothing was persisted. The partial state is not described.
- StaticBackend.Backend.CleanNotMatching: when a `remove()` throws midway, the contract states only the error and that nothing was persisted. The partial state is not described.
- The order in which `array_keys` lists the ids is left open, so the model does not say which ids were already removed when a `remove()` throws.
