/**
  The two stores the backend works against: the directory tree under
  public_dir, as the PHP file functions see it, and the inner cache
  (a Zend_Cache_Core) that holds the tag index.
 */
module Storage {
  import opened Common
  import opened Tagging

  /**
    The file system: regular files with their contents, directories, and the
    paths is_writable() refuses. realpath() is a fixed canonicalisation the
    model does not look into.
   */
  class FileSystem {
    var files: map<string, Bytes>
    var dirs: set<string>
    var readOnly: set<string>
    const realpath: string -> Option<string>

    constructor (realpath: string -> Option<string>, files: map<string, Bytes>, dirs: set<string>, readOnly: set<string>)
      ensures this.realpath == realpath && this.files == files
      ensures this.dirs == dirs && this.readOnly == readOnly
    {
      this.realpath := realpath;
      this.files := files;
      this.dirs := dirs;
      this.readOnly := readOnly;
    }

    /** file_exists(): a file or a directory. */
    predicate Exists(p: string)
      reads this
    {
      p in files || p in dirs
    }

    /** is_writable(): the path exists and is not write-protected. */
    predicate IsWritable(p: string)
      reads this
    {
      Exists(p) && p !in readOnly
    }

    /** file_get_contents(): the contents of a regular file, false for anything else. */
    method GetContents(p: string) returns (r: Option<Bytes>)
      ensures p in files ==> r == Some(files[p])
      ensures p !in files ==> r == None
    {
      if p in files {
        r := Some(files[p]);
      } else {
        r := None;
      }
    }

    /**
      file_put_contents(): replaces the file's contents and returns the number of
      bytes written, or false when the path is a directory or write-protected.
     */
    method PutContents(p: string, data: Bytes) returns (r: Option<nat>)
      modifies this`files
      ensures p in dirs || p in readOnly ==> r == None && files == old(files)
      ensures !(p in dirs || p in readOnly) ==> r == Some(|data|) && files == old(files)[p := data]
    {
      if p in dirs || p in readOnly {
        r := None;
      } else {
        files := files[p := data];
        r := Some(|data|);
      }
    }

    /** mkdir(): creates the directory unless something already exists there. */
    method Mkdir(p: string) returns (ok: bool)
      modifies this`dirs
      ensures ok == !old(Exists(p))
      ensures dirs == if ok then old(dirs) + {p} else old(dirs)
    {
      ok := !Exists(p);
      if ok {
        dirs := dirs + {p};
      }
    }

    /**
      A DirectoryIterator over d, keeping the entries whose isFile() holds:
      the regular files directly inside d.
     */
    method ListFiles(d: string) returns (r: set<string>)
      ensures r == FilesIn(files, d)
    {
      r := set p | p in files && InDirectory(d, p);
    }

    /** unlink(): deletes a regular file; fails on a directory or a missing path. */
    method Unlink(p: string) returns (ok: bool)
      modifies this`files
      ensures ok == (p in old(files))
      ensures files == old(files) - {p}
    {
      ok := p in files;
      files := files - {p};
    }
  }

  /** p is d . '/' . a name that contains no '/': an entry directly inside directory d. */
  predicate InDirectory(d: string, p: string)
  {
    |p| > |d| + 1 && p[..|d| + 1] == d + "/" && '/' !in p[|d| + 1..]
  }

  /** The regular files directly inside directory d. */
  function FilesIn(files: map<string, Bytes>, d: string): set<string>
  {
    set p | p in files && InDirectory(d, p)
  }

  /**
    The inner cache as the backend uses it: a key-value store of tag indexes.
    The ghost log records every save, so that a caller can say how often the
    index was persisted.
   */
  class InnerCache {
    var entries: map<string, Index>
    ghost var log: seq<(string, Index)>

    constructor (entries: map<string, Index>)
      ensures this.entries == entries && log == []
    {
      this.entries := entries;
      log := [];
    }

    /** Zend_Cache_Core::load(): the stored value, or false when there is none. */
    method Load(key: string) returns (r: Option<Index>)
      ensures key in entries ==> r == Some(entries[key])
      ensures key !in entries ==> r == None
    {
      if key in entries {
        r := Some(entries[key]);
      } else {
        r := None;
      }
    }

    /** Zend_Cache_Core::save(): stores the value under the key. */
    method Save(value: Index, key: string)
      modifies this
      ensures entries == old(entries)[key := value]
      ensures log == old(log) + [(key, value)]
    {
      entries := entries[key := value];
      log := log + [(key, value)];
    }
  }
}
