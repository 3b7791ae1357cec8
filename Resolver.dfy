/**
  The backend's options, the id-to-file mapping that load, test, save, remove
  and removeRecursively each spell out, and the containment check _verifyPath.
 */
module Resolver {
  import opened Common
  import opened PhpPath
  import Octal

  /** The static backend's option table, except 'tag_cache' (held by the backend itself). */
  datatype Options = Options(
    publicDir: string,      // 'public_dir'; PHP null concatenates as ""
    subDir: string,         // 'sub_dir', read by nothing in the backend
    fileExtension: string,  // 'file_extension'
    indexFilename: string,  // 'index_filename'
    fileLocking: bool,      // 'file_locking'
    cacheFileUmask: Octal.Permission,  // 'cache_file_umask'
    debugHeader: bool)      // 'debug_header', read by nothing in the backend

  /** The option defaults; cache_file_umask is the PHP integer literal 0600. */
  function DefaultOptions(): Options
  {
    Options("", "html", ".html", "index", true, Octal.IntPerm(0x180), false)
  }

  /** $fileName: basename($id), or index_filename when PHP's empty() holds of it. */
  function FileName(opts: Options, id: string): string
  {
    var b := Basename(id);
    if PhpEmpty(b) then opts.indexFilename else b
  }

  /** $pathName: public_dir . dirname($id). */
  function PathName(opts: Options, id: string): string
  {
    opts.publicDir + Dirname(id)
  }

  /** $file: $pathName . '/' . $fileName . file_extension. */
  function FilePath(opts: Options, id: string): string
  {
    PathName(opts, id) + "/" + FileName(opts, id) + opts.fileExtension
  }

  /** $directory in removeRecursively: $pathName . '/' . $fileName. */
  function DirectoryPath(opts: Options, id: string): string
  {
    PathName(opts, id) + "/" + FileName(opts, id)
  }

  /** index_filename stands in exactly when the id is all slashes (or empty) or its base name is "0". */
  lemma FileNameFallback(opts: Options, id: string)
    ensures FileName(opts, id) == if AllSlashes(id) || Basename(id) == "0" then opts.indexFilename else Basename(id)
  {
    BasenameShape(id);
  }

  /** An id d/b with a non-empty directory part maps to public_dir + d + "/" + b + file_extension. */
  lemma FilePathOfNestedId(opts: Options, d: string, b: string)
    requires b != [] && '/' !in b && b != "0"
    requires d != [] && d[|d| - 1] != '/'
    ensures FilePath(opts, d + "/" + b) == opts.publicDir + d + "/" + b + opts.fileExtension
    ensures DirectoryPath(opts, d + "/" + b) == opts.publicDir + d + "/" + b
  {
    SplitJoin(d, b);
  }

  /** A top-level id "/b" maps to public_dir + "//" + b + file_extension (dirname is "/"). */
  lemma FilePathOfTopLevelId(opts: Options, b: string)
    requires b != [] && '/' !in b && b != "0"
    ensures FilePath(opts, "/" + b) == opts.publicDir + "//" + b + opts.fileExtension
  {
    RootLevelSplit(b);
  }

  /** An all-slash id such as "/" maps to the index file in directory "/" under public_dir. */
  lemma AllSlashIdIsIndexFile(opts: Options, id: string)
    requires id != [] && AllSlashes(id)
    ensures FilePath(opts, id) == opts.publicDir + "/" + "/" + opts.indexFilename + opts.fileExtension
  {
    BasenameShape(id);
    StripAllSlashes(id);
  }

  /** "/docs/" and "/docs" name the same file and the same directory: the base name is "docs". */
  lemma TrailingSlashSameFile(opts: Options, id: string)
    requires id != []
    ensures FilePath(opts, id + "/") == FilePath(opts, id)
    ensures DirectoryPath(opts, id + "/") == DirectoryPath(opts, id)
  {
    TrailingSlashIgnored(id);
  }

  /** The cache file lies strictly below the directory save() creates: the two paths differ. */
  lemma FileBelowPathName(opts: Options, id: string)
    ensures |FilePath(opts, id)| > |PathName(opts, id)|
  {
  }

  function Min(a: int, b: int): int
  {
    if a <= b then a else b
  }

  /**
    PHP strncmp($a, $b, $n), binary safe: the first difference within the
    first $n bytes decides, otherwise the lengths cut at $n do.
   */
  function Strncmp(a: string, b: string, n: nat): int
  {
    if n == 0 || a == [] || b == [] then Min(n, |a|) - Min(n, |b|)
    else if a[0] != b[0] then a[0] as int - b[0] as int
    else Strncmp(a[1..], b[1..], n - 1)
  }

  /** strncmp($a, $b, strlen($b)) is 0 exactly when $b is a prefix of $a. */
  lemma {:induction false} StrncmpZeroIffPrefix(a: string, b: string)
    ensures Strncmp(a, b, |b|) == 0 <==> b <= a
  {
    if b != [] && a != [] && a[0] == b[0] {
      StrncmpZeroIffPrefix(a[1..], b[1..]);
      assert b <= a <==> b[1..] <= a[1..];
    }
  }

  /** realpath($p) as strncmp reads it: a canonical path, or "" where realpath returns false. */
  function Canonical(realpath: string -> Option<string>, p: string): string
  {
    match realpath(p)
    case Some(c) => c
    case None => ""
  }

  /** _verifyPath($path), applied by the backend to the raw cache id. */
  function VerifyPath(realpath: string -> Option<string>, publicDir: string, path: string): bool
  {
    var p := Canonical(realpath, path);
    var base := Canonical(realpath, publicDir);
    Strncmp(p, base, |base|) != 0
  }

  /** As written, the check passes exactly when the canonical root is NOT a prefix of the canonical id. */
  lemma VerifyPathInverted(realpath: string -> Option<string>, publicDir: string, path: string)
    ensures VerifyPath(realpath, publicDir, path)
        <==> !(Canonical(realpath, publicDir) <= Canonical(realpath, path))
  {
    StrncmpZeroIffPrefix(Canonical(realpath, path), Canonical(realpath, publicDir));
  }

  /** An id that canonicalises inside public_dir is refused. */
  lemma InsideRootRefused(realpath: string -> Option<string>, publicDir: string, path: string, rest: string)
    requires realpath(publicDir).Some?
    requires realpath(path) == Some(realpath(publicDir).value + rest)
    ensures !VerifyPath(realpath, publicDir, path)
  {
    VerifyPathInverted(realpath, publicDir, path);
  }

  /** When public_dir itself does not resolve, every id is refused. */
  lemma UnresolvedRootRefusesAll(realpath: string -> Option<string>, publicDir: string, path: string)
    requires realpath(publicDir).None?
    ensures !VerifyPath(realpath, publicDir, path)
  {
    VerifyPathInverted(realpath, publicDir, path);
  }

  /** An id that does not resolve (realpath returns false) passes whenever the root resolves to a non-empty path. */
  lemma UnresolvedIdPasses(realpath: string -> Option<string>, publicDir: string, path: string)
    requires realpath(path).None?
    requires realpath(publicDir).Some? && realpath(publicDir).value != ""
    ensures VerifyPath(realpath, publicDir, path)
  {
    VerifyPathInverted(realpath, publicDir, path);
  }
}
