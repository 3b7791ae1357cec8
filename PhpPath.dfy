/**
  PHP's basename() and dirname() on Unix paths, as the backend uses them to
  split a cache id into a directory part and a file name.
 */
module PhpPath {

  /** s without its trailing run of '/' characters. */
  function StripTrailingSlashes(s: string): (r: string)
    ensures |r| <= |s|
  {
    if |s| > 0 && s[|s| - 1] == '/' then StripTrailingSlashes(s[..|s| - 1]) else s
  }

  /** The part of s after its last '/', or all of s when it has none. */
  function LastComponent(s: string): (r: string)
    ensures |r| <= |s|
  {
    if |s| == 0 || s[|s| - 1] == '/' then [] else LastComponent(s[..|s| - 1]) + [s[|s| - 1]]
  }

  /** Stripping keeps a prefix that does not end in '/', and drops only slashes. */
  lemma {:induction false} StripShape(s: string)
    ensures StripTrailingSlashes(s) <= s
    ensures var r := StripTrailingSlashes(s); r == [] || r[|r| - 1] != '/'
    ensures forall i :: |StripTrailingSlashes(s)| <= i < |s| ==> s[i] == '/'
    decreases |s|
  {
    if |s| > 0 && s[|s| - 1] == '/' {
      StripShape(s[..|s| - 1]);
    }
  }

  /** The last component is a slash-free suffix, preceded by a '/' unless it is all of s. */
  lemma {:induction false} LastComponentShape(s: string)
    ensures var r := LastComponent(s); r == s[|s| - |r|..]
    ensures '/' !in LastComponent(s)
    ensures var r := LastComponent(s); |r| < |s| ==> s[|s| - |r| - 1] == '/'
    decreases |s|
  {
    if |s| > 0 && s[|s| - 1] != '/' {
      var init := s[..|s| - 1];
      LastComponentShape(init);
      var r := LastComponent(init);
      assert LastComponent(s) == r + [s[|s| - 1]];
      assert init[|init| - |r|..] + [s[|s| - 1]] == s[|s| - |r| - 1..];
    }
  }

  /** PHP basename($path): the last non-empty component, "" for an all-slash path. */
  function Basename(path: string): string
  {
    LastComponent(StripTrailingSlashes(path))
  }

  /** PHP dirname($path) as zend_dirname computes it on Unix. */
  function Dirname(path: string): string
  {
    if path == [] then []
    else
      var t := StripTrailingSlashes(path);
      if t == [] then "/"
      else
        var head := t[..|t| - |LastComponent(t)|];
        if head == [] then "."
        else
          var d := StripTrailingSlashes(head);
          if d == [] then "/" else d
  }

  /** The reference reading of a path: everything except slashes. */
  ghost predicate AllSlashes(s: string)
  {
    forall i :: 0 <= i < |s| ==> s[i] == '/'
  }

  lemma {:induction false} StripAllSlashes(s: string)
    ensures StripTrailingSlashes(s) == [] <==> AllSlashes(s)
  {
    var r := StripTrailingSlashes(s);
    StripShape(s);
    if r == [] {
      assert AllSlashes(s);
    } else {
      assert r[|r| - 1] == s[|r| - 1];
      assert !AllSlashes(s);
    }
  }

  /** The base name never contains '/', and it is empty exactly for all-slash paths. */
  lemma BasenameShape(path: string)
    ensures '/' !in Basename(path)
    ensures Basename(path) == [] <==> AllSlashes(path)
  {
    var t := StripTrailingSlashes(path);
    StripAllSlashes(path);
    StripShape(path);
    LastComponentShape(t);
    if t != [] {
      assert t[|t| - 1] != '/';
      assert LastComponent(t) == LastComponent(t[..|t| - 1]) + [t[|t| - 1]];
    }
  }

  /** Appending a slash to a non-empty path changes neither its base name nor its directory. */
  lemma TrailingSlashIgnored(path: string)
    requires path != []
    ensures Basename(path + "/") == Basename(path)
    ensures Dirname(path + "/") == Dirname(path)
  {
    assert (path + "/")[..|path + "/"| - 1] == path;
  }

  /** Joining a directory d (no trailing slash) and a component b splits back into d and b. */
  lemma {:induction false} SplitJoin(d: string, b: string)
    requires b != [] && '/' !in b
    requires d != [] && d[|d| - 1] != '/'
    ensures Basename(d + "/" + b) == b
    ensures Dirname(d + "/" + b) == d
  {
    var p := d + "/" + b;
    assert StripTrailingSlashes(p) == p;
    LastComponentOfJoin(d + "/", b);
    assert p[..|p| - |b|] == d + "/";
    assert (d + "/")[..|d + "/"| - 1] == d;
    assert StripTrailingSlashes(d + "/") == StripTrailingSlashes(d);
  }

  /** A single top-level component "/b" lies in directory "/" under the name b. */
  lemma RootLevelSplit(b: string)
    requires b != [] && '/' !in b
    ensures Basename("/" + b) == b
    ensures Dirname("/" + b) == "/"
  {
    var p := "/" + b;
    assert StripTrailingSlashes(p) == p;
    LastComponentOfJoin("/", b);
    assert p[..|p| - |b|] == "/";
    assert StripTrailingSlashes("/") == StripTrailingSlashes([]);
  }

  /** A path with no '/' at all lies in directory "." under its own name. */
  lemma RelativeName(b: string)
    requires b != [] && '/' !in b
    ensures Basename(b) == b
    ensures Dirname(b) == "."
  {
    assert StripTrailingSlashes(b) == b by { assert b[|b| - 1] in b; }
    LastComponentOfJoin([], b);
    assert [] + b == b;
  }

  lemma {:induction false} LastComponentOfJoin(a: string, b: string)
    requires '/' !in b
    requires a == [] || a[|a| - 1] == '/'
    ensures LastComponent(a + b) == b
  {
    if b == [] {
      assert a + b == a;
    } else {
      var ab, init := a + b, b[..|b| - 1];
      assert b[|b| - 1] != '/' by { assert b[|b| - 1] in b; }
      assert '/' !in init;
      assert ab[..|ab| - 1] == a + init;
      LastComponentOfJoin(a, init);
      assert LastComponent(ab) == LastComponent(a + init) + [b[|b| - 1]];
      assert b == init + [b[|b| - 1]];
    }
  }
}
