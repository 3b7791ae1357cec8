/**
  _validateIdOrTag(): ids starting with "internal-" are exempt; every other id
  or tag must be a URL path, as the pattern
    ^(?:/(?:(?:%[[:xdigit:]]{2}|[A-Za-z0-9-_.!~*'()\[\]:@&=+$,;])*)?)+$
  accepts it. The pattern is written here as a character scan.
 */
module Validation {
  import opened Common

  const InternalPrefix: string := "internal-"

  predicate IsHexDigit(c: char)
  {
    ('0' <= c <= '9') || ('a' <= c <= 'f') || ('A' <= c <= 'F')
  }

  /** The pattern's character class: unreserved and sub-delimiter URL characters. */
  predicate IsPathChar(c: char)
  {
    ('A' <= c <= 'Z') || ('a' <= c <= 'z') || ('0' <= c <= '9')
    || c in "-_.!~*'()[]:@&=+$,;"
  }

  /** The repeated part of the pattern: slashes, path characters and %XX escapes. */
  predicate ScanPath(s: string)
    decreases |s|
  {
    if s == [] then true
    else if s[0] == '/' || IsPathChar(s[0]) then ScanPath(s[1..])
    else s[0] == '%' && |s| >= 3 && IsHexDigit(s[1]) && IsHexDigit(s[2]) && ScanPath(s[3..])
  }

  /** The whole pattern without its end anchor: one or more '/'-led groups. */
  predicate IsUrlPath(s: string)
  {
    |s| > 0 && s[0] == '/' && ScanPath(s)
  }

  /**
    preg_match with that pattern. PCRE's '$' also matches just before a final
    newline, so a path followed by one "\n" matches too.
   */
  predicate MatchesUrlPathPattern(s: string)
  {
    IsUrlPath(s) || (|s| > 0 && s[|s| - 1] == '\n' && IsUrlPath(s[..|s| - 1]))
  }

  /** _validateIdOrTag($string): returns normally, or throws. */
  function ValidateIdOrTag(s: string): Result<()>
  {
    if InternalPrefix <= s then Success(())
    else if MatchesUrlPathPattern(s) then Success(())
    else Failure(InvalidIdOrTag)
  }

  /** Position i of s is an allowed character, or the '%' of a %XX escape. */
  ghost predicate AllowedAt(s: string, i: nat)
    requires i < |s|
  {
    s[i] == '/' || IsPathChar(s[i])
    || (s[i] == '%' && i + 2 < |s| && IsHexDigit(s[i + 1]) && IsHexDigit(s[i + 2]))
  }

  /** The reference definition: every position of s is allowed. */
  ghost predicate WellFormedPath(s: string)
  {
    forall i :: 0 <= i < |s| ==> AllowedAt(s, i)
  }

  /** The character scan accepts exactly the well-formed paths. */
  lemma {:induction false} ScanPathIsWellFormed(s: string)
    ensures ScanPath(s) <==> WellFormedPath(s)
    decreases |s|
  {
    if s != [] {
      if s[0] == '/' || IsPathChar(s[0]) {
        ScanPathIsWellFormed(s[1..]);
        ShiftWellFormed(s, 1);
      } else if s[0] == '%' && |s| >= 3 && IsHexDigit(s[1]) && IsHexDigit(s[2]) {
        ScanPathIsWellFormed(s[3..]);
        ShiftWellFormed(s, 3);
      } else {
        assert !AllowedAt(s, 0);
      }
    }
  }

  /** Dropping an accepted first character, or a leading %XX escape, keeps well-formedness both ways. */
  lemma ShiftWellFormed(s: string, k: nat)
    requires k == 1 || k == 3
    requires k <= |s|
    requires k == 1 ==> s[0] == '/' || IsPathChar(s[0])
    requires k == 3 ==> s[0] == '%' && IsHexDigit(s[1]) && IsHexDigit(s[2])
    ensures WellFormedPath(s) <==> WellFormedPath(s[k..])
  {
    var t := s[k..];
    forall j | 0 <= j < |t|
      ensures AllowedAt(t, j) <==> AllowedAt(s, j + k)
    {
      assert t[j] == s[j + k];
      if j + 2 < |t| {
        assert t[j + 1] == s[j + k + 1] && t[j + 2] == s[j + k + 2];
      }
    }
    forall i | 0 <= i < k
      ensures AllowedAt(s, i)
    {
      if i > 0 {
        assert IsHexDigit(s[i]);
      }
    }
    if WellFormedPath(t) {
      forall i | 0 <= i < |s|
        ensures AllowedAt(s, i)
      {
        if i >= k {
          assert AllowedAt(t, i - k);
        }
      }
    }
  }

  /** Every "internal-" id passes, whatever follows the prefix. */
  lemma InternalIdsExempt(rest: string)
    ensures ValidateIdOrTag(InternalPrefix + rest) == Success(())
  {
    assert InternalPrefix <= InternalPrefix + rest;
  }

  /**
    Any other accepted string, once a single final newline is dropped, is
    non-empty, begins with '/' and is a well-formed path.
   */
  lemma AcceptedIsUrlPath(s: string)
    requires !(InternalPrefix <= s)
    requires ValidateIdOrTag(s).Success?
    ensures var p := if IsUrlPath(s) then s else s[..|s| - 1];
            |p| > 0 && p[0] == '/' && WellFormedPath(p)
            && (p == s || s == p + "\n")
  {
    var p := if IsUrlPath(s) then s else s[..|s| - 1];
    ScanPathIsWellFormed(p);
    if !IsUrlPath(s) {
      assert s == p + "\n";
    }
  }

  /** A well-formed path that begins with '/' is accepted. */
  lemma WellFormedAccepted(s: string)
    requires |s| > 0 && s[0] == '/' && WellFormedPath(s)
    ensures ValidateIdOrTag(s) == Success(())
  {
    ScanPathIsWellFormed(s);
  }

  /** A query string or fragment marker anywhere rejects a non-internal id. */
  lemma QueryAndFragmentRejected(s: string, i: nat)
    requires !(InternalPrefix <= s)
    requires i < |s| && (s[i] == '?' || s[i] == '#')
    ensures ValidateIdOrTag(s) == Failure(InvalidIdOrTag)
  {
    NotUrlPathWithMarker(s, i);
    if |s| > 0 && s[|s| - 1] == '\n' {
      NotUrlPathWithMarker(s[..|s| - 1], i);
    }
  }

  lemma NotUrlPathWithMarker(q: string, i: nat)
    requires i < |q| && (q[i] == '?' || q[i] == '#')
    ensures !IsUrlPath(q)
  {
    ScanPathIsWellFormed(q);
    assert !AllowedAt(q, i);
  }

  /** The empty string is not a valid id: the pattern needs at least one '/'. */
  lemma EmptyRejected()
    ensures ValidateIdOrTag("") == Failure(InvalidIdOrTag)
  {
  }
}
