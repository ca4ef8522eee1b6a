/** Path normalisation used to compare an item's URL with the request path
    (`_normalize_path` in menus/services.py). */
module Paths {

  predicate IsQueryOrFragmentMark(c: char) {
    c == '?' || c == '#'
  }

  /** The path component of a URL: everything before the first `?` or `#`.
      This is the part of `urlsplit` the model keeps (see PathLike). */
  function PathPart(s: string): (r: string)
    ensures r <= s
    ensures forall i :: 0 <= i < |r| ==> !IsQueryOrFragmentMark(r[i])
    ensures |r| == |s| || IsQueryOrFragmentMark(s[|r|])
  {
    if s == [] || IsQueryOrFragmentMark(s[0]) then []
    else [s[0]] + PathPart(s[1..])
  }

  /** Python's `s.rstrip("/")`: drops EVERY trailing slash, not only one. */
  function RStripSlashes(s: string): (r: string)
    ensures r <= s
    ensures r == [] || r[|r| - 1] != '/'
    ensures forall i :: |r| <= i < |s| ==> s[i] == '/'
  {
    if s != [] && s[|s| - 1] == '/' then RStripSlashes(s[..|s| - 1]) else s
  }

  /** Tab, carriage return and line feed: `urlsplit` deletes every one of
      them before it splits. */
  predicate IsUnsafeUrlChar(c: char) {
    c == '\t' || c == '\r' || c == '\n'
  }

  /** Strings on which cutting at `?`/`#` is exactly what `urlsplit` does to
      find the path: empty, or starting with one slash that is not followed
      by a second one (a leading `//` would be read as a network location),
      and holding no character that `urlsplit` deletes. A leading slash
      also rules out a scheme and the stripping of leading control
      characters and spaces. */
  predicate PathLike(s: string) {
    && (s == [] || (s[0] == '/' && (|s| == 1 || s[1] != '/')))
    && (forall i :: 0 <= i < |s| ==> !IsUnsafeUrlChar(s[i]))
  }

  /** `_normalize_path`: an empty value (Python's None takes the same branch)
      becomes "/", an empty path becomes "/", and any other path loses all
      its trailing slashes. */
  function NormalizePath(value: string): (r: string)
    ensures value == [] ==> r == "/"
    ensures r == "/" || r == [] || r[|r| - 1] != '/'
  {
    if value == [] then "/"
    else
      var parsed := PathPart(value);
      var path := if parsed == [] then "/" else parsed;
      if path != "/" && path[|path| - 1] == '/' then RStripSlashes(path) else path
  }

  lemma {:induction false} RStripNoTrailing(s: string)
    requires s == [] || s[|s| - 1] != '/'
    ensures RStripSlashes(s) == s
  {
  }

  lemma {:induction false} RStripAppendSlash(s: string)
    ensures RStripSlashes(s + "/") == RStripSlashes(s)
  {
    assert (s + "/")[..|s + "/"| - 1] == s;
  }

  /** "/" is left as it is. */
  lemma {:induction false} NormalizeRoot()
    ensures NormalizePath("/") == "/"
  {
    assert PathPart("/") == "/" by {
      assert PathPart("/"[1..]) == [];
    }
  }

  /** One trailing slash more or less does not change the normalised path,
      except on the root itself ("//" is not a path at all, see PathLike). */
  lemma {:induction false} TrailingSlashIgnored(s: string)
    requires s != "/"
    ensures NormalizePath(s + "/") == NormalizePath(s)
  {
    PathPartAppend(s, "/");
    if s != [] && PathPart(s) == s {
      assert PathPart(s + "/") == s + "/";
      RStripAppendSlash(s);
      if s[|s| - 1] != '/' {
        RStripNoTrailing(s);
      }
    } else if s == [] {
      NormalizeRoot();
    }
  }

  /** Cutting `s + t` stops inside `s` when `s` already holds a mark, and
      continues into `t` otherwise. */
  lemma {:induction false} PathPartAppend(s: string, t: string)
    ensures PathPart(s) == s ==> PathPart(s + t) == s + PathPart(t)
    ensures PathPart(s) != s ==> PathPart(s + t) == PathPart(s)
  {
    if s == [] {
      assert s + t == t;
    } else if IsQueryOrFragmentMark(s[0]) {
    } else {
      assert (s + t)[1..] == s[1..] + t;
      PathPartAppend(s[1..], t);
    }
  }

  /** Two non-empty values with the same path part normalise alike. */
  lemma {:induction false} SamePathPart(a: string, b: string)
    requires a != [] && b != [] && PathPart(a) == PathPart(b)
    ensures NormalizePath(a) == NormalizePath(b)
  {
  }

  /** The query string and the fragment take no part in the comparison. */
  lemma {:induction false} QueryAndFragmentIgnored(p: string, mark: char, rest: string)
    requires forall i :: 0 <= i < |p| ==> !IsQueryOrFragmentMark(p[i])
    requires IsQueryOrFragmentMark(mark)
    ensures NormalizePath(p + [mark] + rest) == NormalizePath(p)
  {
    var v := p + [mark] + rest;
    PathPartFull(p);
    PathPartAppend(p, [mark] + rest);
    assert v == p + ([mark] + rest);
    assert PathPart([mark] + rest) == [];
    assert PathPart(v) == p;
    if p != [] {
      SamePathPart(v, p);
    }
  }

  lemma {:induction false} PathPartFull(s: string)
    requires forall i :: 0 <= i < |s| ==> !IsQueryOrFragmentMark(s[i])
    ensures PathPart(s) == s
  {
    if s != [] {
      PathPartFull(s[1..]);
    }
  }

  /** A path-like value normalises to a non-empty absolute path. */
  lemma {:induction false} NormalizeAbsolute(s: string)
    requires PathLike(s)
    ensures NormalizePath(s) != [] && NormalizePath(s)[0] == '/'
  {
    if s != [] {
      var parsed := PathPart(s);
      if parsed != [] && parsed != "/" && parsed[|parsed| - 1] == '/' {
        assert |parsed| >= 2 && parsed[0] == '/' && parsed[1] == s[1] && s[1] != '/';
        var r := RStripSlashes(parsed);
        assert |r| >= 2;
        assert r[0] == parsed[0];
      }
    }
  }

  /** A tab inside the value keeps it from being path-like: `urlsplit`
      would delete it, while cutting at `?`/`#` keeps it. */
  lemma {:induction false} TabIsNotPathLike()
    ensures !PathLike("/docs\t/")
    ensures NormalizePath("/docs\t/") == "/docs\t"
  {
    assert "/docs\t/"[5] == '\t';
    NormalizeDropsSlash("/docs\t/");
    assert "/docs\t/"[..6] == "/docs\t";
  }

  /** A path without query or fragment that ends in exactly one slash
      loses just that slash. */
  lemma {:induction false} NormalizeDropsSlash(s: string)
    requires forall i :: 0 <= i < |s| ==> !IsQueryOrFragmentMark(s[i])
    requires |s| >= 2 && s[|s| - 1] == '/' && s[|s| - 2] != '/'
    ensures NormalizePath(s) == s[..|s| - 1]
  {
    PathPartFull(s);
    var t := s[..|s| - 1];
    assert RStripSlashes(s) == RStripSlashes(t);
    RStripNoTrailing(t);
  }

  /** The motivating pair: "/docs/api/" and "/docs/api" compare equal. */
  lemma {:induction false} DocsApiEquivalent()
    ensures NormalizePath("/docs/api/") == NormalizePath("/docs/api")
  {
    TrailingSlashIgnored("/docs/api");
    assert "/docs/api" + "/" == "/docs/api/";
  }
}
