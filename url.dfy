/**
 * The client's URL helpers (client/src/url.ts): `normalizeUrl` joins its
 * parts with '/' and replaces every run of two or more slashes
 * (`/\/{2,}/g`) by one; `clientUrl` prefixes the configured base URL.
 */
module Url {
  import opened Wrappers

  /** `parts.join(sep)`. */
  function Join(parts: seq<string>, sep: string): string {
    if parts == [] then []
    else if |parts| == 1 then parts[0]
    else parts[0] + sep + Join(parts[1..], sep)
  }

  /** No two consecutive slashes. */
  predicate NoDoubleSlash(s: string) {
    forall i :: 0 <= i < |s| - 1 ==> !(s[i] == '/' && s[i + 1] == '/')
  }

  /** `s` with every slash deleted. */
  function WithoutSlashes(s: string): string {
    if s == [] then [] else (if s[0] == '/' then [] else [s[0]]) + WithoutSlashes(s[1..])
  }

  lemma WithoutSlashesAppend(a: string, b: string)
    ensures WithoutSlashes(a + b) == WithoutSlashes(a) + WithoutSlashes(b)
  {
    if a == [] {
      assert a + b == b;
    } else {
      assert (a + b)[1..] == a[1..] + b;
      WithoutSlashesAppend(a[1..], b);
    }
  }

  lemma NoDoubleSlashTail(s: string)
    requires s != []
    ensures NoDoubleSlash(s) ==> NoDoubleSlash(s[1..])
  {
    if NoDoubleSlash(s) {
      forall i | 0 <= i < |s[1..]| - 1
        ensures !(s[1..][i] == '/' && s[1..][i + 1] == '/')
      {
        assert s[1..][i] == s[i + 1] && s[1..][i + 1] == s[i + 2];
      }
    }
  }

  lemma ConsNoDoubleSlash(c: char, s: string)
    requires NoDoubleSlash(s)
    requires c == '/' ==> s == [] || s[0] != '/'
    ensures NoDoubleSlash([c] + s)
  {
    forall i | 0 <= i < |[c] + s| - 1
      ensures !(([c] + s)[i] == '/' && ([c] + s)[i + 1] == '/')
    {
      if i > 0 {
        assert ([c] + s)[i] == s[i - 1] && ([c] + s)[i + 1] == s[i];
      }
    }
  }

  lemma WithoutSlashesHead(s: string)
    requires s != []
    ensures WithoutSlashes(s) == WithoutSlashes([s[0]]) + WithoutSlashes(s[1..])
  {
    assert s == [s[0]] + s[1..];
    WithoutSlashesAppend([s[0]], s[1..]);
  }

  /**
   * The left-to-right scan of `s.replaceAll(/\/{2,}/g, '/')`: a slash that
   * is followed by another slash is dropped, so of every run of slashes
   * exactly the last one is kept; anything else is kept.
   */
  function Collapse(s: string): string
    decreases |s|
  {
    if s == [] then []
    else if |s| >= 2 && s[0] == '/' && s[1] == '/' then Collapse(s[1..])
    else [s[0]] + Collapse(s[1..])
  }

  lemma {:induction false} CollapseFacts(s: string)
    ensures NoDoubleSlash(Collapse(s))
    ensures (Collapse(s) != [] && Collapse(s)[0] == '/') <==> (s != [] && s[0] == '/')
    ensures WithoutSlashes(Collapse(s)) == WithoutSlashes(s)
    ensures NoDoubleSlash(s) ==> Collapse(s) == s
    decreases |s|
  {
    if s != [] {
      CollapseFacts(s[1..]);
      var rest := Collapse(s[1..]);
      WithoutSlashesHead(s);
      if |s| >= 2 && s[0] == '/' && s[1] == '/' {
        assert !NoDoubleSlash(s);
      } else {
        NoDoubleSlashTail(s);
        ConsNoDoubleSlash(s[0], rest);
        WithoutSlashesAppend([s[0]], rest);
      }
    }
  }

  /**
   * `s.replaceAll(/\/{2,}/g, '/')`: no doubled slash is left, only slashes
   * are deleted, a leading slash stays, and a string without doubled
   * slashes is unchanged; `CollapseRun` says each run becomes one slash.
   */
  function CollapseSlashes(s: string): (r: string)
    ensures NoDoubleSlash(r)
    ensures (r != [] && r[0] == '/') <==> (s != [] && s[0] == '/')
    ensures WithoutSlashes(r) == WithoutSlashes(s)
    ensures NoDoubleSlash(s) ==> r == s
  {
    CollapseFacts(s);
    Collapse(s)
  }

  /** `n` slashes. */
  function Slashes(n: nat): (r: string)
    ensures |r| == n && forall i :: 0 <= i < n ==> r[i] == '/'
  {
    if n == 0 then [] else "/" + Slashes(n - 1)
  }

  /** Two strings that agree on their first two characters and collapse alike after the first collapse alike. */
  lemma SameStart(s1: string, s2: string)
    requires |s1| >= 2 && |s2| >= 2 && s1[0] == s2[0] && s1[1] == s2[1]
    requires Collapse(s1[1..]) == Collapse(s2[1..])
    ensures Collapse(s1) == Collapse(s2)
  {
  }

  /**
   * Doubling a slash anywhere changes nothing: the result depends only on
   * where the runs of slashes are, not on how long they are.
   */
  lemma {:induction false} DoubledSlash(a: string, b: string)
    ensures Collapse(a + ("//" + b)) == Collapse(a + ("/" + b))
    decreases |a|
  {
    if a == [] {
      var s1 := "//" + b;
      assert a + s1 == s1 && a + ("/" + b) == "/" + b;
      assert s1[0] == '/' && s1[1] == '/' && s1[1..] == "/" + b;
    } else {
      var s1, s2 := a + ("//" + b), a + ("/" + b);
      assert s1[1..] == a[1..] + ("//" + b);
      assert s2[1..] == a[1..] + ("/" + b);
      assert s1[0] == s2[0] && s1[1] == s2[1];
      DoubledSlash(a[1..], b);
      SameStart(s1, s2);
    }
  }

  /**
   * What `/\/{2,}/g` with `'/'` promises: any run of slashes between `a`
   * and `b` comes out as exactly one slash.
   */
  lemma {:induction false} CollapseRun(a: string, n: nat, b: string)
    requires n >= 1
    ensures CollapseSlashes(a + (Slashes(n) + b)) == CollapseSlashes(a + ("/" + b))
  {
    if n > 1 {
      var rest := Slashes(n - 2) + b;
      assert Slashes(n) + b == "//" + rest;
      DoubledSlash(a, rest);
      assert "/" + rest == Slashes(n - 1) + b;
      CollapseRun(a, n - 1, b);
    } else {
      assert Slashes(1) == "/";
    }
  }

  /** `normalizeUrl(...parts)`. */
  function NormalizeUrl(parts: seq<string>): (r: string)
    ensures NoDoubleSlash(r)
    ensures WithoutSlashes(r) == WithoutSlashes(Join(parts, "/"))
    ensures (r != [] && r[0] == '/') <==> (Join(parts, "/") != [] && Join(parts, "/")[0] == '/')
  {
    CollapseSlashes(Join(parts, "/"))
  }

  /** `clientUrl(part)`, with the optional `CLIENT_BASE_URL` as a parameter. */
  function ClientUrl(baseUrl: Option<string>, part: string): (r: string)
    ensures NoDoubleSlash(r)
    ensures WithoutSlashes(r) == WithoutSlashes(baseUrl.GetOr("/")) + WithoutSlashes(part)
    ensures baseUrl.None? ==> r != [] && r[0] == '/'
  {
    var base := baseUrl.GetOr("/");
    assert Join([base, part], "/") == base + "/" + part;
    WithoutSlashesAppend(base + "/", part);
    WithoutSlashesAppend(base, "/");
    assert WithoutSlashes("/") == [];
    NormalizeUrl([baseUrl.GetOr("/"), part])
  }

  // ---------------------------------------------------------------------------
  // Properties
  // ---------------------------------------------------------------------------

  /** Normalizing a normalized URL changes nothing. */
  lemma NormalizeIdempotent(parts: seq<string>)
    ensures NormalizeUrl([NormalizeUrl(parts)]) == NormalizeUrl(parts)
  {
  }

  /** A string with no slash at either end and none inside. */
  predicate Plain(s: string) {
    s != [] && forall i :: 0 <= i < |s| ==> s[i] != '/'
  }

  lemma {:induction false} JoinPlain(parts: seq<string>)
    requires forall k :: 0 <= k < |parts| ==> Plain(parts[k])
    ensures NoDoubleSlash(Join(parts, "/"))
    ensures parts != [] ==> Join(parts, "/") != [] && Join(parts, "/")[0] != '/'
  {
    if |parts| > 1 {
      JoinPlain(parts[1..]);
      var a := parts[0];
      var b := Join(parts[1..], "/");
      var j := a + "/" + b;
      forall i | 0 <= i < |j| - 1
        ensures !(j[i] == '/' && j[i + 1] == '/')
      {
        if i < |a| - 1 {
          assert j[i] == a[i];
        } else if i == |a| - 1 {
          assert j[i] == a[i];
        } else if i == |a| {
          assert j[i + 1] == b[0];
        } else {
          assert j[i] == b[i - |a| - 1] && j[i + 1] == b[i - |a|];
        }
      }
      assert j[0] == a[0];
    }
  }

  /** Parts with no slashes of their own come out exactly slash-joined. */
  lemma PlainParts(parts: seq<string>)
    requires forall k :: 0 <= k < |parts| ==> Plain(parts[k])
    ensures NormalizeUrl(parts) == Join(parts, "/")
  {
    JoinPlain(parts);
  }

  /** With the default base `/`, a path that starts with one slash and has no doubled slash maps to itself. */
  lemma ClientUrlOfPath(part: string)
    requires part != [] && part[0] == '/' && NoDoubleSlash(part)
    ensures ClientUrl(None, part) == part
  {
    var s := "/" + "/" + part;
    assert Join(["/", part], "/") == s;
    var t := "/" + part;
    assert s[0] == '/' && s[1] == '/' && s[1..] == t;
    assert Collapse(s) == Collapse(t);
    assert t[0] == '/' && t[1] == '/' && t[1..] == part;
    assert Collapse(t) == Collapse(part);
    CollapseFacts(part);
  }
}
