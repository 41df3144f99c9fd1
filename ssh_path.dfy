/**
 * The path helpers ssh_dirname and ssh_basename.
 *
 * A C string is modelled by the characters before its terminating NUL, and a
 * NULL pointer by None. Both helpers return a freshly allocated string, or
 * NULL when the allocation (malloc or strdup) fails; whether it succeeds is
 * the parameter `allocOk`.
 *
 * Both walk an index `len` backwards over the path: first over trailing
 * slashes, then over the last name. The functions SkipSlashes and SkipName
 * give where such a walk stops; DirnameOf and BasenameOf give the results the
 * source computes, quirks included, and the lemmas at the end describe them
 * without reference to the walks.
 */
module SshPath {
  import opened Wrappers

  ghost predicate AllSlashes(s: string)
  {
    forall i :: 0 <= i < |s| ==> s[i] == '/'
  }

  ghost predicate NoSlash(s: string)
  {
    forall i :: 0 <= i < |s| ==> s[i] != '/'
  }

  /**
   * `p` is `a + b + t`, where `b` is the last name of the path (non-empty, no
   * slash), `t` the trailing slashes and `a` everything before the name, which
   * is empty or ends in a slash.
   */
  ghost predicate IsSplit(p: string, a: string, b: string, t: string)
  {
    && p == a + b + t
    && b != [] && NoSlash(b)
    && AllSlashes(t)
    && (a == [] || a[|a| - 1] == '/')
  }

  /** `r` occurs in `s` as a contiguous piece. */
  ghost predicate IsPieceOf(r: string, s: string)
  {
    exists i, j :: 0 <= i <= j <= |s| && r == s[i..j]
  }

  /** Where `while (len > 0 && s[len - 1] == '/') --len;` stops when started at `n`. */
  function SkipSlashes(s: string, n: nat): (m: nat)
    requires n <= |s|
    ensures m <= n
    ensures forall i :: m <= i < n ==> s[i] == '/'
    ensures m == 0 || s[m - 1] != '/'
  {
    if n > 0 && s[n - 1] == '/' then SkipSlashes(s, n - 1) else n
  }

  /** Where `while (len > 0 && s[len - 1] != '/') --len;` stops when started at `n`. */
  function SkipName(s: string, n: nat): (m: nat)
    requires n <= |s|
    ensures m <= n
    ensures forall i :: m <= i < n ==> s[i] != '/'
    ensures m == 0 || s[m - 1] == '/'
  {
    if n > 0 && s[n - 1] != '/' then SkipName(s, n - 1) else n
  }

  /** The stopping point of the slash walk is the only index with its two properties. */
  lemma SkipSlashesAt(s: string, n: nat, m: nat)
    requires m <= n <= |s|
    requires forall i :: m <= i < n ==> s[i] == '/'
    requires m == 0 || s[m - 1] != '/'
    ensures SkipSlashes(s, n) == m
  {
  }

  /** The stopping point of the name walk is the only index with its two properties. */
  lemma SkipNameAt(s: string, n: nat, m: nat)
    requires m <= n <= |s|
    requires forall i :: m <= i < n ==> s[i] != '/'
    requires m == 0 || s[m - 1] == '/'
    ensures SkipName(s, n) == m
  {
  }

  /** strdup, or a malloc followed by a copy: the string, or NULL when allocation fails. */
  function Allocated(s: string, allocOk: bool): Option<string>
  {
    if allocOk then Some(s) else None
  }

  /**
   * What ssh_dirname returns when allocation succeeds. The result is "." or a
   * prefix of the path, and it never ends in a slash unless it is "/".
   */
  function DirnameOf(path: Option<string>): (r: string)
    ensures r == "." || (path.Some? && r <= path.value)
    ensures r == "/" || r == [] || r[|r| - 1] != '/'
  {
    if path.None? || path.value == [] then "."
    else
      var p := path.value;
      var n1 := SkipSlashes(p, |p|);
      if n1 == 0 then "/"
      else
        var n2 := SkipName(p, n1);
        if n2 == 0 then "."
        else if n2 == 1 then "/"
        else p[..SkipSlashes(p, n2)]
  }

  /**
   * What ssh_basename returns when allocation succeeds. Unless it is "." or
   * "/", the result is a non-empty piece of the path.
   */
  function BasenameOf(path: Option<string>): (r: string)
    ensures r == "." || r == "/" || (path.Some? && r != [] && IsPieceOf(r, path.value))
  {
    if path.None? || path.value == [] then "."
    else
      var p := path.value;
      var n1 := SkipSlashes(p, |p|);
      if n1 == 0 then "/"
      else
        var n2 := SkipName(p, n1);
        if n2 > 0 then
          var s := p[n2..];
          var r := s[..SkipSlashes(s, |s|)];
          assert s[|s| - (|p| - n1) - 1] == p[n1 - 1] != '/';
          assert r == p[n2..n2 + |r|];
          r
        else
          assert p == p[0..|p|];
          p
  }

  /** ssh_dirname (libssh/misc.c) */
  method Dirname(path: Option<string>, allocOk: bool) returns (r: Option<string>)
    ensures r == Allocated(DirnameOf(path), allocOk)
  {
    if path.None? || |path.value| == 0 {
      return Allocated(".", allocOk);
    }
    var p := path.value;
    var len: nat := |p|;
    // remove trailing slashes
    while len > 0 && p[len - 1] == '/'
      invariant len <= |p|
      invariant SkipSlashes(p, len) == SkipSlashes(p, |p|)
    {
      len := len - 1;
    }
    // only slashes
    if len == 0 {
      return Allocated("/", allocOk);
    }
    ghost var n1 := len;
    // go to the previous slash
    while len > 0 && p[len - 1] != '/'
      invariant len <= n1
      invariant SkipName(p, len) == SkipName(p, n1)
    {
      len := len - 1;
    }
    if len == 0 {
      return Allocated(".", allocOk);
    } else if len == 1 {
      return Allocated("/", allocOk);
    }
    ghost var n2 := len;
    // remove the slashes before the name
    while len > 0 && p[len - 1] == '/'
      invariant len <= n2
      invariant SkipSlashes(p, len) == SkipSlashes(p, n2)
    {
      len := len - 1;
    }
    r := Allocated(p[..len], allocOk);
  }

  /** ssh_basename (libssh/misc.c) */
  method Basename(path: Option<string>, allocOk: bool) returns (r: Option<string>)
    ensures r == Allocated(BasenameOf(path), allocOk)
  {
    if path.None? || |path.value| == 0 {
      return Allocated(".", allocOk);
    }
    var p := path.value;
    var len: nat := |p|;
    // remove trailing slashes
    while len > 0 && p[len - 1] == '/'
      invariant len <= |p|
      invariant SkipSlashes(p, len) == SkipSlashes(p, |p|)
    {
      len := len - 1;
    }
    // only slashes
    if len == 0 {
      return Allocated("/", allocOk);
    }
    ghost var n1 := len;
    while len > 0 && p[len - 1] != '/'
      invariant len <= n1
      invariant SkipName(p, len) == SkipName(p, n1)
    {
      len := len - 1;
    }
    if len == 0 {
      // no slash before the name: the whole path, trailing slashes included
      return Allocated(p, allocOk);
    }
    var s := p[len..];
    len := |s|;
    while len > 0 && s[len - 1] == '/'
      invariant len <= |s|
      invariant SkipSlashes(s, len) == SkipSlashes(s, |s|)
    {
      len := len - 1;
    }
    r := Allocated(s[..len], allocOk);
  }

  /** The two walks find the split of the path. */
  lemma SplitWalks(p: string, a: string, b: string, t: string)
    requires IsSplit(p, a, b, t)
    ensures SkipSlashes(p, |p|) == |a| + |b|
    ensures SkipName(p, |a| + |b|) == |a|
  {
    assert p[|a| + |b| - 1] == b[|b| - 1];
    assert forall i :: |a| + |b| <= i < |p| ==> p[i] == t[i - |a| - |b|];
    SkipSlashesAt(p, |p|, |a| + |b|);
    assert forall i :: |a| <= i < |a| + |b| ==> p[i] == b[i - |a|];
    assert a != [] ==> p[|a| - 1] == a[|a| - 1];
    SkipNameAt(p, |a| + |b|, |a|);
  }

  /** Every path that is not empty and not all slashes has a split. */
  lemma SplitExists(p: string)
    requires p != [] && !AllSlashes(p)
    ensures exists a, b, t :: IsSplit(p, a, b, t)
  {
    var n1 := SkipSlashes(p, |p|);
    var n2 := SkipName(p, n1);
    assert IsSplit(p, p[..n2], p[n2..n1], p[n1..]);
  }

  /** NULL and "" give "."; a path of slashes only gives "/", for both helpers. */
  lemma DegeneratePaths(p: string)
    requires p != [] && AllSlashes(p)
    ensures DirnameOf(None) == "." && DirnameOf(Some([])) == "."
    ensures BasenameOf(None) == "." && BasenameOf(Some([])) == "."
    ensures DirnameOf(Some(p)) == "/" && BasenameOf(Some(p)) == "/"
  {
    SkipSlashesAt(p, |p|, 0);
  }

  /**
   * ssh_dirname on a split path: "." when nothing precedes the name, "/" when
   * one slash does, and otherwise what precedes the name without its trailing
   * slashes.
   */
  lemma DirnameOfSplit(p: string, a: string, b: string, t: string)
    requires IsSplit(p, a, b, t)
    ensures a == [] ==> DirnameOf(Some(p)) == "."
    ensures |a| == 1 ==> DirnameOf(Some(p)) == "/"
    ensures |a| >= 2 ==>
      var d := DirnameOf(Some(p));
      d <= a && AllSlashes(a[|d|..]) && (d == [] || d[|d| - 1] != '/')
  {
    SplitWalks(p, a, b, t);
    if |a| == 1 {
      assert a == "/";
    }
    if |a| >= 2 {
      var m := SkipSlashes(p, |a|);
      assert forall i :: 0 <= i < |a| ==> p[i] == a[i];
      assert DirnameOf(Some(p)) == p[..m] == a[..m];
    }
  }

  /**
   * ssh_basename on a split path: the whole path, trailing slashes included,
   * when nothing precedes the name; otherwise the name alone.
   */
  lemma BasenameOfSplit(p: string, a: string, b: string, t: string)
    requires IsSplit(p, a, b, t)
    ensures a == [] ==> BasenameOf(Some(p)) == p
    ensures a != [] ==> BasenameOf(Some(p)) == b && NoSlash(BasenameOf(Some(p)))
  {
    SplitWalks(p, a, b, t);
    if a != [] {
      var s := p[|a|..];
      assert s == b + t;
      assert s[|b| - 1] == b[|b| - 1];
      assert forall i :: |b| <= i < |s| ==> s[i] == t[i - |b|];
      SkipSlashesAt(s, |s|, |b|);
      assert s[..|b|] == b;
    }
  }

  /**
   * When a slash precedes the last name, the path is its dirname, some
   * slashes, its basename and its trailing slashes, in that order.
   */
  lemma DirnameBasenameRebuild(p: string, a: string, b: string, t: string)
    requires IsSplit(p, a, b, t) && a != []
    ensures exists u :: AllSlashes(u) && p == DirnameOf(Some(p)) + u + BasenameOf(Some(p)) + t
  {
    DirnameOfSplit(p, a, b, t);
    BasenameOfSplit(p, a, b, t);
    var d := DirnameOf(Some(p));
    if |a| == 1 {
      assert a == d + [];
      assert AllSlashes([]);
    } else {
      assert a == d + a[|d|..];
      assert AllSlashes(a[|d|..]);
      assert p == d + a[|d|..] + b + t;
    }
  }

  /** A quirk of the source: slashes before the only name are all stripped, leaving "". */
  lemma DirnameDoubleSlashQuirk()
    ensures DirnameOf(Some("//x")) == ""
  {
    assert IsSplit("//x", "//", "x", "");
    DirnameOfSplit("//x", "//", "x", "");
  }

  /** A quirk of the source: without a slash before the name, trailing slashes are kept. */
  lemma BasenameTrailingSlashQuirk()
    ensures BasenameOf(Some("abc/")) == "abc/"
  {
    assert IsSplit("abc/", "", "abc", "/");
    BasenameOfSplit("abc/", "", "abc", "/");
  }

  /** A single leading slash before the only name gives "/". */
  lemma DirnameRootExample()
    ensures DirnameOf(Some("/x")) == "/"
  {
    assert IsSplit("/x", "/", "x", "");
    DirnameOfSplit("/x", "/", "x", "");
  }

  /** Trailing slashes of the path and of the directory part are dropped. */
  lemma DirnameExample()
    ensures DirnameOf(Some("usr/lib/")) == "usr"
  {
    var p := "usr/lib/";
    assert IsSplit(p, "usr/", "lib", "/");
    SplitWalks(p, "usr/", "lib", "/");
    SkipSlashesAt(p, 4, 3);
    assert p[..3] == "usr";
  }

  /** The last name, without the trailing slashes. */
  lemma BasenameExample()
    ensures BasenameOf(Some("/usr/lib//")) == "lib"
  {
    assert IsSplit("/usr/lib//", "/usr/", "lib", "//");
    BasenameOfSplit("/usr/lib//", "/usr/", "lib", "//");
  }
}
