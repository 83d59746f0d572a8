/**
 * Paths as the Go `path/filepath` package treats them on Unix. A clean absolute path
 * is kept as its sequence of components; the functions below give `filepath.Clean`,
 * `Join`, `Abs`, `Dir` and `Base` in those terms.
 */
module Paths {
  import opened Wrappers
  import opened Text

  type Name = string

  /** A clean absolute path as its components: [] is "/", ["home", "a"] is "/home/a". */
  type Path = seq<Name>

  /** A component that `filepath.Clean` leaves in place. */
  predicate IsCleanName(n: string) {
    n != "" && n != "." && n != ".." && '/' !in n
  }

  predicate IsClean(p: Path) {
    forall i :: 0 <= i < |p| ==> IsCleanName(p[i])
  }

  /** `filepath.Dir` of a clean absolute path; the parent of "/" is "/". */
  function Parent(p: Path): (r: Path)
    ensures p != [] ==> |r| == |p| - 1 && r < p
    ensures p == [] ==> r == []
  {
    if p == [] then [] else p[..|p| - 1]
  }

  /** `filepath.Base` of a clean absolute path: its last component, "/" for the root. */
  function BaseName(p: Path): string {
    if p == [] then "/" else p[|p| - 1]
  }

  /** The text of a path: "/" for the root, "/a/b" for ["a", "b"]. */
  function Render(p: Path): string {
    if p == [] then "/" else Text.Join([""] + p, '/')
  }

  /**
   * Lexical resolution of path elements against a start directory, as `filepath.Clean`
   * does it for an absolute path: empty elements and "." are dropped, ".." removes the
   * last component (and stays at "/" at the root), anything else is appended.
   */
  function Resolve(start: Path, parts: seq<string>): (r: Path)
    ensures IsClean(start) && (forall part :: part in parts ==> '/' !in part) ==> IsClean(r)
    decreases |parts|
  {
    if parts == [] then start
    else
      var next :=
        if parts[0] == "" || parts[0] == "." then start
        else if parts[0] == ".." then Parent(start)
        else start + [parts[0]];
      assert parts[0] in parts;
      assert forall part :: part in parts[1..] ==> part in parts;
      Resolve(next, parts[1..])
  }

  /** `filepath.Join(dir, name)` for a clean absolute `dir`. */
  function JoinName(dir: Path, name: string): Path {
    Resolve(dir, Split(name, '/'))
  }

  /**
   * `filepath.Abs(arg)`: an absolute argument is cleaned, a relative one is joined onto the
   * working directory first. `cwd` is None when the working directory cannot be read,
   * which is the one way `filepath.Abs` fails.
   */
  function Abs(cwd: Option<Path>, arg: string): (r: Option<Path>)
    ensures r.None? <==> cwd.None? && !(arg != [] && arg[0] == '/')
    ensures r.Some? && (cwd.Some? ==> IsClean(cwd.value)) ==> IsClean(r.value)
  {
    SplitPartsLackSep(arg, '/');
    if arg != [] && arg[0] == '/' then Some(Resolve([], Split(arg, '/')))
    else if cwd.Some? then Some(Resolve(cwd.value, Split(arg, '/')))
    else None
  }

  /** Clean components are appended unchanged. */
  lemma {:induction false} ResolveCleanNames(start: Path, names: seq<string>)
    requires forall i :: 0 <= i < |names| ==> IsCleanName(names[i])
    ensures Resolve(start, names) == start + names
    decreases |names|
  {
    if names != [] {
      ResolveCleanNames(start + [names[0]], names[1..]);
      assert start + [names[0]] + names[1..] == start + names;
    }
  }

  /** Joining a clean name adds exactly one component. */
  lemma JoinCleanName(dir: Path, name: string)
    requires IsCleanName(name)
    ensures JoinName(dir, name) == dir + [name]
  {
    SplitNoSep(name, '/');
    ResolveCleanNames(dir, [name]);
  }

  /** The text of a clean path reads back as the same path, whatever the working directory. */
  lemma RenderRoundTrip(cwd: Option<Path>, p: Path)
    requires IsClean(p)
    ensures Abs(cwd, Render(p)) == Some(p)
  {
    if p == [] {
      assert Split("/", '/') == ["", ""];
      assert Resolve([], ["", ""]) == Resolve([], [""]) == Resolve([], []);
    } else {
      var parts := [""] + p;
      forall part | part in parts ensures '/' !in part {
        var i :| 0 <= i < |parts| && parts[i] == part;
        if i > 0 { assert part == p[i - 1]; }
      }
      SplitJoin(parts, '/');
      assert parts[0] == "" && parts[1..] == p;
      assert Render(p) == "" + ['/'] + Text.Join(p, '/');
      assert Render(p)[0] == '/';
      assert Resolve([], parts) == Resolve([], p);
      ResolveCleanNames([], p);
      assert [] + p == p;
      assert Split(Render(p), '/') == parts;
      assert Abs(cwd, Render(p)) == Some(Resolve([], parts));
    }
  }

  // ---------------------------------------------------------------------------
  // filepath.Base on text

  /** `s` without its trailing slashes. */
  function TrimTrailingSlashes(s: string): (r: string)
    ensures r <= s
    ensures r != [] ==> r[|r| - 1] != '/'
    ensures forall i :: |r| <= i < |s| ==> s[i] == '/'
  {
    if s != [] && s[|s| - 1] == '/' then TrimTrailingSlashes(s[..|s| - 1]) else s
  }

  /** The text after the last slash of `s` (all of `s` when it has none). */
  function AfterLastSlash(s: string): (r: string)
    ensures '/' !in r
    ensures |r| <= |s| && r == s[|s| - |r|..]
    ensures |r| < |s| ==> s[|s| - |r| - 1] == '/'
  {
    if s == [] then []
    else if s[|s| - 1] == '/' then []
    else AfterLastSlash(s[..|s| - 1]) + [s[|s| - 1]]
  }

  /**
   * `filepath.Base(s)`: "." for the empty string, "/" when `s` is only slashes, and
   * otherwise the last element once trailing slashes are removed.
   */
  function Base(s: string): (r: string)
    ensures r != [] && (r == "/" || '/' !in r)
  {
    if s == [] then "."
    else
      var t := TrimTrailingSlashes(s);
      if t == [] then "/" else AfterLastSlash(t)
  }

  /** A non-empty text without slashes is its own Base. */
  lemma BaseOfElement(s: string)
    requires s != [] && '/' !in s
    ensures Base(s) == s
  {
    assert TrimTrailingSlashes(s) == s;
  }

  /** Base is idempotent: sanitizing an already sanitized name changes nothing. */
  lemma BaseIdempotent(s: string)
    ensures Base(Base(s)) == Base(s)
  {
    var b := Base(s);
    if b == "/" {
      assert TrimTrailingSlashes("/") == [];
    } else {
      BaseOfElement(b);
    }
  }

  /** Base of a rendered clean path is its last component. */
  lemma BaseOfRender(p: Path)
    requires IsClean(p)
    ensures Base(Render(p)) == BaseName(p)
  {
    if p == [] {
      assert TrimTrailingSlashes("/") == [];
    } else {
      var q := Parent(p);
      var last := p[|p| - 1];
      RenderSnoc(q, last);
      var r := Render(p);
      assert p == q + [last];
      if q == [] {
        assert r == "/" + last;
      } else {
        assert r == Render(q) + "/" + last;
      }
      assert IsCleanName(last);
      assert r[|r| - 1] == last[|last| - 1];
      assert TrimTrailingSlashes(r) == r;
      AfterLastSlashOfSuffix(r, last);
    }
  }

  lemma RenderSnoc(q: Path, last: Name)
    ensures q == [] ==> Render(q + [last]) == "/" + last
    ensures q != [] ==> Render(q + [last]) == Render(q) + "/" + last
  {
    if q == [] {
      assert q + [last] == [last];
      assert [""] + [last] == ["", last];
      assert ["", last][1..] == [last];
      assert Text.Join([last], '/') == last;
    } else {
      JoinSnoc([""] + q, last);
      assert [""] + (q + [last]) == ([""] + q) + [last];
    }
  }

  lemma {:induction false} JoinSnoc(parts: seq<string>, last: string)
    requires |parts| >= 1
    ensures Text.Join(parts + [last], '/') == Text.Join(parts, '/') + "/" + last
  {
    if |parts| == 1 {
      assert (parts + [last])[1..] == [last];
    } else {
      assert (parts + [last])[1..] == parts[1..] + [last];
      JoinSnoc(parts[1..], last);
    }
  }

  lemma AfterLastSlashOfSuffix(r: string, last: string)
    requires last != [] && '/' !in last
    requires |r| > |last| && r[|r| - |last| - 1] == '/' && r[|r| - |last|..] == last
    ensures AfterLastSlash(r) == last
  {
  }

  /** Joining the result of Base onto a directory stays inside that directory only for a
      clean name: ".." reaches the parent. */
  lemma JoinBaseDotDot(dir: Path)
    ensures Base("..") == ".." && JoinName(dir, Base("..")) == Parent(dir)
  {
    BaseOfElement("..");
    SplitNoSep("..", '/');
    assert Resolve(dir, [".."]) == Resolve(Parent(dir), [".."][1..]);
    assert [".."][1..] == [];
  }

  /** An empty name and a name of only slashes join to the directory itself. */
  lemma JoinBaseEmptyOrSlash(dir: Path)
    ensures Base("") == "." && JoinName(dir, Base("")) == dir
    ensures Base("/") == "/" && JoinName(dir, Base("/")) == dir
  {
    SplitNoSep(".", '/');
    assert Resolve(dir, ["."]) == Resolve(dir, ["."][1..]);
    assert ["."][1..] == [];
    assert TrimTrailingSlashes("/") == [];
    assert Split("/", '/') == ["", ""];
    assert Resolve(dir, ["", ""]) == Resolve(dir, [""]);
    assert Resolve(dir, [""]) == Resolve(dir, []);
  }
}
