/**
 * The order in which `filepath.WalkDir` visits a tree: a directory before anything inside
 * it, and the entries of one directory sorted by name. Go compares names byte by byte;
 * UTF-8 keeps code point order, so comparing characters gives the same order.
 */
module Walk {
  import opened Paths

  /** Byte-wise string order, as Go's `<` on strings. */
  predicate NameLess(a: string, b: string)
    decreases |a|
  {
    if a == [] then b != []
    else if b == [] then false
    else if a[0] == b[0] then NameLess(a[1..], b[1..])
    else a[0] < b[0]
  }

  /** `a` is visited before `b`: it is a proper prefix of `b`, or at the first component
      where they differ, `a`'s name sorts first. */
  predicate Before(a: Path, b: Path)
    decreases |a|
  {
    if a == [] then b != []
    else if b == [] then false
    else if a[0] == b[0] then Before(a[1..], b[1..])
    else NameLess(a[0], b[0])
  }

  lemma {:induction false} NameLessIrreflexive(a: string)
    ensures !NameLess(a, a)
  {
    if a != [] {
      NameLessIrreflexive(a[1..]);
    }
  }

  lemma {:induction false} NameLessTransitive(a: string, b: string, c: string)
    requires NameLess(a, b) && NameLess(b, c)
    ensures NameLess(a, c)
    decreases |a|
  {
    if a != [] && b != [] && c != [] && a[0] == b[0] && b[0] == c[0] {
      NameLessTransitive(a[1..], b[1..], c[1..]);
    }
  }

  lemma {:induction false} NameLessTotal(a: string, b: string)
    requires a != b
    ensures NameLess(a, b) || NameLess(b, a)
    decreases |a|
  {
    if a != [] && b != [] && a[0] == b[0] {
      assert a == [a[0]] + a[1..] && b == [b[0]] + b[1..];
      NameLessTotal(a[1..], b[1..]);
    }
  }

  lemma {:induction false} BeforeIrreflexive(a: Path)
    ensures !Before(a, a)
  {
    if a != [] {
      BeforeIrreflexive(a[1..]);
    }
  }

  lemma {:induction false} BeforeTransitive(a: Path, b: Path, c: Path)
    requires Before(a, b) && Before(b, c)
    ensures Before(a, c)
    decreases |a|
  {
    if a != [] && b != [] && c != [] {
      if a[0] == b[0] && b[0] == c[0] {
        BeforeTransitive(a[1..], b[1..], c[1..]);
      } else if a[0] != b[0] && b[0] != c[0] {
        NameLessTransitive(a[0], b[0], c[0]);
        if a[0] == c[0] {
          NameLessIrreflexive(a[0]);
        }
      } else if a[0] != b[0] {
        assert b[0] == c[0];
      } else {
        assert a[0] == b[0];
      }
    }
  }

  lemma {:induction false} BeforeTotal(a: Path, b: Path)
    requires a != b
    ensures Before(a, b) || Before(b, a)
    decreases |a|
  {
    if a != [] && b != [] {
      if a[0] == b[0] {
        assert a == [a[0]] + a[1..] && b == [b[0]] + b[1..];
        BeforeTotal(a[1..], b[1..]);
      } else {
        NameLessTotal(a[0], b[0]);
      }
    }
  }

  lemma BeforeAsymmetric(a: Path, b: Path)
    requires Before(a, b)
    ensures !Before(b, a)
  {
    if Before(b, a) {
      BeforeTransitive(a, b, a);
      BeforeIrreflexive(a);
    }
  }

  /** A directory comes before everything inside it. */
  lemma {:induction false} PrefixBefore(a: Path, b: Path)
    requires a < b
    ensures Before(a, b)
    decreases |a|
  {
    if a != [] {
      assert a[0] == b[0];
      PrefixBefore(a[1..], b[1..]);
    }
  }

  /** `p` is the first of `s` in walk order. */
  predicate IsFirst(p: Path, s: set<Path>) {
    p in s && forall q :: q in s && q != p ==> Before(p, q)
  }

  /** Every finite non-empty set of paths has a first element. */
  lemma {:induction false} HasFirst(s: set<Path>)
    requires s != {}
    ensures exists p :: IsFirst(p, s)
    decreases |s|
  {
    var x :| x in s;
    var rest := s - {x};
    if rest == {} {
      assert s == {x};
      assert IsFirst(x, s);
    } else {
      HasFirst(rest);
      var f :| IsFirst(f, rest);
      if Before(x, f) {
        forall q | q in s && q != x ensures Before(x, q) {
          if q != f {
            BeforeTransitive(x, f, q);
          }
        }
        assert IsFirst(x, s);
      } else {
        BeforeTotal(x, f);
        assert IsFirst(f, s);
      }
    }
  }

  lemma FirstUnique(p: Path, q: Path, s: set<Path>)
    requires IsFirst(p, s) && IsFirst(q, s)
    ensures p == q
  {
    if p != q {
      BeforeAsymmetric(p, q);
    }
  }

  /** The next path the walk visits among those still to come. */
  ghost function First(s: set<Path>): (p: Path)
    requires s != {}
    ensures IsFirst(p, s)
  {
    HasFirst(s);
    var p :| IsFirst(p, s);
    p
  }

  /** Nothing still to come is visited before the first; in particular its parent, when
      that is among the paths, has already been visited. */
  lemma FirstAfterParent(s: set<Path>, p: Path)
    requires IsFirst(p, s) && p != []
    ensures Parent(p) !in s
  {
    PrefixBefore(Parent(p), p);
    if Parent(p) in s {
      BeforeAsymmetric(Parent(p), p);
    }
  }
}
