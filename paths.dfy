/**
 * Paths as the watcher builds them: plain strings joined with the
 * directory separator (`$dir . DIRECTORY_SEPARATOR . $file`).
 */
module Paths {

  type Path = string

  /** DIRECTORY_SEPARATOR on Linux, the only platform with inotify. */
  const Separator: char := '/'

  /** `dir . DIRECTORY_SEPARATOR . name`. */
  function Join(dir: Path, name: string): (p: Path)
    ensures Under(dir, p)
    ensures |p| == |dir| + 1 + |name| && p[|dir| + 1..] == name
  {
    dir + [Separator] + name
  }

  /** `p` lies strictly below `dir`: it starts with `dir` and then a separator. */
  predicate Under(dir: Path, p: Path) {
    |dir| < |p| && p[..|dir| + 1] == dir + [Separator]
  }

  /** `p` is `dir` itself or lies below it. */
  predicate AtOrUnder(dir: Path, p: Path) {
    p == dir || Under(dir, p)
  }

  /** A name as a directory listing reports it: it never contains the separator. */
  predicate IsEntryName(name: string) {
    Separator !in name
  }

  lemma AtOrUnderPrefix(dir: Path, p: Path)
    requires AtOrUnder(dir, p)
    ensures |dir| <= |p| && p[..|dir|] == dir
  {
    if p != dir {
      assert p[..|dir|] == p[..|dir| + 1][..|dir|];
    }
  }

  /** Being below is transitive, and strict as soon as one of the two steps is. */
  lemma UnderTransitive(a: Path, b: Path, c: Path)
    requires AtOrUnder(a, b) && AtOrUnder(b, c)
    ensures AtOrUnder(a, c)
    ensures Under(a, b) || Under(b, c) ==> Under(a, c)
  {
    if a != b && b != c {
      assert c[..|a| + 1] == c[..|b| + 1][..|a| + 1];
      assert b[..|a| + 1] == (b + [Separator])[..|a| + 1];
    }
  }

  /** Below `dir/name`, the characters after `dir/` spell `name`, followed by a separator if anything follows. */
  lemma EntryNameAt(dir: Path, name: string, p: Path)
    requires AtOrUnder(Join(dir, name), p)
    ensures |p| >= |dir| + 1 + |name|
    ensures forall k | 0 <= k < |name| :: p[|dir| + 1 + k] == name[k]
    ensures |p| > |dir| + 1 + |name| ==> p[|dir| + 1 + |name|] == Separator
  {
    var q := Join(dir, name);
    AtOrUnderPrefix(q, p);
    forall k | 0 <= k < |name|
      ensures p[|dir| + 1 + k] == name[k]
    {
      assert p[|dir| + 1 + k] == p[..|q|][|dir| + 1 + k] == q[|dir| + 1 + k];
    }
    if |p| > |q| {
      assert p[|q|] == p[..|q| + 1][|q|];
    }
  }

  /**
   * The subtrees of two different entries of one directory share no path:
   * nothing lies at or below both `dir/a` and `dir/b`.
   */
  lemma SiblingsDisjoint(dir: Path, a: string, b: string, p: Path)
    requires IsEntryName(a) && IsEntryName(b) && a != b
    requires AtOrUnder(Join(dir, a), p)
    ensures !AtOrUnder(Join(dir, b), p)
  {
    EntryNameAt(dir, a, p);
    if AtOrUnder(Join(dir, b), p) {
      EntryNameAt(dir, b, p);
      if |a| == |b| {
        assert false;
      } else if |a| < |b| {
        assert false;
      } else {
        assert false;
      }
    }
  }
}
