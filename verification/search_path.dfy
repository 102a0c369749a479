/**
 * The `PYTHONPATH` device property: each configured directory that is not
 * yet in `sys.path` is inserted at its front, one after the other, so a
 * directory listed twice is inserted once.
 */
module SearchPath {
  /** One insertion: `sys.path.insert(0, d)` unless `d` is already there. */
  function InsertDir(path: seq<string>, d: string): seq<string> {
    if d in path then path else [d] + path
  }

  /** The search path after inserting `dirs` in order. */
  function InsertNewDirs(path: seq<string>, dirs: seq<string>): seq<string>
    decreases |dirs|
  {
    if dirs == [] then path
    else InsertNewDirs(InsertDir(path, dirs[0]), dirs[1..])
  }

  predicate NoDuplicates(s: seq<string>) {
    forall i, j :: 0 <= i < j < |s| ==> s[i] != s[j]
  }

  /** The first index of `x` in `s`. */
  function IndexOf(s: seq<string>, x: string): (r: nat)
    requires x in s
    ensures r < |s| && s[r] == x && x !in s[..r]
  {
    if s[0] == x then 0
    else
      var r := IndexOf(s[1..], x);
      assert s[..r + 1] == [s[0]] + s[1..][..r];
      r + 1
  }

  /** Each directory of a later step goes to the front of the path built so far. */
  lemma {:induction false} InsertNewDirsSnoc(path: seq<string>, dirs: seq<string>, d: string)
    ensures InsertNewDirs(path, dirs + [d]) == InsertDir(InsertNewDirs(path, dirs), d)
    decreases |dirs|
  {
    if dirs == [] {
      assert InsertNewDirs(InsertDir(path, d), []) == InsertDir(path, d);
    } else {
      assert (dirs + [d])[0] == dirs[0] && (dirs + [d])[1..] == dirs[1..] + [d];
      InsertNewDirsSnoc(InsertDir(path, dirs[0]), dirs[1..], d);
    }
  }

  /** After the insertions the path holds exactly the old entries and the configured directories. */
  lemma {:induction false} InsertNewDirsMembers(path: seq<string>, dirs: seq<string>)
    ensures forall x :: x in InsertNewDirs(path, dirs) <==> x in path || x in dirs
    decreases |dirs|
  {
    if dirs != [] {
      InsertNewDirsMembers(InsertDir(path, dirs[0]), dirs[1..]);
      assert dirs == [dirs[0]] + dirs[1..];
    }
  }

  /** The old path is untouched at the end. */
  lemma {:induction false} InsertNewDirsSuffix(path: seq<string>, dirs: seq<string>)
    ensures var r := InsertNewDirs(path, dirs);
      |path| <= |r| && r[|r| - |path|..] == path
    decreases |dirs|
  {
    if dirs != [] {
      var next := InsertDir(path, dirs[0]);
      var r := InsertNewDirs(next, dirs[1..]);
      assert InsertNewDirs(path, dirs) == r;
      InsertNewDirsSuffix(next, dirs[1..]);
      if dirs[0] !in path {
        var k := |r| - |next|;
        assert r[k..] == [dirs[0]] + path;
        assert r[k + 1..] == r[k..][1..];
      }
    }
  }

  /** Everything in front of the old path is new. */
  lemma {:induction false} InsertNewDirsFront(path: seq<string>, dirs: seq<string>)
    ensures var r := InsertNewDirs(path, dirs);
      |path| <= |r| && forall i :: 0 <= i < |r| - |path| ==> r[i] !in path
    decreases |dirs|
  {
    if dirs != [] {
      var next := InsertDir(path, dirs[0]);
      InsertNewDirsFront(next, dirs[1..]);
      if dirs[0] !in path {
        var r := InsertNewDirs(next, dirs[1..]);
        InsertNewDirsSuffix(next, dirs[1..]);
        forall i | 0 <= i < |r| - |path| ensures r[i] !in path {
          if i == |r| - |next| {
            assert r[i] == r[|r| - |next|..][0] == next[0];
          } else {
            assert r[i] !in next;
          }
        }
      }
    }
  }

  lemma InsertDirNoDuplicates(path: seq<string>, d: string)
    requires NoDuplicates(path)
    ensures NoDuplicates(InsertDir(path, d))
  {
    if d !in path {
      var s := [d] + path;
      forall i, j | 0 <= i < j < |s| ensures s[i] != s[j] {
        assert s[j] == path[j - 1];
        if i > 0 {
          assert s[i] == path[i - 1];
        }
      }
    }
  }

  /** A search path without duplicates keeps none. */
  lemma {:induction false} InsertNewDirsNoDuplicates(path: seq<string>, dirs: seq<string>)
    requires NoDuplicates(path)
    ensures NoDuplicates(InsertNewDirs(path, dirs))
    decreases |dirs|
  {
    if dirs != [] {
      InsertDirNoDuplicates(path, dirs[0]);
      InsertNewDirsNoDuplicates(InsertDir(path, dirs[0]), dirs[1..]);
    }
  }

  /**
   * After the insertions every configured directory is in the path and
   * nothing else was added; the old path is untouched at the end, everything
   * in front of it is new, and a path without duplicates keeps none.
   */
  lemma InsertNewDirsContents(path: seq<string>, dirs: seq<string>)
    ensures var r := InsertNewDirs(path, dirs);
      && (forall x :: x in r <==> x in path || x in dirs)
      && |path| <= |r| && r[|r| - |path|..] == path
      && (forall i :: 0 <= i < |r| - |path| ==> r[i] !in path)
      && (NoDuplicates(path) ==> NoDuplicates(r))
  {
    InsertNewDirsMembers(path, dirs);
    InsertNewDirsSuffix(path, dirs);
    InsertNewDirsFront(path, dirs);
    if NoDuplicates(path) {
      InsertNewDirsNoDuplicates(path, dirs);
    }
  }

  lemma IndexOfCons(d: string, s: seq<string>, x: string)
    requires x in s && x != d
    ensures IndexOf([d] + s, x) == IndexOf(s, x) + 1
  {
    assert ([d] + s)[1..] == s;
  }

  /**
   * Later-configured new directories precede earlier ones: if `dirs[i]` and
   * `dirs[j]` (with `i < j`, and `dirs[j]` listed for the first time) were
   * not in the path, `dirs[j]` ends up in front of `dirs[i]`.
   */
  lemma InsertNewDirsOrder(path: seq<string>, dirs: seq<string>, i: nat, j: nat)
    requires i < j < |dirs|
    requires dirs[i] !in path && dirs[j] !in path && dirs[j] !in dirs[..j]
    ensures var r := InsertNewDirs(path, dirs);
      dirs[i] in r && dirs[j] in r && IndexOf(r, dirs[j]) < IndexOf(r, dirs[i])
  {
    OrderFrom(path, dirs, i, j, |dirs|);
    assert dirs[..|dirs|] == dirs;
  }

  /** A directory inserted at the front precedes everything already there. */
  lemma FrontInsertPrecedes(s: seq<string>, d: string, x: string)
    requires d !in s && x in s
    ensures var r := InsertDir(s, d);
      d in r && x in r && IndexOf(r, d) < IndexOf(r, x)
  {
    IndexOfCons(d, s, x);
  }

  /** One insertion keeps the relative order of the entries already there. */
  lemma InsertDirKeepsOrder(s: seq<string>, d: string, x: string, y: string)
    requires x in s && y in s && IndexOf(s, y) < IndexOf(s, x)
    ensures var r := InsertDir(s, d);
      x in r && y in r && IndexOf(r, y) < IndexOf(r, x)
  {
    if d !in s {
      IndexOfCons(d, s, x);
      IndexOfCons(d, s, y);
    }
  }

  lemma {:induction false} OrderFrom(path: seq<string>, dirs: seq<string>, i: nat, j: nat, n: nat)
    requires i < j < n <= |dirs|
    requires dirs[i] !in path && dirs[j] !in path && dirs[j] !in dirs[..j]
    ensures var r := InsertNewDirs(path, dirs[..n]);
      dirs[i] in r && dirs[j] in r && IndexOf(r, dirs[j]) < IndexOf(r, dirs[i])
    decreases n
  {
    var d := dirs[n - 1];
    var prev := InsertNewDirs(path, dirs[..n - 1]);
    assert dirs[..n] == dirs[..n - 1] + [d];
    InsertNewDirsSnoc(path, dirs[..n - 1], d);
    if n == j + 1 {
      InsertNewDirsMembers(path, dirs[..j]);
      assert dirs[i] in dirs[..j];
      FrontInsertPrecedes(prev, d, dirs[i]);
    } else {
      OrderFrom(path, dirs, i, j, n - 1);
      InsertDirKeepsOrder(prev, d, dirs[i], dirs[j]);
    }
  }
}
