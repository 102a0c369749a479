/**
 * The Python 2 `str` builtins the namespace builder relies on: `startswith`
 * (private names and helper names), and `in` (substring search), `split` and
 * `strip` (the extra-module parser). `Join` is not used by the device: it is
 * the inverse of `split` that the round-trip lemmas are stated with.
 * Strings are sequences of characters.
 */
module PyStrings {
  import opened Wrappers

  /** `s.startswith(p)` */
  predicate StartsWith(s: string, p: string) {
    |p| <= |s| && s[..|p|] == p
  }

  /** `sep` occurs in `s` starting at index `i`. */
  predicate OccursAt(s: string, sep: string, i: int) {
    0 <= i && i + |sep| <= |s| && s[i..i + |sep|] == sep
  }

  /** An occurrence in a suffix `s[k..]` is an occurrence in `s`, shifted by `k`. */
  lemma OccursAtShift(s: string, sep: string, k: nat, i: nat)
    requires k <= |s|
    ensures OccursAt(s[k..], sep, i) <==> OccursAt(s, sep, i + k)
  {
    if 0 <= i && i + |sep| <= |s| - k {
      assert s[k..][i..i + |sep|] == s[i + k..i + k + |sep|];
    }
  }

  /** An occurrence that ends inside the prefix `a` of `a + b` is an occurrence in `a`. */
  lemma OccursAtPrefix(a: string, b: string, sep: string, i: int)
    requires 0 <= i && i + |sep| <= |a|
    ensures OccursAt(a + b, sep, i) <==> OccursAt(a, sep, i)
  {
    assert (a + b)[i..i + |sep|] == a[i..i + |sep|];
  }

  /** `s.find(sep)`, with `None` for -1. */
  function Find(s: string, sep: string): (r: Option<nat>)
    ensures r.Some? ==> r.value + |sep| <= |s|
    decreases |s|
  {
    if |s| < |sep| then None
    else if s[..|sep|] == sep then Some(0)
    else
      match Find(s[1..], sep)
      case None => None
      case Some(i) => Some(i + 1)
  }

  /** `find` returns the lowest index at which `sep` occurs, and `None` when it does not occur. */
  lemma {:induction false} FindSpec(s: string, sep: string)
    ensures var r := Find(s, sep);
      && (r.Some? ==> OccursAt(s, sep, r.value))
      && (r.Some? ==> forall j :: 0 <= j < r.value ==> !OccursAt(s, sep, j))
      && (r.None? ==> forall j :: !OccursAt(s, sep, j))
    decreases |s|
  {
    if |s| >= |sep| && s[..|sep|] != sep {
      assert !OccursAt(s, sep, 0);
      FindSpec(s[1..], sep);
      match Find(s[1..], sep)
      case None =>
        forall j | j >= 1 ensures !OccursAt(s, sep, j) {
          OccursAtShift(s, sep, 1, j - 1);
        }
      case Some(i) =>
        OccursAtShift(s, sep, 1, i);
        forall j | 1 <= j < i + 1 ensures !OccursAt(s, sep, j) {
          OccursAtShift(s, sep, 1, j - 1);
        }
    }
  }

  /** `sep in s` */
  predicate Contains(s: string, sep: string) {
    Find(s, sep).Some?
  }

  /** `sep in s` holds exactly when `sep` occurs somewhere in `s`. */
  lemma ContainsAt(s: string, sep: string, i: int)
    requires OccursAt(s, sep, i)
    ensures Contains(s, sep)
  {
    FindSpec(s, sep);
  }

  /**
   * `s.split(sep)` for a non-empty separator: the pieces between the
   * non-overlapping occurrences of `sep`, found from left to right.
   */
  function Split(s: string, sep: string): (parts: seq<string>)
    requires sep != []
    ensures |parts| >= 1
    ensures |parts| == 1 <==> !Contains(s, sep)
    decreases |s|
  {
    match Find(s, sep)
    case None => [s]
    case Some(i) =>
      FindSpec(s, sep);
      [s[..i]] + Split(s[i + |sep|..], sep)
  }

  /** No piece of a split contains the separator. */
  lemma {:induction false} SplitPiecesFree(s: string, sep: string)
    requires sep != []
    ensures forall piece :: piece in Split(s, sep) ==> !Contains(piece, sep)
    decreases |s|
  {
    match Find(s, sep)
    case None =>
      assert Split(s, sep) == [s];
    case Some(i) =>
      var rest := s[i + |sep|..];
      var parts := Split(s, sep);
      SplitStep(s, sep, i);
      SplitPiecesFree(rest, sep);
      BeforeFirstOccurrence(s, sep, i);
  }

  /** The text before the first occurrence of `sep` does not contain it. */
  lemma BeforeFirstOccurrence(s: string, sep: string, i: nat)
    requires sep != [] && Find(s, sep) == Some(i)
    ensures !Contains(s[..i], sep)
  {
    var head := s[..i];
    FindSpec(head, sep);
    if Contains(head, sep) {
      var j := Find(head, sep).value;
      assert head[j..j + |sep|] == s[j..j + |sep|];
      FindSpec(s, sep);
      assert OccursAt(s, sep, j);
    }
  }

  /**
   * With the separator occurring once, between `x` and `y`, the split gives
   * exactly those two pieces. An occurrence overlapping the end of `x` is
   * excluded by asking that `x` followed by all but the last character of
   * `sep` does not contain `sep`.
   */
  lemma SplitOnce(x: string, y: string, sep: string)
    requires sep != []
    requires !Contains(x + sep[..|sep| - 1], sep) && !Contains(y, sep)
    ensures Split(x + sep + y, sep) == [x, y]
  {
    var s := x + sep + y;
    var n := |x|;
    var head := x + sep[..|sep| - 1];
    assert s == head + (sep[|sep| - 1..] + y);
    assert OccursAt(s, sep, n) by {
      assert s[n..n + |sep|] == sep;
    }
    forall j | 0 <= j < n ensures !OccursAt(s, sep, j) {
      if OccursAt(s, sep, j) {
        OccursAtPrefix(head, sep[|sep| - 1..] + y, sep, j);
        ContainsAt(head, sep, j);
      }
    }
    FindSpec(s, sep);
    assert Find(s, sep) == Some(n);
    SplitStep(s, sep, n);
    assert s[..n] == x && s[n + |sep|..] == y;
    assert Split(y, sep) == [y];
  }

  /** Two non-overlapping occurrences of the separator give at least three pieces. */
  lemma SplitTwice(a: string, b: string, c: string, sep: string)
    requires sep != []
    ensures |Split(a + sep + b + sep + c, sep)| > 2
  {
    var s := a + sep + b + sep + c;
    var p := |a| + |sep| + |b|;
    assert OccursAt(s, sep, |a|) by {
      assert s[|a|..|a| + |sep|] == sep;
    }
    assert OccursAt(s, sep, p) by {
      assert s == (a + sep + b) + (sep + c);
      assert s[p..p + |sep|] == sep;
    }
    ContainsAt(s, sep, |a|);
    var i := Find(s, sep).value;
    FindSpec(s, sep);
    assert i <= |a|;
    var rest := s[i + |sep|..];
    OccursAtShift(s, sep, i + |sep|, p - i - |sep|);
    ContainsAt(rest, sep, p - i - |sep|);
    SplitStep(s, sep, i);
  }

  /** `sep.join(parts)` */
  function Join(parts: seq<string>, sep: string): string {
    if parts == [] then ""
    else if |parts| == 1 then parts[0]
    else parts[0] + sep + Join(parts[1..], sep)
  }

  /** One step of a split: the piece before the first occurrence, then the split of the rest. */
  lemma SplitStep(s: string, sep: string, i: nat)
    requires sep != [] && Find(s, sep) == Some(i)
    ensures Split(s, sep) == [s[..i]] + Split(s[i + |sep|..], sep)
    ensures s == s[..i] + sep + s[i + |sep|..]
  {
    FindOccurs(s, sep);
    Around(s, sep, i);
  }

  /** `find` returns an occurrence. */
  lemma FindOccurs(s: string, sep: string)
    requires Find(s, sep).Some?
    ensures OccursAt(s, sep, Find(s, sep).value)
  {
    FindSpec(s, sep);
  }

  /** An occurrence splits `s` into the text before it, `sep` and the text after it. */
  lemma Around(s: string, sep: string, i: int)
    requires OccursAt(s, sep, i)
    ensures s == s[..i] + sep + s[i + |sep|..]
  {
    assert s == s[..i] + s[i..i + |sep|] + s[i + |sep|..];
  }

  lemma JoinCons(p: string, rest: seq<string>, sep: string)
    requires rest != []
    ensures Join([p] + rest, sep) == p + sep + Join(rest, sep)
  {
    assert ([p] + rest)[1..] == rest;
  }

  /** Joining the pieces of a split with the same separator gives back the string. */
  lemma {:induction false} JoinSplit(s: string, sep: string)
    requires sep != []
    ensures Join(Split(s, sep), sep) == s
    decreases |s|
  {
    match Find(s, sep)
    case None =>
    case Some(i) =>
      var rest := s[i + |sep|..];
      SplitStep(s, sep, i);
      JoinSplit(rest, sep);
      JoinCons(s[..i], Split(rest, sep), sep);
  }

  /**
   * Splitting on a one-character separator undoes a join of pieces that do
   * not contain that character.
   */
  lemma {:induction false} SplitJoin(parts: seq<string>, sep: string)
    requires |sep| == 1 && |parts| >= 1
    requires forall k :: 0 <= k < |parts| ==> sep[0] !in parts[k]
    ensures Split(Join(parts, sep), sep) == parts
    decreases |parts|
  {
    if |parts| == 1 {
      NoOccurrence(parts[0], sep);
    } else {
      var s := Join(parts, sep);
      var rest := Join(parts[1..], sep);
      assert s == parts[0] + (sep + rest);
      var p := |parts[0]|;
      assert OccursAt(s, sep, p) by {
        assert s[p..p + 1] == sep;
      }
      forall j | 0 <= j < p ensures !OccursAt(s, sep, j) {
        assert s[j..j + 1][0] == s[j] == parts[0][j];
      }
      FindSpec(s, sep);
      assert Find(s, sep) == Some(p);
      assert s[p + 1..] == rest;
      SplitJoin(parts[1..], sep);
    }
  }

  /** A string without the character of a one-character separator does not contain it. */
  lemma NoOccurrence(s: string, sep: string)
    requires |sep| == 1 && sep[0] !in s
    ensures !Contains(s, sep)
  {
    forall j | 0 <= j < |s| ensures !OccursAt(s, sep, j) {
      assert s[j..j + 1][0] == s[j];
    }
    FindSpec(s, sep);
  }

  /** The whitespace that Python 2's `str.strip()` removes: space, tab, LF, VT, FF, CR. */
  predicate IsSpace(c: char) {
    c == ' ' || '\t' <= c <= '\r'
  }

  predicate AllSpace(s: string) {
    forall i :: 0 <= i < |s| ==> IsSpace(s[i])
  }

  /** `s.lstrip()` */
  function StripLeft(s: string): string
    decreases |s|
  {
    if s != [] && IsSpace(s[0]) then StripLeft(s[1..]) else s
  }

  /** `s.rstrip()` */
  function StripRight(s: string): string
    decreases |s|
  {
    if s != [] && IsSpace(s[|s| - 1]) then StripRight(s[..|s| - 1]) else s
  }

  /** `s.strip()` */
  function Strip(s: string): string {
    StripRight(StripLeft(s))
  }

  /** `lstrip` removes exactly the leading whitespace. */
  lemma {:induction false} StripLeftSpec(s: string)
    ensures var r := StripLeft(s);
      && |r| <= |s| && r == s[|s| - |r|..]
      && AllSpace(s[..|s| - |r|])
      && (r == [] || !IsSpace(r[0]))
    decreases |s|
  {
    if s != [] && IsSpace(s[0]) {
      var t := s[1..];
      var r := StripLeft(t);
      StripLeftSpec(t);
      var n := |s| - |r|;
      assert r == t[n - 1..] == s[n..];
      forall i | 0 <= i < n ensures IsSpace(s[i]) {
        if i > 0 {
          assert s[i] == t[..n - 1][i - 1];
        }
      }
    }
  }

  /** `rstrip` removes exactly the trailing whitespace. */
  lemma {:induction false} StripRightSpec(s: string)
    ensures var r := StripRight(s);
      && |r| <= |s| && r == s[..|r|]
      && AllSpace(s[|r|..])
      && (r == [] || !IsSpace(r[|r| - 1]))
    decreases |s|
  {
    if s != [] && IsSpace(s[|s| - 1]) {
      var r := StripRight(s[..|s| - 1]);
      StripRightSpec(s[..|s| - 1]);
      assert s[|r|..] == s[..|s| - 1][|r|..] + [s[|s| - 1]];
    }
  }

  /**
   * `strip` leaves the text between the leading and the trailing whitespace:
   * the result neither begins nor ends with whitespace, and it sits in `s`
   * at some index `a` with only whitespace before and after it.
   */
  lemma StripSpec(s: string)
    ensures var r := Strip(s);
      && (r == [] || (!IsSpace(r[0]) && !IsSpace(r[|r| - 1])))
      && exists a :: 0 <= a <= |s| - |r| && AllSpace(s[..a]) && s[a..a + |r|] == r && AllSpace(s[a + |r|..])
  {
    var l := StripLeft(s);
    var r := StripRight(l);
    StripLeftSpec(s);
    StripRightSpec(l);
    var a := |s| - |l|;
    assert s[a..a + |r|] == r;
    assert s[a + |r|..] == l[|r|..];
  }

  /** A string that neither begins nor ends with whitespace is left alone by `strip()`. */
  lemma StripTrimmed(s: string)
    requires s == [] || (!IsSpace(s[0]) && !IsSpace(s[|s| - 1]))
    ensures Strip(s) == s
  {
  }
}
