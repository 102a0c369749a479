/**
 * The evaluation namespace (`_locals`) that dynamic-attribute formulas run
 * against, and the tables it is assembled from in the device constructor:
 * the public names of the `LIBS` modules, the `NAMES` objects keyed by their
 * `__name__`, and the `OTHERS` table with its conversion helpers.
 *
 * A Python module is modelled by its `__dict__`, a map from names to values.
 */
module Namespace {
  import opened Wrappers
  import opened PyStrings

  /** What a name can be bound to: a whole module (by its name) or any other object. */
  datatype Value = Module(name: string) | Object(id: nat)

  type ModuleDict = map<string, Value>

  /** Names starting with `__` are private to a module and never exported. */
  predicate IsPrivate(name: string) {
    StartsWith(name, "__")
  }

  /** The allow-list test of `get_module_dict`: `not ks or k in ks`. */
  predicate Allowed(name: string, ks: Option<seq<string>>) {
    ks.None? || ks.value == [] || name in ks.value
  }

  /**
   * `get_module_dict(module, ks)`: the entries of the module's dictionary whose
   * name is public and, when a non-empty `ks` is given, listed in `ks`.
   */
  function GetModuleDict(dict: ModuleDict, ks: Option<seq<string>>): (r: ModuleDict)
    ensures forall k :: k in r <==> k in dict && !IsPrivate(k) && Allowed(k, ks)
    ensures forall k :: k in r ==> r[k] == dict[k]
  {
    map k | k in dict && Allowed(k, ks) && !IsPrivate(k) :: dict[k]
  }

  /** Filtering a filtered dictionary again changes nothing. */
  lemma GetModuleDictIdempotent(dict: ModuleDict, ks: Option<seq<string>>)
    ensures GetModuleDict(GetModuleDict(dict, ks), ks) == GetModuleDict(dict, ks)
  {
  }

  /** A non-empty allow-list restricts the public entries to the listed names. */
  lemma GetModuleDictAllowList(dict: ModuleDict, ks: seq<string>)
    requires ks != []
    ensures GetModuleDict(dict, Some(ks)) == map k | k in GetModuleDict(dict, None) && k in ks :: dict[k]
  {
  }

  // ---------------------------------------------------------------------
  // Dictionaries built from lists of pairs, as `dict(pairs)` does.

  /** `pairs[i]` is the last pair of `pairs` with its key. */
  predicate LastWithKey(pairs: seq<(string, Value)>, i: int) {
    0 <= i < |pairs| && forall j :: i < j < |pairs| ==> pairs[j].0 != pairs[i].0
  }

  /**
   * `dict(pairs)`: every key of a pair is bound, nothing else is, and a key
   * given several times is bound to the value of its last pair.
   */
  function DictOf(pairs: seq<(string, Value)>): (r: ModuleDict)
    ensures r.Keys == set p | p in pairs :: p.0
    ensures forall i :: LastWithKey(pairs, i) ==> pairs[i].0 in r && r[pairs[i].0] == pairs[i].1
    decreases |pairs|
  {
    if pairs == [] then map[]
    else
      var n := |pairs| - 1;
      var init := pairs[..n];
      assert pairs == init + [pairs[n]];
      var r := DictOf(init)[pairs[n].0 := pairs[n].1];
      assert forall i | LastWithKey(pairs, i) && i < n :: LastWithKey(init, i) by {
        forall i | LastWithKey(pairs, i) && i < n ensures LastWithKey(init, i) {
          assert forall j :: i < j < n ==> init[j] == pairs[j];
        }
      }
      r
  }

  /** Every pair is followed, possibly at the same index, by the last pair with its key. */
  lemma {:induction false} LastPairOf(pairs: seq<(string, Value)>, i: nat) returns (j: nat)
    requires i < |pairs|
    ensures i <= j && LastWithKey(pairs, j) && pairs[j].0 == pairs[i].0
    decreases |pairs| - i
  {
    if k :| i < k < |pairs| && pairs[k].0 == pairs[i].0 {
      j := LastPairOf(pairs, k);
    } else {
      j := i;
    }
  }

  // ---------------------------------------------------------------------
  // OTHERS

  /**
   * The naming convention that picks conversion helpers out of
   * `fandango.functional`: the name contains `2` or starts with `to`.
   */
  predicate IsConversionHelper(name: string) {
    '2' in name || StartsWith(name, "to")
  }

  /**
   * The `(f, getattr(fandango, f))` pairs for the helper names in
   * `functionalNames` (the output of `dir(fandango.functional)`), in order;
   * `None` when a selected helper is not an attribute of the `fandango` package.
   */
  function HelperPairs(functionalNames: seq<string>, fandango: ModuleDict): (r: Option<seq<(string, Value)>>)
    ensures r.Some? ==> forall p :: p in r.value ==> p.0 in functionalNames && IsConversionHelper(p.0) && p.0 in fandango && p.1 == fandango[p.0]
    ensures r.Some? ==> forall f :: f in functionalNames && IsConversionHelper(f) ==> f in fandango && (f, fandango[f]) in r.value
    ensures r.None? <==> exists f :: f in functionalNames && IsConversionHelper(f) && f !in fandango
    decreases |functionalNames|
  {
    if functionalNames == [] then Some([])
    else
      var f := functionalNames[0];
      assert functionalNames == [f] + functionalNames[1..];
      match HelperPairs(functionalNames[1..], fandango)
      case None => None
      case Some(rest) =>
        if !IsConversionHelper(f) then Some(rest)
        else if f !in fandango then None
        else
          Some([(f, fandango[f])] + rest)
  }

  /**
   * The class attribute `OTHERS`: the fixed pairs (`fandango`, `archiving`,
   * `np`) followed by the conversion helpers; `None` when building it raises.
   */
  function OthersTable(fixed: seq<(string, Value)>, functionalNames: seq<string>, fandango: ModuleDict): Option<ModuleDict> {
    match HelperPairs(functionalNames, fandango)
    case None => None
    case Some(helpers) => Some(DictOf(fixed + helpers))
  }

  /** A listed helper name that no fixed pair uses is bound to the package's attribute. */
  lemma HelperBound(fixed: seq<(string, Value)>, helpers: seq<(string, Value)>, functionalNames: seq<string>, fandango: ModuleDict, f: string)
    requires HelperPairs(functionalNames, fandango) == Some(helpers)
    requires f in functionalNames && IsConversionHelper(f)
    requires forall i :: 0 <= i < |fixed| ==> fixed[i].0 != f
    ensures f in fandango && f in DictOf(fixed + helpers) && DictOf(fixed + helpers)[f] == fandango[f]
  {
    var pairs := fixed + helpers;
    var i :| 0 <= i < |helpers| && helpers[i] == (f, fandango[f]);
    assert pairs[|fixed| + i] == helpers[i];
    var last := LastPairOf(pairs, |fixed| + i);
    assert pairs[last] == helpers[last - |fixed|];
    assert pairs[last] in helpers;
  }

  /** A name that is not a helper and that no fixed pair uses is not bound. */
  lemma NonHelperAbsent(fixed: seq<(string, Value)>, helpers: seq<(string, Value)>, functionalNames: seq<string>, fandango: ModuleDict, f: string)
    requires HelperPairs(functionalNames, fandango) == Some(helpers)
    requires !IsConversionHelper(f)
    requires forall i :: 0 <= i < |fixed| ==> fixed[i].0 != f
    ensures f !in DictOf(fixed + helpers)
  {
    var pairs := fixed + helpers;
    forall q | q in pairs ensures q.0 != f {
      if q !in helpers {
        var i :| 0 <= i < |fixed| && fixed[i] == q;
      }
    }
  }

  /**
   * A name listed by `dir(fandango.functional)` and not among the fixed pairs
   * is in `OTHERS` exactly when it follows the helper naming convention, and
   * then it is bound to the package's attribute of that name.
   */
  lemma OthersHelperSelection(fixed: seq<(string, Value)>, functionalNames: seq<string>, fandango: ModuleDict, f: string)
    requires OthersTable(fixed, functionalNames, fandango).Some?
    requires f in functionalNames
    requires forall i :: 0 <= i < |fixed| ==> fixed[i].0 != f
    ensures var others := OthersTable(fixed, functionalNames, fandango).value;
      (f in others <==> IsConversionHelper(f)) &&
      (f in others ==> f in fandango && others[f] == fandango[f])
  {
    var helpers := HelperPairs(functionalNames, fandango).value;
    if IsConversionHelper(f) {
      HelperBound(fixed, helpers, functionalNames, fandango, f);
    } else {
      NonHelperAbsent(fixed, helpers, functionalNames, fandango, f);
    }
  }

  /** The fixed pairs of `OTHERS` are kept unless a helper of the same name follows them. */
  lemma OthersFixedEntries(fixed: seq<(string, Value)>, functionalNames: seq<string>, fandango: ModuleDict, i: nat)
    requires OthersTable(fixed, functionalNames, fandango).Some?
    requires LastWithKey(fixed, i) && !IsConversionHelper(fixed[i].0)
    ensures var others := OthersTable(fixed, functionalNames, fandango).value;
      fixed[i].0 in others && others[fixed[i].0] == fixed[i].1
  {
    var helpers := HelperPairs(functionalNames, fandango).value;
    var pairs := fixed + helpers;
    forall j | i < j < |pairs| ensures pairs[j].0 != pairs[i].0 {
      if j >= |fixed| {
        assert pairs[j] == helpers[j - |fixed|];
      }
    }
    assert LastWithKey(pairs, i);
  }

  // ---------------------------------------------------------------------
  // NAMES

  /**
   * An entry of `NAMES`: an object with a `__name__`, or `None`, which is what
   * `PyTangoArchiving` is when its optional import fails.
   */
  datatype NameSource = Named(dunderName: string, obj: Value) | NoneObject

  /** `names[i]` is the last entry of `names` with its `__name__`. */
  predicate LastNamed(names: seq<NameSource>, i: int) {
    0 <= i < |names| && names[i].Named? &&
    forall j :: i < j < |names| ==> names[j] == NoneObject || names[j].dunderName != names[i].dunderName
  }

  /**
   * The table `(k.__name__, k) for k in NAMES` as intended: every object is
   * bound under its `__name__` (the later one wins on a clash), and entries
   * that are `None` are left out.
   */
  function NamesByDunder(names: seq<NameSource>): (r: ModuleDict)
    ensures r.Keys == set x | x in names && x.Named? :: x.dunderName
    ensures forall i :: LastNamed(names, i) ==> names[i].dunderName in r && r[names[i].dunderName] == names[i].obj
    decreases |names|
  {
    if names == [] then map[]
    else
      var n := |names| - 1;
      var init := names[..n];
      assert names == init + [names[n]];
      var r := NamesByDunder(init);
      LastNamedInit(names);
      if names[n].Named? then r[names[n].dunderName := names[n].obj] else r
  }

  /** The last entry with a name in `names` is still the last one before a further entry. */
  lemma LastNamedInit(names: seq<NameSource>)
    requires names != []
    ensures forall i | LastNamed(names, i) && i < |names| - 1 :: LastNamed(names[..|names| - 1], i)
  {
    var init := names[..|names| - 1];
    forall i | LastNamed(names, i) && i < |names| - 1 ensures LastNamed(init, i) {
      assert forall j :: i < j < |init| ==> init[j] == names[j];
    }
  }

  /**
   * The same table as the constructor computes it: reading `__name__` of a
   * `None` entry raises, and the exception aborts the constructor.
   */
  function NamesByDunderAsWritten(names: seq<NameSource>): (r: Option<ModuleDict>)
    ensures r.None? <==> NoneObject in names
    ensures r.Some? ==> r.value == NamesByDunder(names)
    decreases |names|
  {
    if names == [] then Some(map[])
    else
      var n := |names| - 1;
      assert names == names[..n] + [names[n]];
      match names[n]
      case NoneObject => None
      case Named(k, v) =>
        match NamesByDunderAsWritten(names[..n])
        case None => None
        case Some(r) => Some(r[k := v])
  }

  /**
   * With `PyTangoArchiving` unavailable, the constructor's `NAMES` table
   * cannot be built at all, although the module's import was made optional.
   */
  lemma MissingArchivingAbortsConstructor(math: Value, numpy: Value)
    ensures NamesByDunderAsWritten([Named("math", math), NoneObject, Named("numpy", numpy)]).None?
    ensures NamesByDunder([Named("math", math), NoneObject, Named("numpy", numpy)]) == map["math" := math, "numpy" := numpy]
  {
    var names := [Named("math", math), NoneObject, Named("numpy", numpy)];
    assert NoneObject in names;
    assert LastNamed(names, 0) && LastNamed(names, 2);
  }

  // ---------------------------------------------------------------------
  // LIBS and the assembled namespace

  /**
   * The public names of the `LIBS` modules, merged in order so that a later
   * module overrides an earlier one.
   */
  function LibraryNames(libs: seq<ModuleDict>): ModuleDict
    decreases |libs|
  {
    if libs == [] then map[]
    else LibraryNames(libs[..|libs| - 1]) + GetModuleDict(libs[|libs| - 1], None)
  }

  /** `libs[i]` is the last module in `libs` that defines `k`. */
  predicate LastDefiner(libs: seq<ModuleDict>, i: int, k: string) {
    0 <= i < |libs| && k in libs[i] && forall j :: i < j < |libs| ==> k !in libs[j]
  }

  /** A name is among the library names exactly when it is public and some module of `libs` defines it. */
  lemma {:induction false} LibraryNamesKeys(libs: seq<ModuleDict>, k: string)
    ensures k in LibraryNames(libs) <==> !IsPrivate(k) && exists i :: 0 <= i < |libs| && k in libs[i]
    decreases |libs|
  {
    if libs != [] {
      var n := |libs| - 1;
      var init := libs[..n];
      LibraryNamesKeys(init, k);
      assert LibraryNames(libs) == LibraryNames(init) + GetModuleDict(libs[n], None);
      if !IsPrivate(k) && exists i :: 0 <= i < |libs| && k in libs[i] {
        var i :| 0 <= i < |libs| && k in libs[i];
        if i < n {
          assert k in init[i];
        }
      }
    }
  }

  /** A public name is bound as in the last module of `libs` that defines it. */
  lemma {:induction false} LibraryNamesValue(libs: seq<ModuleDict>, k: string, i: int)
    requires LastDefiner(libs, i, k) && !IsPrivate(k)
    ensures k in LibraryNames(libs) && LibraryNames(libs)[k] == libs[i][k]
    decreases |libs|
  {
    var n := |libs| - 1;
    var init := libs[..n];
    var last := GetModuleDict(libs[n], None);
    assert LibraryNames(libs) == LibraryNames(init) + last;
    if i < n {
      assert LastDefiner(init, i, k) by {
        assert forall j :: i < j < n ==> init[j] == libs[j];
      }
      LibraryNamesValue(init, k, i);
      assert k !in last;
    }
  }

  /**
   * A name is among the library names exactly when it is public and some
   * module of `libs` defines it; it is then bound as in the last such module.
   */
  lemma LibraryNamesLookup(libs: seq<ModuleDict>, k: string)
    ensures k in LibraryNames(libs) <==> !IsPrivate(k) && exists i :: 0 <= i < |libs| && k in libs[i]
    ensures forall i :: LastDefiner(libs, i, k) && !IsPrivate(k) ==> LibraryNames(libs)[k] == libs[i][k]
  {
    LibraryNamesKeys(libs, k);
    forall i | LastDefiner(libs, i, k) && !IsPrivate(k)
      ensures LibraryNames(libs)[k] == libs[i][k]
    {
      LibraryNamesValue(libs, k, i);
    }
  }

  /** The namespace assembled by the constructor: `LIBS`, then `NAMES`, then `OTHERS`. */
  function Assembled(libs: seq<ModuleDict>, names: seq<NameSource>, others: ModuleDict): ModuleDict {
    LibraryNames(libs) + NamesByDunder(names) + others
  }

  /**
   * In the assembled namespace a name is bound to its `OTHERS` value if it has
   * one, else to the object in `NAMES` with that `__name__` (the last one),
   * else to its value in the last library that defines it as a public name;
   * no other name is bound.
   */
  lemma AssembledLookup(libs: seq<ModuleDict>, names: seq<NameSource>, others: ModuleDict, k: string)
    ensures var ns := Assembled(libs, names, others);
      k in ns <==> k in others || (exists x :: x in names && x.Named? && x.dunderName == k) || (!IsPrivate(k) && exists i :: 0 <= i < |libs| && k in libs[i])
    ensures var ns := Assembled(libs, names, others);
      k in others ==> ns[k] == others[k]
    ensures var ns := Assembled(libs, names, others);
      forall i :: k !in others && LastNamed(names, i) && names[i].dunderName == k ==> ns[k] == names[i].obj
    ensures var ns := Assembled(libs, names, others);
      forall i :: k !in others && (forall x :: x in names && x.Named? ==> x.dunderName != k) && LastDefiner(libs, i, k) && !IsPrivate(k) ==> ns[k] == libs[i][k]
  {
    LibraryNamesLookup(libs, k);
  }
}
