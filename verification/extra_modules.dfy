/**
 * The `ExtraModules` device property: each entry `"pkg[.member][ as alias]"`
 * extends the evaluation namespace with a module, all public names of a
 * module, or one member of a module. Entries are processed in order; an entry
 * that fails is skipped and leaves the namespace as it was.
 *
 * Importing is abstracted: `modules` maps each importable top-level module
 * name to its dictionary.
 */
module ExtraModules {
  import opened Wrappers
  import opened PyStrings
  import opened Namespace

  type Modules = map<string, ModuleDict>

  const AsSep: string := " as "

  /** Top-level modules an entry may not load. */
  const DeniedRoots: set<string> := {"sys", "os"}

  /** A parsed entry: the dotted module path and the name to bind. */
  datatype ModuleSpec = ModuleSpec(path: seq<string>, alias: string)

  /**
   * Parsing an entry. With one ` as ` the text before it is the module part
   * and the text after it (not stripped) the alias; without one the alias is
   * empty. The module part is stripped and split on dots, and an empty alias
   * defaults to the last dotted component. When the split on ` as ` gives more
   * than two pieces (two non-overlapping occurrences) the
   * two-name unpacking fails: `None`.
   */
  function ParseSpec(line: string): (r: Option<ModuleSpec>)
    ensures r.Some? ==> r.value.path != []
    ensures r.None? <==> |Split(line, AsSep)| > 2
  {
    var pair := if Contains(line, AsSep) then Split(line, AsSep) else [line, ""];
    if |pair| != 2 then None else Some(SpecOf(pair[0], pair[1]))
  }

  /** The entry for a module part and an alias part: the alias defaults to the last dotted component. */
  function SpecOf(modulePart: string, alias: string): ModuleSpec {
    var path := Split(Strip(modulePart), ".");
    ModuleSpec(path, if alias == "" then path[|path| - 1] else alias)
  }

  /** What became of one entry. */
  datatype Outcome =
    | Unparsable        // the split on ` as ` gave more than two pieces
    | AliasBound        // the alias is already in the namespace: skipped
    | Forbidden         // the root module is `sys` or `os`
    | NoModule          // the root module cannot be imported
    | NoMember          // the module has no member of that name
    | Bound(key: string) // one name was bound
    | Merged            // all public names of the module were merged in
  {
    predicate Loaded() {
      Bound? || Merged?
    }
  }

  datatype Step = Step(outcome: Outcome, ns: ModuleDict)

  /**
   * Processing one parsed entry against the namespace `ns`. Only the root
   * module `path[0]` is imported and only `path[1]` is looked up in it. The
   * alias check comes before the deny-list check.
   */
  function ApplySpec(ns: ModuleDict, spec: ModuleSpec, modules: Modules): (r: Step)
    requires spec.path != []
    ensures !r.outcome.Loaded() ==> r.ns == ns
    ensures r.outcome.Bound? ==> r.ns.Keys == ns.Keys + {r.outcome.key}
    ensures r.outcome.Bound? ==> forall k :: k in ns && k != r.outcome.key ==> r.ns[k] == ns[k]
    ensures r.outcome.Merged? ==> ns.Keys <= r.ns.Keys
    ensures r.outcome != Unparsable
  {
    var path, alias := spec.path, spec.alias;
    if alias in ns then Step(AliasBound, ns)
    else if path[0] in DeniedRoots then Step(Forbidden, ns)
    else if path[0] !in modules then Step(NoModule, ns)
    else
      var dict := modules[path[0]];
      if |path| == 1 then
        var key := if alias == "" then path[0] else alias;
        Step(Bound(key), ns[key := Module(path[0])])
      else if path[1] == "*" then
        Step(Merged, ns + GetModuleDict(dict, None))
      else if path[1] !in dict then
        Step(NoMember, ns)
      else
        var key := if alias == "" then path[1] else alias;
        Step(Bound(key), ns[key := dict[path[1]]])
  }

  /** Processing one entry: an entry that does not parse is skipped. */
  function ApplyEntry(ns: ModuleDict, line: string, modules: Modules): (r: Step)
    ensures !r.outcome.Loaded() ==> r.ns == ns
    ensures ns.Keys <= r.ns.Keys
  {
    match ParseSpec(line)
    case None => Step(Unparsable, ns)
    case Some(spec) => ApplySpec(ns, spec, modules)
  }

  /** Processing all entries in order. */
  function ApplyAll(ns: ModuleDict, lines: seq<string>, modules: Modules): ModuleDict
    decreases |lines|
  {
    if lines == [] then ns
    else ApplyAll(ApplyEntry(ns, lines[0], modules).ns, lines[1..], modules)
  }

  // ---------------------------------------------------------------------
  // Parsing

  /** Without ` as `, the path is the stripped entry split on dots and the alias its last component. */
  lemma ParseWithoutAlias(line: string, path: seq<string>)
    requires !Contains(line, AsSep) && path == Split(Strip(line), ".")
    ensures ParseSpec(line) == Some(ModuleSpec(path, path[|path| - 1]))
  {
    assert ParseSpec(line) == Some(SpecOf(line, ""));
  }

  /**
   * `"X as Y"` with a single ` as `: the path is `X` stripped and split on
   * dots, and the alias is `Y` exactly as written (its last component of `X`
   * when `Y` is empty). `X + " as"` having no occurrence of ` as ` makes the
   * one after `X` the first.
   */
  lemma ParseWithAlias(x: string, y: string)
    requires !Contains(x + " as", AsSep) && !Contains(y, AsSep)
    ensures var path := Split(Strip(x), ".");
      ParseSpec(x + AsSep + y) == Some(ModuleSpec(path, if y == "" then path[|path| - 1] else y))
  {
    assert AsSep[..3] == " as";
    SplitOnce(x, y, AsSep);
    assert ParseSpec(x + AsSep + y) == Some(SpecOf(x, y));
  }

  /**
   * An entry with two non-overlapping ` as ` fails to parse, whatever
   * surrounds them. Overlapping ones share a space and count once: see
   * `ParseOverlappingAliases`.
   */
  lemma ParseTwoAliases(a: string, b: string, c: string)
    ensures ParseSpec(a + AsSep + b + AsSep + c) == None
  {
    SplitTwice(a, b, c, AsSep);
  }

  /**
   * `"x as as y"` holds ` as ` at indices 1 and 4, but the split finds only
   * the first, so the entry parses with the alias `as y`.
   */
  lemma ParseOverlappingAliases(x: string, y: string)
    requires x == "x" && y == "as y"
    ensures x + AsSep + y == "x as as y"
    ensures ParseSpec(x + AsSep + y) == Some(ModuleSpec([x], y))
  {
    NoSpaceNoAs(x);
    NoAsInShort(y);
    ParseWithAlias(x, y);
    SingleComponent(x);
  }

  /** The entry of `ParseOverlappingAliases` does hold ` as ` twice, at indices 1 and 4. */
  lemma OverlappingOccurrences(line: string)
    requires line == "x as as y"
    ensures OccursAt(line, AsSep, 1) && OccursAt(line, AsSep, 4)
  {
    assert line[1..5] == AsSep && line[4..8] == AsSep;
  }

  /** Four characters not starting with a space cannot hold ` as `. */
  lemma NoAsInShort(y: string)
    requires |y| == 4 && y[0] != ' '
    ensures !Contains(y, AsSep)
  {
    FindSpec(y, AsSep);
    assert !OccursAt(y, AsSep, 0);
  }

  /** A name without dots or surrounding whitespace is a one-component path. */
  lemma SingleComponent(x: string)
    requires '.' !in x && (x == [] || (!IsSpace(x[0]) && !IsSpace(x[|x| - 1])))
    ensures Split(Strip(x), ".") == [x]
  {
    StripTrimmed(x);
    SplitJoin([x], ".");
  }

  /** The text of an entry with an explicit alias. */
  function Render(spec: ModuleSpec): string {
    Join(spec.path, ".") + AsSep + spec.alias
  }

  /** The text of an entry without an alias. */
  function RenderPlain(path: seq<string>): string {
    Join(path, ".")
  }

  /**
   * A module path that an entry can spell: at least one component, no
   * component holding a dot, no surrounding whitespace, and no ` as ` in it
   * or at its end.
   */
  predicate WritablePath(path: seq<string>) {
    var text := Join(path, ".");
    && path != []
    && (forall k :: 0 <= k < |path| ==> '.' !in path[k])
    && (text == [] || (!IsSpace(text[0]) && !IsSpace(text[|text| - 1])))
    && !Contains(text + " as", AsSep)
  }

  lemma NoAsInside(x: string)
    requires !Contains(x + " as", AsSep)
    ensures !Contains(x, AsSep)
  {
    if Contains(x, AsSep) {
      var j := Find(x, AsSep).value;
      FindSpec(x, AsSep);
      OccursAtPrefix(x, " as", AsSep, j);
      ContainsAt(x + " as", AsSep, j);
    }
  }

  /** Parsing the text of a well-formed entry with an alias gives the entry back. */
  lemma ParseRender(spec: ModuleSpec)
    requires WritablePath(spec.path)
    requires spec.alias != "" && !Contains(spec.alias, AsSep)
    ensures ParseSpec(Render(spec)) == Some(spec)
  {
    var text := Join(spec.path, ".");
    ParseWithAlias(text, spec.alias);
    StripTrimmed(text);
    SplitJoin(spec.path, ".");
  }

  /** Parsing the text of a well-formed entry without an alias binds its last component. */
  lemma ParseRenderPlain(path: seq<string>)
    requires WritablePath(path)
    ensures ParseSpec(RenderPlain(path)) == Some(ModuleSpec(path, path[|path| - 1]))
  {
    var text := Join(path, ".");
    NoAsInside(text);
    StripTrimmed(text);
    SplitJoin(path, ".");
    assert Split(Strip(text), ".") == path;
    ParseWithoutAlias(text, path);
  }


  /** Text without spaces cannot hold ` as `, even with ` as` appended. */
  lemma NoSpaceNoAs(s: string)
    requires ' ' !in s
    ensures !Contains(s + " as", AsSep)
  {
    var t := s + " as";
    forall j | 0 <= j && j + 4 <= |t| ensures !OccursAt(t, AsSep, j) {
      assert t[j..j + 4][0] == t[j] == s[j];
    }
    FindSpec(t, AsSep);
  }

  // ---------------------------------------------------------------------
  // One entry

  /** An alias that is already bound skips the entry, before the deny-list is consulted. */
  lemma AliasCheckedFirst(ns: ModuleDict, spec: ModuleSpec, modules: Modules)
    requires spec.path != [] && spec.alias in ns
    ensures ApplySpec(ns, spec, modules) == Step(AliasBound, ns)
  {
  }

  /** An entry rooted at `sys` or `os` never changes the namespace; with a free alias it is rejected. */
  lemma DeniedRootRejected(ns: ModuleDict, spec: ModuleSpec, modules: Modules)
    requires spec.path != [] && spec.path[0] in DeniedRoots
    ensures ApplySpec(ns, spec, modules).ns == ns
    ensures spec.alias !in ns ==> ApplySpec(ns, spec, modules).outcome == Forbidden
  {
  }

  /**
   * The three forms of an entry that passes the checks: the whole module is
   * bound to the alias; `*` merges every public name of the module, replacing
   * existing bindings; otherwise the member named by the second component is
   * bound to the alias, or nothing changes when the module has no such member.
   * An empty alias binds under the module's name or the member's name instead.
   */
  lemma LoadForms(ns: ModuleDict, spec: ModuleSpec, modules: Modules)
    requires spec.path != []
    requires spec.alias !in ns && spec.path[0] !in DeniedRoots && spec.path[0] in modules
    ensures var r := ApplySpec(ns, spec, modules); var dict := modules[spec.path[0]];
      && (|spec.path| == 1 ==>
            r.ns == ns[(if spec.alias == "" then spec.path[0] else spec.alias) := Module(spec.path[0])])
      && (|spec.path| > 1 && spec.path[1] == "*" ==>
            r.ns.Keys == ns.Keys + GetModuleDict(dict, None).Keys &&
            (forall k :: k in dict && !IsPrivate(k) ==> r.ns[k] == dict[k]) &&
            (forall k :: k in ns && (k !in dict || IsPrivate(k)) ==> r.ns[k] == ns[k]))
      && (|spec.path| > 1 && spec.path[1] != "*" && spec.path[1] in dict ==>
            r.ns == ns[(if spec.alias == "" then spec.path[1] else spec.alias) := dict[spec.path[1]]])
      && (|spec.path| > 1 && spec.path[1] != "*" && spec.path[1] !in dict ==> r == Step(NoMember, ns))
  {
  }

  /**
   * `"a.b.c"` loads only `a`, looks up only `b` in it, and binds it under the
   * default alias `c`.
   */
  lemma DeepPathBindsSecondComponent(ns: ModuleDict, modules: Modules, a: string, b: string, c: string)
    requires WritablePath([a, b, c]) && b != "*" && c != ""
    requires c !in ns && a !in DeniedRoots && a in modules && b in modules[a]
    ensures ApplyEntry(ns, RenderPlain([a, b, c]), modules) == Step(Bound(c), ns[c := modules[a][b]])
  {
    var spec := ModuleSpec([a, b, c], c);
    ParseRenderPlain([a, b, c]);
    assert ParseSpec(RenderPlain([a, b, c])) == Some(spec);
    assert ApplySpec(ns, spec, modules) == Step(Bound(c), ns[c := modules[a][b]]);
  }

  /**
   * An entry that can replace an existing binding: a parsable one whose path
   * has a second component that is `*` (merge) or whose alias is empty (only
   * when no alias is given and the last component is empty, as in
   * `"pkg.name."`, in which case the member is bound under its own name).
   */
  predicate MayReplace(line: string) {
    match ParseSpec(line)
    case None => false
    case Some(spec) => |spec.path| > 1 && (spec.path[1] == "*" || spec.alias == "")
  }

  /** Apart from those entries, processing one entry never replaces or removes a binding. */
  lemma EntryKeepsBindings(ns: ModuleDict, line: string, modules: Modules)
    requires !MayReplace(line)
    ensures var r := ApplyEntry(ns, line, modules).ns;
      forall k :: k in ns ==> k in r && r[k] == ns[k]
  {
  }

  /**
   * The exception is real: an entry `"a.b."` (such as `"numpy.pi."`, see
   * `ParseTrailingDot`) has the empty alias after defaulting, passes the
   * alias check, and binds member `b` under its own name, replacing any
   * existing binding of `b`.
   */
  lemma EmptyAliasReplaces(ns: ModuleDict, modules: Modules, a: string, b: string)
    requires WritablePath([a, b, ""]) && b != "*"
    requires "" !in ns && a !in DeniedRoots && a in modules && b in modules[a]
    ensures ApplyEntry(ns, RenderPlain([a, b, ""]), modules) == Step(Bound(b), ns[b := modules[a][b]])
  {
    var spec := ModuleSpec([a, b, ""], "");
    ParseRenderPlain([a, b, ""]);
    assert ParseSpec(RenderPlain([a, b, ""])) == Some(spec);
    assert ApplySpec(ns, spec, modules) == Step(Bound(b), ns[b := modules[a][b]]);
  }

  /** `"numpy.pi."` parses to the path `numpy`, `pi`, `` and the empty alias. */
  lemma ParseTrailingDot(line: string)
    requires line == "numpy.pi."
    ensures ParseSpec(line) == Some(ModuleSpec(["numpy", "pi", ""], ""))
  {
    var path := ["numpy", "pi", ""];
    assert Join(path[2..], ".") == "";
    assert Join(path[1..], ".") == "pi.";
    assert Join(path, ".") == line;
    NoSpaceNoAs(line);
    assert WritablePath(path);
    ParseRenderPlain(path);
  }

  // ---------------------------------------------------------------------
  // All entries

  /** Processing a list after another is processing their concatenation. */
  lemma {:induction false} ApplyAllAppend(ns: ModuleDict, xs: seq<string>, ys: seq<string>, modules: Modules)
    ensures ApplyAll(ns, xs + ys, modules) == ApplyAll(ApplyAll(ns, xs, modules), ys, modules)
    decreases |xs|
  {
    if xs == [] {
      assert xs + ys == ys;
    } else {
      var next := ApplyEntry(ns, xs[0], modules).ns;
      assert (xs + ys)[0] == xs[0] && (xs + ys)[1..] == xs[1..] + ys;
      assert ApplyAll(ns, xs + ys, modules) == ApplyAll(next, xs[1..] + ys, modules);
      ApplyAllAppend(next, xs[1..], ys, modules);
    }
  }

  /** The namespace only grows: no entry removes a name. */
  lemma {:induction false} ApplyAllGrows(ns: ModuleDict, lines: seq<string>, modules: Modules)
    ensures ns.Keys <= ApplyAll(ns, lines, modules).Keys
    decreases |lines|
  {
    if lines != [] {
      ApplyAllGrows(ApplyEntry(ns, lines[0], modules).ns, lines[1..], modules);
    }
  }

  /** When no entry may replace a binding, every binding present before is kept. */
  lemma {:induction false} ApplyAllKeepsBindings(ns: ModuleDict, lines: seq<string>, modules: Modules)
    requires forall i :: 0 <= i < |lines| ==> !MayReplace(lines[i])
    ensures var r := ApplyAll(ns, lines, modules);
      forall k :: k in ns ==> k in r && r[k] == ns[k]
    decreases |lines|
  {
    if lines != [] {
      var next := ApplyEntry(ns, lines[0], modules).ns;
      EntryKeepsBindings(ns, lines[0], modules);
      ApplyAllKeepsBindings(next, lines[1..], modules);
    }
  }

  /**
   * An entry that fails in every namespace: it does not parse, is rooted at a
   * denied module, names a module that cannot be imported, or names a member
   * the module does not have.
   */
  predicate Inert(line: string, modules: Modules) {
    match ParseSpec(line)
    case None => true
    case Some(spec) =>
      || spec.path[0] in DeniedRoots
      || spec.path[0] !in modules
      || (|spec.path| > 1 && spec.path[1] != "*" && spec.path[1] !in modules[spec.path[0]])
  }

  /**
   * Fault isolation: a failing entry changes nothing, and the entries after
   * it are processed exactly as if it were not configured.
   */
  lemma FaultIsolation(ns: ModuleDict, before: seq<string>, bad: string, after: seq<string>, modules: Modules)
    requires Inert(bad, modules)
    ensures ApplyAll(ns, before + [bad] + after, modules) == ApplyAll(ns, before + after, modules)
  {
    ApplyAllAppend(ns, before + [bad], after, modules);
    ApplyAllAppend(ns, before, [bad], modules);
    ApplyAllAppend(ns, before, after, modules);
    var mid := ApplyAll(ns, before, modules);
    assert ApplyAll(mid, [bad], modules) == ApplyAll(ApplyEntry(mid, bad, modules).ns, [], modules);
  }

  /** The entries that do something in some namespace. */
  function Effective(lines: seq<string>, modules: Modules): (r: seq<string>)
    ensures forall i :: 0 <= i < |r| ==> r[i] in lines && !Inert(r[i], modules)
    decreases |lines|
  {
    if lines == [] then []
    else if Inert(lines[0], modules) then Effective(lines[1..], modules)
    else [lines[0]] + Effective(lines[1..], modules)
  }

  /** Dropping every failing entry from the configuration changes nothing. */
  lemma {:induction false} InertEntriesIgnored(ns: ModuleDict, lines: seq<string>, modules: Modules)
    ensures ApplyAll(ns, lines, modules) == ApplyAll(ns, Effective(lines, modules), modules)
    decreases |lines|
  {
    if lines != [] {
      var next := ApplyEntry(ns, lines[0], modules).ns;
      InertEntriesIgnored(next, lines[1..], modules);
      if Inert(lines[0], modules) {
        assert next == ns;
      } else {
        var eff := [lines[0]] + Effective(lines[1..], modules);
        assert eff[1..] == Effective(lines[1..], modules);
      }
    }
  }
}
