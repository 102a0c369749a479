# PyAttributeProcessor: the evaluation-namespace builder

PyAttributeProcessor is a Tango device whose attributes are computed from
user formulas. The formulas are evaluated against a symbol table, `_locals`.
This project models how that table is built and proves properties of it.

- **`get_module_dict`**: the public (non-`__`) names of a module, optionally
  restricted to an allow-list.
- **`OTHERS`**: a class attribute. It holds `fandango`, `archiving` and `np`,
  plus the conversion helpers. Their names are those listed by
  `dir(fandango.functional)` that contain `2` or start with `to`. Their values
  are the attributes of the same names on the `fandango` package.
- **Constructor**: starts from an empty table and merges, in order, the
  public names of each `LIBS` module, the `NAMES` objects keyed by their
  `__name__`, and `OTHERS`. Later sources override earlier ones. It then
  runs `init_device` on that table.
- **`init_device`**:
  - Puts each `PYTHONPATH` directory that is not yet in `sys.path` at the
    front of `sys.path`.
  - Processes each `ExtraModules` entry `"pkg[.member][ as alias]"`.
    - The entry is skipped if its alias is already bound.
    - It is rejected if its root module is `sys` or `os`.
    - Otherwise it binds the whole module, merges all of the module's public
      names (`pkg.*`), or binds one member.
    - A failing entry is caught and skipped, and the namespace is unchanged.

Python modules are modelled by their dictionaries. Importing a module is a
lookup in a map, `modules`, from top-level module names to dictionaries; this
map is a parameter. The Python 2 string builtins the code uses are modelled
on `seq<char>`. `startswith` tests private names and helper names. `in`,
`split` and `strip` are used by the entry parser. `Join` does not appear in
the device: it is the inverse of `split`, and the round-trip lemmas are
stated with it.

Modules of the project:

- `wrappers.dfy`: `Option`.
- `py_strings.dfy`: the string builtins.
- `namespace.dfy`: values, `get_module_dict`, `dict(pairs)`, `OTHERS`,
  `NAMES`, `LIBS` and the assembled table.
- `extra_modules.dfy`: parsing an entry, processing one entry, processing
  the whole list.
- `search_path.dfy`: the `PYTHONPATH` step.
- `processor.dfy`: the device class. It holds the fields `locals`
  (`_locals`) and `sysPath` (`sys.path`). Its constructor and methods are
  proved against the functions above.

Behaviour of the code worth knowing:

- The alias check comes before the deny-list check. A `sys`/`os` entry whose
  alias is already bound is silently skipped, not rejected.
- An entry such as `"pkg.name."`:
  - Its alias defaults to the empty last component.
  - The alias check therefore tests `""`.
  - The member is then bound under `name`, replacing any existing binding
    of `name` (`EmptyAliasReplaces`).
- The alias after ` as ` is not stripped.
- Occurrences of ` as ` that share a space count once: `"x as as y"` splits into `x` and `as y`, so it loads `x` under the alias `as y` (`ParseOverlappingAliases`).
- For `"a.b.c"` only `a` is imported, and `b` is bound under `c`.

## Model

| member | source | states |
|---|---|---|
| `PyStrings.FindSpec` | PyAttributeProcessor/PyAttributeProcessor.py:196 | `find` returns the lowest index where the separator occurs, and `None` exactly when it occurs nowhere; this is what `' as ' in m` tests |
| `PyStrings.Split` | PyAttributeProcessor/PyAttributeProcessor.py:196-197 | `split` returns at least one piece, and exactly one iff the separator does not occur |
| `PyStrings.SplitPiecesFree` | PyAttributeProcessor/PyAttributeProcessor.py:196-197 | no piece of a split contains the separator |
| `PyStrings.JoinSplit` | PyAttributeProcessor/PyAttributeProcessor.py:196-197 | joining the pieces of a split with the separator gives back the original string |
| `PyStrings.SplitJoin` | PyAttributeProcessor/PyAttributeProcessor.py:197 | splitting on a one-character separator undoes a join of pieces that lack that character |
| `PyStrings.SplitOnce` | PyAttributeProcessor/PyAttributeProcessor.py:196 | when the separator occurs exactly once, between `x` and `y`, `split` gives exactly `[x, y]` |
| `PyStrings.SplitTwice` | PyAttributeProcessor/PyAttributeProcessor.py:196 | two non-overlapping occurrences of the separator give more than two pieces, so the two-name unpacking cannot succeed |
| `PyStrings.StripLeftSpec` | PyAttributeProcessor/PyAttributeProcessor.py:197 | `lstrip` removes exactly the leading whitespace: what it drops is all whitespace, what it keeps is a suffix not starting with whitespace |
| `PyStrings.StripRightSpec` | PyAttributeProcessor/PyAttributeProcessor.py:197 | `rstrip` removes exactly the trailing whitespace |
| `PyStrings.StripSpec` | PyAttributeProcessor/PyAttributeProcessor.py:197 | `strip` yields the infix of `s` between leading and trailing whitespace; the result neither begins nor ends with whitespace |
| `PyStrings.StripTrimmed` | PyAttributeProcessor/PyAttributeProcessor.py:197 | a string without surrounding whitespace is unchanged by `strip` |
| `Namespace.GetModuleDict` | PyAttributeProcessor/PyAttributeProcessor.py:66-67 | a name is kept iff the module defines it, it does not start with `__`, and (when `ks` is given and non-empty) it is in `ks`; kept values are unchanged |
| `Namespace.GetModuleDictIdempotent` | PyAttributeProcessor/PyAttributeProcessor.py:66-67 | filtering an already filtered dictionary changes nothing |
| `Namespace.GetModuleDictAllowList` | PyAttributeProcessor/PyAttributeProcessor.py:66-67 | a non-empty allow-list restricts the public entries to the listed names |
| `Namespace.DictOf` | PyAttributeProcessor/PyAttributeProcessor.py:158-161 | `dict(pairs)` binds exactly the keys of the pairs, each to the value of its last pair |
| `Namespace.HelperPairs` | PyAttributeProcessor/PyAttributeProcessor.py:160 | the helper pairs are exactly the listed names that contain `2` or start with `to`, each paired with the package attribute of that name; they fail iff such a name is not an attribute of the package |
| `Namespace.OthersHelperSelection` | PyAttributeProcessor/PyAttributeProcessor.py:158-161 | a listed name that is not one of the fixed keys is in `OTHERS` iff it follows the helper naming convention, and it is then bound to `getattr(fandango, f)` |
| `Namespace.OthersFixedEntries` | PyAttributeProcessor/PyAttributeProcessor.py:158-159 | a fixed pair (`fandango`, `archiving`, `np`) that is the last one with its key, and whose key is not a helper name, keeps its value in `OTHERS` |
| `Namespace.NamesByDunder` | PyAttributeProcessor/PyAttributeProcessor.py:171 | corrected `NAMES` table: its keys are exactly the `__name__`s of the non-`None` entries, each bound to the last object with that name |
| `Namespace.NamesByDunderAsWritten` | PyAttributeProcessor/PyAttributeProcessor.py:171 | the `NAMES` table as written: it fails (`AttributeError`) iff some entry is `None`; otherwise it equals the corrected table |
| `Namespace.MissingArchivingAbortsConstructor` | PyAttributeProcessor/PyAttributeProcessor.py:59-64 | with `PyTangoArchiving` set to `None`, the written table fails, while the corrected one binds the other names |
| `Namespace.LibraryNamesLookup` | PyAttributeProcessor/PyAttributeProcessor.py:170 | after merging the `LIBS` modules, a name is bound iff it is public and some library defines it; it is bound to the value from the last library that defines it |
| `Namespace.AssembledLookup` | PyAttributeProcessor/PyAttributeProcessor.py:169-172 | in the assembled table a name is bound to its `OTHERS` value if it has one; else to the last `NAMES` object with that `__name__`; else to its value in the last library defining it. No other name is bound |
| `ExtraModules.ParseSpec` | PyAttributeProcessor/PyAttributeProcessor.py:196-199 | a parsed entry has a non-empty path; parsing fails iff the split on ` as ` yields more than two pieces |
| `ExtraModules.ParseWithoutAlias` | PyAttributeProcessor/PyAttributeProcessor.py:196-199 | without ` as `, the path is the stripped entry split on dots and the alias is its last component |
| `ExtraModules.ParseWithAlias` | PyAttributeProcessor/PyAttributeProcessor.py:196-199 | for `X as Y` with one ` as `, the path is `X.strip()` split on dots and the alias is `Y` unstripped; if `Y` is empty the alias is the last component |
| `ExtraModules.ParseTwoAliases` | PyAttributeProcessor/PyAttributeProcessor.py:196 | an entry `a as b as c`, with two non-overlapping ` as `, fails to parse whatever `a`, `b` and `c` are |
| `ExtraModules.ParseOverlappingAliases` | PyAttributeProcessor/PyAttributeProcessor.py:196-199 | overlapping occurrences count once: `x as as y` holds ` as ` at indices 1 and 4 (`ExtraModules.OverlappingOccurrences`), yet it parses to the path `x` with the alias `as y` |
| `ExtraModules.ParseRender` | PyAttributeProcessor/PyAttributeProcessor.py:196-199 | parsing the text `a.b... as alias` of a well-formed entry gives the entry back |
| `ExtraModules.ParseRenderPlain` | PyAttributeProcessor/PyAttributeProcessor.py:196-199 | parsing the text `a.b...` of a well-formed path gives the path, with its last component as alias |
| `ExtraModules.ParseTrailingDot` | PyAttributeProcessor/PyAttributeProcessor.py:196-199 | `numpy.pi.` parses to the path `numpy`, `pi`, `` and the empty alias |
| `ExtraModules.ApplySpec` | PyAttributeProcessor/PyAttributeProcessor.py:200-210 | for one parsed entry: a skipped or failed entry leaves the namespace unchanged; a binding adds exactly its key and changes no other key; a merge removes no key |
| `ExtraModules.ApplyEntry` | PyAttributeProcessor/PyAttributeProcessor.py:195-211 | an entry that is not loaded, including one that does not parse, leaves the namespace unchanged; no entry removes a name |
| `ExtraModules.AliasCheckedFirst` | PyAttributeProcessor/PyAttributeProcessor.py:200-202 | an entry whose alias is bound is skipped with the namespace unchanged, even if its root is denied |
| `ExtraModules.DeniedRootRejected` | PyAttributeProcessor/PyAttributeProcessor.py:201-202 | an entry rooted at `sys` or `os` never changes the namespace, and is rejected when its alias is free |
| `ExtraModules.LoadForms` | PyAttributeProcessor/PyAttributeProcessor.py:204-210 | for any entry whose alias is free, whose root is allowed and whose root module exists: one component binds the alias to the module, or the module's name when the alias is empty. `*` adds the module's public names, overriding existing ones, and keeps all other bindings. Otherwise the alias, or the member's name when the alias is empty, is bound to the member; nothing changes when the member is missing |
| `ExtraModules.DeepPathBindsSecondComponent` | PyAttributeProcessor/PyAttributeProcessor.py:197-210 | the entry `a.b.c` binds member `b` of module `a` under `c` and changes nothing else |
| `ExtraModules.EntryKeepsBindings` | PyAttributeProcessor/PyAttributeProcessor.py:200-210 | an entry that is neither a `*` merge nor empty-aliased never replaces or removes an existing binding |
| `ExtraModules.EmptyAliasReplaces` | PyAttributeProcessor/PyAttributeProcessor.py:199-210 | any entry `a.b.` (such as `numpy.pi.`) whose root is allowed and has member `b` passes the alias check, because its alias defaults to the empty last component. It binds `b` under its own name, replacing an existing binding of `b`, and changes nothing else |
| `ExtraModules.ApplyAllAppend` | PyAttributeProcessor/PyAttributeProcessor.py:194-211 | processing two lists of entries one after the other equals processing their concatenation |
| `ExtraModules.ApplyAllGrows` | PyAttributeProcessor/PyAttributeProcessor.py:194-211 | processing the entries never removes a name from the namespace |
| `ExtraModules.ApplyAllKeepsBindings` | PyAttributeProcessor/PyAttributeProcessor.py:194-211 | when no entry is a `*` merge or empty-aliased, every binding present before keeps its value |
| `ExtraModules.FaultIsolation` | PyAttributeProcessor/PyAttributeProcessor.py:194-211 | an entry that always fails (does not parse, denied root, missing module or member) changes nothing; later entries run as if it were absent |
| `ExtraModules.InertEntriesIgnored` | PyAttributeProcessor/PyAttributeProcessor.py:194-211 | removing every always-failing entry from the configuration does not change the resulting namespace |
| `SearchPath.InsertNewDirsSnoc` | PyAttributeProcessor/PyAttributeProcessor.py:192 | each configured directory is inserted at the front of the path built so far, unless it is already there |
| `SearchPath.InsertNewDirsContents` | PyAttributeProcessor/PyAttributeProcessor.py:192 | after the step the path holds exactly the old entries and the configured directories. The old path is unchanged at the end and everything before it is new. A path without duplicates stays without duplicates |
| `SearchPath.InsertNewDirsOrder` | PyAttributeProcessor/PyAttributeProcessor.py:192 | of two new directories, the later-configured one ends up in front of the earlier one |
| `Processor.AttributeProcessor.constructor` | PyAttributeProcessor/PyAttributeProcessor.py:166-175 | the loop over `LIBS` and the updates with `NAMES` and `OTHERS` build the assembled table. The call to `init_device` then loads the extra modules into it, so `_locals` ends as the entries processed over that table. `sys.path` ends as the configured directories inserted into the initial path |
| `Processor.AttributeProcessor.ExtendSearchPath` | PyAttributeProcessor/PyAttributeProcessor.py:192 | the loop leaves `sys.path` equal to the insertion of the configured directories into the old path, and `_locals` unchanged |
| `Processor.AttributeProcessor.LoadExtraModules` | PyAttributeProcessor/PyAttributeProcessor.py:194-211 | the loop over `ExtraModules`, with its skips and caught failures, leaves `_locals` equal to processing the entries in order; `sys.path` is unchanged |
| `Processor.AttributeProcessor.InitDevice` | PyAttributeProcessor/PyAttributeProcessor.py:186-211 | `init_device` extends `sys.path` and then `_locals` as the two steps above specify |

## Findings

| source | as written | input that shows it | evidently intended | confidence | as-written member | corrected member |
|---|---|---|---|---|---|---|
| PyAttributeProcessor/PyAttributeProcessor.py:171 | `NAMES` lists `PyTangoArchiving`. Lines 59-64 set it to `None` when its import fails. The constructor reads `k.__name__` of every entry, and `None.__name__` raises `AttributeError`, so the device cannot be constructed | `PyTangoArchiving` not installed: a `NAMES` entry is `None` | the import is optional, so a `None` entry should be left out of the table | high (not executed) | `Namespace.NamesByDunderAsWritten`, shown by `Namespace.MissingArchivingAbortsConstructor` | `Namespace.NamesByDunder`, used by `Processor.AttributeProcessor.constructor` |

## Left out

- `FFT`, `GaussPeak` and `PEAKFIT`, in both copies of the file, are left out. They are floating-point numerics over scipy's `fft` and `leastsq`, with chi-square quality thresholds and the 99999 sentinel.
- Importing is a map lookup. `imp.find_module` and `imp.load_module` are foreign runtime calls, so `modules` is a parameter. In the model, which modules can be imported does not depend on `sys.path`.
- The `PyTangoArchiving.Reader()` singleton (:59-64) is not modelled. It is only a value among the fixed `OTHERS` pairs.
- Formula evaluation, dynamic attributes and dynamic states are not part of this model. They live in `fandango.dynamic` (`DynamicDS`). `DynamicDS.__init__` (:174) and `DynamicDS.init_device` (:188-191) are left out with it. The constructor goes straight from the assembled table to the `init_device` steps modelled here.
- Tango device plumbing is left out: `set_state`, `delete_device`, `always_executed_hook`, `read_attr_hardware`, the `PyAttributeProcessorClass` property tables, `FullTangoInheritance` and the server bootstrap. These are framework calls with no logic of their own.
- The root `PyAttributeProcessor.py` is an older copy of the numerics and the plumbing, and is left out.
- `setup.py` is packaging metadata and is left out.
- `print` and `traceback.print_exc` logging are left out. The `Outcome` of each entry exists only for stating lemmas; the device does not return it.
- The `try` around the `sys.path` insertion (:192-193) is not modelled: nothing in the insertion can fail here.
- The `if not m: continue` at :198 is not modelled because it cannot fire: `split` always returns at least one piece (`PyStrings.Split`).
- `PyStrings.Strip` removes only Python 2 byte-string whitespace (space, tab, LF, VT, FF, CR). Unicode whitespace is not modelled.
- The output of `dir(fandango.functional)` is a parameter (`functionalNames`), not computed.
- `ExtraModules.DeepPathBindsSecondComponent` requires a non-empty last component, because an empty one changes the key (see `ExtraModules.EmptyAliasReplaces`).
