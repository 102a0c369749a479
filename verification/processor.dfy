/**
 * The device object: the evaluation namespace `_locals` it builds in its
 * constructor and extends in `init_device`, and the process search path
 * `sys.path` that `init_device` extends (held here as a field).
 */
module Processor {
  import opened Wrappers
  import opened Namespace
  import opened ExtraModules
  import opened SearchPath

  class AttributeProcessor {
    /** `self._locals`: the names formulas are evaluated against. */
    var locals: ModuleDict
    /** `sys.path` */
    var sysPath: seq<string>

    /**
     * The constructor: the public names of every `LIBS` module in order, then
     * the `NAMES` objects by `__name__`, then `OTHERS`, each update replacing
     * earlier bindings of the same name; then `init_device`, which extends the
     * search path and loads the extra modules into that table.
     */
    constructor (libs: seq<ModuleDict>, names: seq<NameSource>, others: ModuleDict,
                 initialPath: seq<string>, pythonPath: seq<string>, extraModules: seq<string>, modules: Modules)
      ensures locals == ApplyAll(Assembled(libs, names, others), extraModules, modules)
      ensures sysPath == InsertNewDirs(initialPath, pythonPath)
    {
      var table: ModuleDict := map[];
      for i := 0 to |libs|
        invariant table == LibraryNames(libs[..i])
      {
        assert libs[..i + 1][..i] == libs[..i];
        table := table + GetModuleDict(libs[i], None);
      }
      assert libs[..|libs|] == libs;
      table := table + NamesByDunder(names);
      table := table + others;
      locals := table;
      sysPath := initialPath;
      new;
      InitDevice(pythonPath, extraModules, modules);
    }

    /** `init_device`: the search path first, then the extra modules. */
    method InitDevice(pythonPath: seq<string>, extraModules: seq<string>, modules: Modules)
      modifies this
      ensures sysPath == InsertNewDirs(old(sysPath), pythonPath)
      ensures locals == ApplyAll(old(locals), extraModules, modules)
    {
      ExtendSearchPath(pythonPath);
      LoadExtraModules(extraModules, modules);
    }

    /** Inserts each configured directory that is not yet in `sys.path` at its front. */
    method ExtendSearchPath(pythonPath: seq<string>)
      modifies this
      ensures sysPath == InsertNewDirs(old(sysPath), pythonPath)
      ensures locals == old(locals)
    {
      for i := 0 to |pythonPath|
        invariant sysPath == InsertNewDirs(old(sysPath), pythonPath[..i])
        invariant locals == old(locals)
      {
        var p := pythonPath[i];
        assert pythonPath[..i + 1] == pythonPath[..i] + [p];
        InsertNewDirsSnoc(old(sysPath), pythonPath[..i], p);
        if p !in sysPath {
          sysPath := [p] + sysPath;
        }
      }
      assert pythonPath[..|pythonPath|] == pythonPath;
    }

    /**
     * Processes the `ExtraModules` entries in order. An entry whose alias is
     * bound is skipped; one that does not parse, is rooted at a denied module,
     * names a module that cannot be imported or a member the module lacks
     * raises, and the exception is caught: the namespace stays as it was and
     * the next entry is processed.
     */
    method LoadExtraModules(extraModules: seq<string>, modules: Modules)
      modifies this
      ensures locals == ApplyAll(old(locals), extraModules, modules)
      ensures sysPath == old(sysPath)
    {
      for i := 0 to |extraModules|
        invariant locals == ApplyAll(old(locals), extraModules[..i], modules)
        invariant sysPath == old(sysPath)
      {
        var line := extraModules[i];
        assert extraModules[..i + 1] == extraModules[..i] + [line];
        ApplyAllAppend(old(locals), extraModules[..i], [line], modules);
        assert ApplyAll(locals, [line], modules) == ApplyEntry(locals, line, modules).ns;
        match ParseSpec(line) {
          case None =>
            // unpacking more than two pieces raised
          case Some(spec) =>
            var path, alias := spec.path, spec.alias;
            if alias in locals {
              continue;
            }
            var root := path[0];
            if root in DeniedRoots {
              // raised as not allowed
            } else if root in modules {
              var dict := modules[root];
              if |path| == 1 {
                locals := locals[if alias == "" then root else alias := Module(root)];
              } else if path[1] == "*" {
                locals := locals + GetModuleDict(dict, None);
              } else if path[1] in dict {
                locals := locals[if alias == "" then path[1] else alias := dict[path[1]]];
              }
            }
        }
      }
      assert extraModules[..|extraModules|] == extraModules;
    }
  }
}
