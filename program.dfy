/** The front end of the installer: where the manifest is read from, the
    early return when it does not exist, the abort when it cannot be parsed,
    and the run over its dependencies.

    The file system (`is_dir`, `exists`), the TOML parser of the manifest,
    the search for the `cargo-binstall` binary and the exit status of each
    spawned command are inputs. Paths are Unix paths, as strings. */
module Program {
  import opened CargoToml
  import opened Commands
  import opened Installer

  const ManifestFileName := "Cargo.toml"

  /** `PathBuf::join` with a relative component: a separator goes between
      the two unless the base is empty or already ends in one. */
  function JoinPath(base: string, component: string): string
  {
    if base == [] || base[|base| - 1] == '/' then base + component
    else base + "/" + component
  }

  /** What follows the last separator of a path. */
  function LastComponent(path: string): (c: string)
    ensures '/' !in c
    ensures |c| <= |path|
  {
    if path == [] || path[|path| - 1] == '/' then []
    else LastComponent(path[..|path| - 1]) + [path[|path| - 1]]
  }

  /** A separator-free tail after a separator (or after nothing) is the
      last component. */
  lemma {:induction false} LastComponentAfterSeparator(dir: string, c: string)
    requires dir == [] || dir[|dir| - 1] == '/'
    requires '/' !in c
    ensures LastComponent(dir + c) == c
    decreases |c|
  {
    if c == [] {
      assert dir + c == dir;
    } else {
      var n := |dir + c|;
      assert (dir + c)[..n - 1] == dir + c[..|c| - 1];
      LastComponentAfterSeparator(dir, c[..|c| - 1]);
      assert c[..|c| - 1] + [c[|c| - 1]] == c;
    }
  }

  /** Joining keeps the base as a prefix, puts at most one separator after
      it, and makes the component the last component of the result. */
  lemma JoinPathParts(base: string, component: string)
    requires '/' !in component
    ensures var p := JoinPath(base, component);
      && |base| <= |p|
      && p[..|base|] == base
      && p[|base|..] == (if base == [] || base[|base| - 1] == '/' then "" else "/") + component
      && LastComponent(p) == component
  {
    if base == [] || base[|base| - 1] == '/' {
      LastComponentAfterSeparator(base, component);
    } else {
      assert base + "/" + component == (base + "/") + component;
      LastComponentAfterSeparator(base + "/", component);
    }
  }

  /** The manifest read for a path: `Cargo.toml` inside it when it is a
      directory, the path itself otherwise. */
  function ResolveManifestPath(path: string, isDir: string -> bool): string
  {
    if isDir(path) then JoinPath(path, ManifestFileName) else path
  }

  /** A directory resolves to the `Cargo.toml` file inside it; any other
      path is kept as it is. */
  lemma ResolvedManifestPath(path: string, isDir: string -> bool)
    ensures var resolved := ResolveManifestPath(path, isDir);
      && (isDir(path) ==> |path| < |resolved| && resolved[..|path|] == path
                          && LastComponent(resolved) == ManifestFileName)
      && (!isDir(path) ==> resolved == path)
  {
    if isDir(path) {
      JoinPathParts(path, ManifestFileName);
    }
  }

  /** How a run ends: an early return for a missing manifest, an abort for
      one that cannot be parsed, or the run over its dependencies, with the
      length of the progress bar (which may itself have aborted). */
  datatype Outcome =
    | ManifestNotFound(path: string)
    | ManifestParseError(path: string)
    | Ran(total: nat, state: RunState)

  /** The commands a run spawned, in order. */
  function CommandsRun(outcome: Outcome): seq<Command>
  {
    match outcome
    case Ran(_, state) => state.commands
    case _ => []
  }

  /** `main` after argument parsing: resolve the manifest path, return
      early if it does not exist, abort if it cannot be parsed, otherwise
      install every dependency in the manifest's order. */
  method InstallFromManifest(manifestPath: string, isDir: string -> bool, pathExists: string -> bool,
                             load: string -> Option<seq<Entry>>,
                             binstallFound: bool, succeeds: Command -> bool)
    returns (outcome: Outcome)
    ensures var path := ResolveManifestPath(manifestPath, isDir);
      && (outcome.ManifestNotFound? <==> !pathExists(path))
      && (outcome.ManifestParseError? <==> pathExists(path) && load(path).None?)
      && (outcome.ManifestNotFound? || outcome.ManifestParseError? ==> outcome.path == path)
      && (!pathExists(path) ==> CommandsRun(outcome) == [])
      && (outcome.Ran? ==> load(path).Some?
                           && outcome.total == |load(path).value|
                           && outcome.state == Run(load(path).value, binstallFound, succeeds))
  {
    var path := ResolveManifestPath(manifestPath, isDir);
    if !pathExists(path) {
      return ManifestNotFound(path);
    }
    match load(path) {
      case None =>
        return ManifestParseError(path);
      case Some(deps) =>
        var state := InstallDependencies(deps, binstallFound, succeeds);
        return Ran(|deps|, state);
    }
  }
}
