/** The installer: for each dependency of the manifest, in order, try the
    fast path (`cargo binstall`) when its binary is found, fall back to
    `cargo install` when the fast path is unavailable or fails, and abort
    the whole run when `cargo install` fails too.

    Whether the `cargo-binstall` binary is found on the search path, and
    whether a spawned command exits successfully, are inputs: `binstallFound`
    and the oracle `succeeds`. The progress bar is modelled by its position
    only. */
module Installer {
  import opened CargoToml
  import opened Arguments
  import opened Commands

  /** The crate name handed to cargo: the `package` override of a detailed
      dependency, otherwise the manifest key. */
  function TargetName(key: string, dep: Dependency): string
  {
    match dep
    case Simple(_) => key
    case Detailed(d) =>
      match d.package
      case Some(p) => p
      case None => key
  }

  /** The user arguments for one dependency: the version alone for a simple
      one, the argument builder's output for a detailed one. */
  function InstallArgs(dep: Dependency): seq<string>
  {
    match dep
    case Simple(v) => ["--version", v]
    case Detailed(d) => Args(d)
  }

  /** The command of the given kind for one manifest entry. */
  function EntryCommand(kind: CommandKind, key: string, dep: Dependency): Command
  {
    CommandLine(kind, TargetName(key, dep), Some(InstallArgs(dep)))
  }

  /** What happened to one dependency: the commands run, in order, and
      whether one of them succeeded. */
  datatype Attempts = Attempts(commands: seq<Command>, installed: bool)

  /** The fallback chain for one target: the fast path first when its
      binary is found, then the canonical path unless the fast path
      succeeded. */
  function Fallback(name: string, args: seq<string>, binstallFound: bool, succeeds: Command -> bool): Attempts
  {
    var fast := CommandLine(Binstall, name, Some(args));
    var canonical := CommandLine(CargoInstall, name, Some(args));
    if binstallFound && succeeds(fast) then Attempts([fast], true)
    else Attempts((if binstallFound then [fast] else []) + [canonical], succeeds(canonical))
  }

  /** The fallback chain for one manifest entry. */
  function InstallOne(key: string, dep: Dependency, binstallFound: bool, succeeds: Command -> bool): Attempts
  {
    Fallback(TargetName(key, dep), InstallArgs(dep), binstallFound, succeeds)
  }

  /** The fast path is tried exactly when its binary is found; the canonical
      path exactly when the fast path was unavailable or failed, and always
      after it; the dependency is installed exactly when the last command
      tried succeeded. */
  lemma FallbackChain(name: string, args: seq<string>, binstallFound: bool, succeeds: Command -> bool)
    ensures var fast, canonical := CommandLine(Binstall, name, Some(args)), CommandLine(CargoInstall, name, Some(args));
      var a := Fallback(name, args, binstallFound, succeeds);
      && (fast in a.commands <==> binstallFound)
      && (canonical in a.commands <==> !binstallFound || !succeeds(fast))
      && (a.commands == [fast] || a.commands == [canonical] || a.commands == [fast, canonical])
      && (a.installed <==> (binstallFound && succeeds(fast)) || (canonical in a.commands && succeeds(canonical)))
  {
    SubcommandInverse(Binstall);
    var fast, canonical := CommandLine(Binstall, name, Some(args)), CommandLine(CargoInstall, name, Some(args));
    assert fast.args[0] != canonical.args[0];
  }

  /** Both commands built for one dependency target the same crate with the
      same arguments; they differ only in the subcommand (and the fast
      path's trailing `--no-confirm`). The target is the `package` override
      when a detailed dependency has one, the manifest key otherwise. */
  lemma SameInputs(key: string, dep: Dependency)
    ensures ParseCommand(EntryCommand(Binstall, key, dep))
            == Some(Invocation(Binstall, TargetName(key, dep), InstallArgs(dep)))
    ensures ParseCommand(EntryCommand(CargoInstall, key, dep))
            == Some(Invocation(CargoInstall, TargetName(key, dep), InstallArgs(dep)))
    ensures dep.Detailed? && dep.detail.package.Some? ==> TargetName(key, dep) == dep.detail.package.value
    ensures dep.Simple? || dep.detail.package.None? ==> TargetName(key, dep) == key
  {
    ParseCommandInverse(Binstall, TargetName(key, dep), InstallArgs(dep));
    ParseCommandInverse(CargoInstall, TargetName(key, dep), InstallArgs(dep));
  }

  /** For a simple dependency `key = "V"` the fast path runs
      `cargo binstall key --version V --no-confirm` and the canonical path
      `cargo install key --version V`. */
  lemma SimpleCommands(key: string, version: string)
    ensures EntryCommand(Binstall, key, Simple(version))
            == Command("cargo", ["binstall", key, "--version", version, "--no-confirm"])
    ensures EntryCommand(CargoInstall, key, Simple(version))
            == Command("cargo", ["install", key, "--version", version])
  {
  }

  // ---------------------------------------------------------------------
  // The run over all dependencies

  /** A run so far: every command run, in order, the position of the
      progress bar, and whether the run has aborted. */
  datatype RunState = RunState(commands: seq<Command>, progress: nat, aborted: bool)

  /** The progress one installed dependency adds: the simple branch
      advances the bar, the detailed branch does not. */
  function Increment(dep: Dependency): nat
  {
    if dep.Simple? then 1 else 0
  }

  /** One iteration of the loop: nothing happens once the run has aborted. */
  function Step(state: RunState, entry: Entry, binstallFound: bool, succeeds: Command -> bool): RunState
  {
    if state.aborted then state
    else
      var a := InstallOne(entry.0, entry.1, binstallFound, succeeds);
      RunState(state.commands + a.commands,
               if a.installed then state.progress + Increment(entry.1) else state.progress,
               !a.installed)
  }

  /** The state after processing the entries in order. */
  function Run(deps: seq<Entry>, binstallFound: bool, succeeds: Command -> bool): RunState
  {
    if deps == [] then RunState([], 0, false)
    else Step(Run(deps[..|deps| - 1], binstallFound, succeeds), deps[|deps| - 1], binstallFound, succeeds)
  }

  /** Unfolds `Run` on a prefix one entry longer. */
  lemma RunPrefix(deps: seq<Entry>, i: nat, binstallFound: bool, succeeds: Command -> bool)
    requires i < |deps|
    ensures Run(deps[..i + 1], binstallFound, succeeds)
            == Step(Run(deps[..i], binstallFound, succeeds), deps[i], binstallFound, succeeds)
  {
    assert deps[..i + 1][..i] == deps[..i];
  }

  /** Once a run has aborted, no later dependency is processed: further
      entries change nothing. */
  lemma {:induction false} AbortIsFinal(deps: seq<Entry>, more: seq<Entry>, binstallFound: bool, succeeds: Command -> bool)
    requires Run(deps, binstallFound, succeeds).aborted
    ensures Run(deps + more, binstallFound, succeeds) == Run(deps, binstallFound, succeeds)
    decreases |more|
  {
    if more == [] {
      assert deps + more == deps;
    } else {
      var shorter := more[..|more| - 1];
      AbortIsFinal(deps, shorter, binstallFound, succeeds);
      assert (deps + more)[..|deps + more| - 1] == deps + shorter;
    }
  }

  /** The prefixes of a sequence with one entry appended. */
  lemma SnocPrefixes(init: seq<Entry>, last: Entry)
    ensures (init + [last])[..|init|] == init && (init + [last])[|init|] == last
    ensures (init + [last])[..|init| + 1] == init + [last]
  {
  }

  /** A run that had not aborted before its last entry aborted at that
      entry, which failed on every path it tried. */
  lemma AbortLast(init: seq<Entry>, last: Entry, binstallFound: bool, succeeds: Command -> bool)
    requires !Run(init, binstallFound, succeeds).aborted
    requires Run(init + [last], binstallFound, succeeds).aborted
    ensures !InstallOne(last.0, last.1, binstallFound, succeeds).installed
  {
    assert (init + [last])[..|init|] == init;
  }

  /** An abort point of a run stays its abort point when an entry is
      appended. */
  lemma AbortEarlier(init: seq<Entry>, last: Entry, k: nat, binstallFound: bool, succeeds: Command -> bool)
    requires k < |init|
    requires Run(init, binstallFound, succeeds).aborted
    requires Run(init, binstallFound, succeeds) == Run(init[..k + 1], binstallFound, succeeds)
    ensures (init + [last])[..k] == init[..k] && (init + [last])[k] == init[k]
    ensures Run(init + [last], binstallFound, succeeds) == Run((init + [last])[..k + 1], binstallFound, succeeds)
  {
    AbortIsFinal(init, [last], binstallFound, succeeds);
    assert (init + [last])[..k] == init[..k];
    assert (init + [last])[..k + 1] == init[..k + 1];
  }

  /** An aborted run stopped at some dependency k: everything before k was
      installed, k failed on every path it tried, and the final state is
      the state right after k. */
  lemma {:induction false} AbortPoint(deps: seq<Entry>, binstallFound: bool, succeeds: Command -> bool)
    returns (k: nat)
    requires Run(deps, binstallFound, succeeds).aborted
    ensures k < |deps|
    ensures !Run(deps[..k], binstallFound, succeeds).aborted
    ensures !InstallOne(deps[k].0, deps[k].1, binstallFound, succeeds).installed
    ensures Run(deps, binstallFound, succeeds) == Run(deps[..k + 1], binstallFound, succeeds)
    decreases |deps|
  {
    var n := |deps|;
    var init, last := deps[..n - 1], deps[n - 1];
    assert deps == init + [last];
    if Run(init, binstallFound, succeeds).aborted {
      k := AbortPoint(init, binstallFound, succeeds);
      AbortEarlier(init, last, k, binstallFound, succeeds);
    } else {
      AbortLast(init, last, binstallFound, succeeds);
      SnocPrefixes(init, last);
      k := n - 1;
    }
  }

  /** A run ends without aborting exactly when every one of its
      dependencies was installed. */
  lemma {:induction false} CompletedRun(deps: seq<Entry>, binstallFound: bool, succeeds: Command -> bool)
    ensures !Run(deps, binstallFound, succeeds).aborted
            <==> forall i :: 0 <= i < |deps| ==> InstallOne(deps[i].0, deps[i].1, binstallFound, succeeds).installed
  {
    if deps != [] {
      var n := |deps|;
      var init, last := deps[..n - 1], deps[n - 1];
      CompletedRun(init, binstallFound, succeeds);
      assert Run(deps, binstallFound, succeeds) == Step(Run(init, binstallFound, succeeds), last, binstallFound, succeeds);
      assert forall i :: 0 <= i < |init| ==> init[i] == deps[i];
    }
  }

  /** The number of simple dependencies among the entries. */
  function CountSimple(deps: seq<Entry>): (n: nat)
    ensures n <= |deps|
    ensures (exists i :: 0 <= i < |deps| && deps[i].1.Detailed?) ==> n < |deps|
  {
    if deps == [] then 0
    else CountSimple(deps[..|deps| - 1]) + Increment(deps[|deps| - 1].1)
  }

  /** A run that did not abort leaves the progress bar at the number of
      simple dependencies: below the bar's length whenever the manifest
      has a detailed dependency. */
  lemma {:induction false} ProgressCount(deps: seq<Entry>, binstallFound: bool, succeeds: Command -> bool)
    ensures var s := Run(deps, binstallFound, succeeds);
      && s.progress <= CountSimple(deps)
      && (!s.aborted ==> s.progress == CountSimple(deps))
      && |s.commands| <= 2 * |deps|
  {
    if deps != [] {
      ProgressCount(deps[..|deps| - 1], binstallFound, succeeds);
    }
  }

  /** The command of the given kind for every entry, in order. */
  function EntryCommands(kind: CommandKind, deps: seq<Entry>): (cs: seq<Command>)
    ensures |cs| == |deps|
    ensures forall i :: 0 <= i < |deps| ==> cs[i] == EntryCommand(kind, deps[i].0, deps[i].1)
  {
    seq(|deps|, i requires 0 <= i < |deps| => EntryCommand(kind, deps[i].0, deps[i].1))
  }

  /** Appending an entry that installs with the given commands to a run
      that has not aborted. */
  lemma RunInstalled(init: seq<Entry>, last: Entry, binstallFound: bool, succeeds: Command -> bool, commands: seq<Command>)
    requires !Run(init, binstallFound, succeeds).aborted
    requires InstallOne(last.0, last.1, binstallFound, succeeds) == Attempts(commands, true)
    ensures var s := Run(init, binstallFound, succeeds);
      Run(init + [last], binstallFound, succeeds) == RunState(s.commands + commands, s.progress + Increment(last.1), false)
  {
    assert (init + [last])[..|init|] == init;
  }

  /** When the fast path is available and succeeds for every dependency,
      exactly one `binstall` command runs per dependency, in order, no
      `install` command runs, and the run ends without aborting. */
  lemma {:induction false} AllFastPathsSucceed(deps: seq<Entry>, succeeds: Command -> bool)
    requires forall i :: 0 <= i < |deps| ==> succeeds(EntryCommand(Binstall, deps[i].0, deps[i].1))
    ensures Run(deps, true, succeeds) == RunState(EntryCommands(Binstall, deps), CountSimple(deps), false)
  {
    if deps != [] {
      var n := |deps|;
      var init, last := deps[..n - 1], deps[n - 1];
      assert deps == init + [last];
      AllFastPathsSucceed(init, succeeds);
      var command := EntryCommand(Binstall, last.0, last.1);
      assert succeeds(command);
      RunInstalled(init, last, true, succeeds, [command]);
      assert EntryCommands(Binstall, deps) == EntryCommands(Binstall, init) + [command];
    }
  }

  /** When the fast path's binary is missing and every `install` command
      succeeds, exactly one `install` command runs per dependency, in
      order, and the run ends without aborting. */
  lemma {:induction false} NoFastPath(deps: seq<Entry>, succeeds: Command -> bool)
    requires forall i :: 0 <= i < |deps| ==> succeeds(EntryCommand(CargoInstall, deps[i].0, deps[i].1))
    ensures Run(deps, false, succeeds) == RunState(EntryCommands(CargoInstall, deps), CountSimple(deps), false)
  {
    if deps != [] {
      var n := |deps|;
      var init, last := deps[..n - 1], deps[n - 1];
      assert deps == init + [last];
      NoFastPath(init, succeeds);
      var command := EntryCommand(CargoInstall, last.0, last.1);
      assert succeeds(command);
      RunInstalled(init, last, false, succeeds, [command]);
      assert EntryCommands(CargoInstall, deps) == EntryCommands(CargoInstall, init) + [command];
    }
  }

  /** The manifest `foo = "1.0"`, `bar = "2.3"`, whose dependency table is
      visited in key order (`bar` first), with a fast path that always
      succeeds: two `binstall` commands, no `install`, progress 2, no
      abort. */
  lemma TwoSimpleDependencies()
    ensures Run([("bar", Simple("2.3")), ("foo", Simple("1.0"))], true, _ => true)
            == RunState([Command("cargo", ["binstall", "bar", "--version", "2.3", "--no-confirm"]),
                         Command("cargo", ["binstall", "foo", "--version", "1.0", "--no-confirm"])], 2, false)
  {
    var deps := [("bar", Simple("2.3")), ("foo", Simple("1.0"))];
    AllFastPathsSucceed(deps, _ => true);
    SimpleCommands("bar", "2.3");
    SimpleCommands("foo", "1.0");
    assert deps[..1] == [deps[0]];
    assert CountSimple(deps) == 2;
  }

  // ---------------------------------------------------------------------
  // The loop of the source

  /** The fallback chain as the source runs it: spawn the fast path if its
      binary is found; if that was unavailable or failed, spawn the
      canonical path. */
  method TryInstall(name: string, args: seq<string>, binstallFound: bool, succeeds: Command -> bool)
    returns (attempts: Attempts)
    ensures attempts == Fallback(name, args, binstallFound, succeeds)
  {
    var tried: seq<Command> := [];
    var installed := false;
    if binstallFound {
      var fast := BuildCommand(Binstall, name, Some(args));
      tried := tried + [fast];
      installed := succeeds(fast);
    }
    if !installed {
      var canonical := BuildCommand(CargoInstall, name, Some(args));
      tried := tried + [canonical];
      installed := succeeds(canonical);
    }
    attempts := Attempts(tried, installed);
  }

  /** The loop of `main` over the dependencies: a simple dependency installs
      its key at its version and advances the progress bar; a detailed one
      installs its target with the built arguments; a dependency that
      cannot be installed aborts the run. */
  method InstallDependencies(deps: seq<Entry>, binstallFound: bool, succeeds: Command -> bool)
    returns (state: RunState)
    ensures state == Run(deps, binstallFound, succeeds)
  {
    var commands: seq<Command> := [];
    var progress: nat := 0;
    var aborted := false;
    var i := 0;
    while i < |deps| && !aborted
      invariant 0 <= i <= |deps|
      invariant RunState(commands, progress, aborted) == Run(deps[..i], binstallFound, succeeds)
      decreases |deps| - i
    {
      var (key, dep) := deps[i];
      match dep {
        case Simple(version) =>
          var attempts := TryInstall(key, ["--version", version], binstallFound, succeeds);
          commands := commands + attempts.commands;
          if !attempts.installed {
            aborted := true;
          } else {
            progress := progress + 1;
          }
        case Detailed(details) =>
          var name := match details.package case Some(p) => p case None => key;
          var args := BuildArgs(details);
          var attempts := TryInstall(name, args, binstallFound, succeeds);
          commands := commands + attempts.commands;
          if !attempts.installed {
            aborted := true;
          }
      }
      RunPrefix(deps, i, binstallFound, succeeds);
      i := i + 1;
    }
    if aborted {
      AbortIsFinal(deps[..i], deps[i..], binstallFound, succeeds);
      assert deps[..i] + deps[i..] == deps;
    } else {
      assert deps[..i] == deps;
    }
    state := RunState(commands, progress, aborted);
  }
}
