# install-from-manifest, modelled in Dafny

`install-from-manifest` reads a Cargo manifest and installs every crate listed
under its `[dependencies]` as a binary. For each dependency it builds a
`cargo` command line. It tries `cargo binstall` (prebuilt binaries) first,
when the `cargo-binstall` binary is on the search path. It falls back to
`cargo install` when binstall is missing or fails. The whole run aborts when
`cargo install` fails as well. A progress bar shows how far the run has got.

This project models that core and proves properties of it:

- `cargo_toml.dfy` (module `CargoToml`): the parsed dependency entries, either
  a simple version string or a detailed table.
- `arguments.dfy` (module `Arguments`): the argument builder `build_args`.
  - `Args` states its result through a table of the optional fields and their
    flags.
  - `BuildArgs` pushes flag after value, as the source does, and is proved
    equal to `Args`.
  - `ParseArgs` reads a flag list back. It accepts the optional flags only in
    table order, and it inverts the builder.
  - `Split` inverts the comma join of the feature list when the list is
    non-empty and no feature contains a comma.
- `commands.dfy` (module `Commands`): `CommandKind::subcommand` and
  `build_command`. The process builder is modelled by the program and the
  argument vector it ends up holding. `ParseCommand` reads a command back.
- `installer.dfy` (module `Installer`): the loop of `main` over the
  dependencies.
  - The target-name choice and the binstall-then-install fallback chain.
  - `Run` defines what the loop computes. `InstallDependencies` is the loop
    itself, with the list of spawned commands, the progress position and the
    abort flag.
- `program.dfy` (module `Program`): resolving the manifest path, the early
  return for a missing manifest, the abort on a parse failure, and the run.

What the environment decides is passed in as an input:

- whether `cargo-binstall` is found (`binstallFound`);
- whether a spawned command exits successfully (`succeeds`, a function of
  the command);
- whether a path is a directory or exists (`isDir`, `pathExists`);
- what the TOML parser returns for a path (`load`).

A `panic!` of the source is an aborted state or an error outcome, not the
end of the process.

Two details of the code are worth knowing:

- The fast-path command ends with `--no-confirm`, after the user arguments:
  `cargo binstall foo --version 1.0 --no-confirm` (src/main.rs:141-143).
- The progress bar advances only after a simple dependency is installed
  (src/main.rs:239). The detailed branch changes the bar's message but never
  its position (src/main.rs:261). So after the loop, before `bar.finish()`
  (src/main.rs:267) moves the bar to its end, a run that installed a
  detailed dependency has the bar short of its length (`CountSimple`,
  `ProgressCount`).

## Model

| member | source | states |
|---|---|---|
| `Arguments.BuildArgs` | src/main.rs:64-115 | The pushed flag list equals `Args`, the table-driven definition of the flag list. |
| `Arguments.PushFlag` | src/main.rs:67-70 | One `if let Some` block appends the flag and then the value when the field is present, and nothing otherwise. |
| `Arguments.ArgsLayout` | src/main.rs:64-115 | The present optional fields come first, as flag-value pairs in the fixed order version, registry, index, path, git, branch, tag, rev. Next come `--features` and the comma-joined features, which is `""` when there are none. `--no-default-features` comes last exactly when `default_features == Some(false)`. The length is 2 × present fields + 2 + 1 for that trailing flag. |
| `Arguments.EmptyDetailArgs` | src/main.rs:107-108 | A detail with nothing set gives exactly `["--features", ""]`. |
| `Arguments.ParseArgsInverse` | src/main.rs:64-115 | Reading the builder's output back in table order recovers every optional value, the joined features and the default-features switch. |
| `Arguments.SplitJoin` | src/main.rs:108 | Splitting the comma-joined feature list at commas gives the list back, when the list is non-empty and no feature contains a comma. |
| `Commands.SubcommandInverse` | src/main.rs:123-130 | `binstall` and `install` are different words, and each reads back as its own kind. |
| `Commands.BuildCommand` | src/main.rs:132-146 | The built command equals `CommandLine`: `cargo`, the subcommand, the name, the user arguments, and `--no-confirm` only for binstall. |
| `Commands.CommandLayout` | src/main.rs:132-146 | The argument vector is `[subcommand, name] ++ args`, plus `--no-confirm` as the last word exactly for binstall, after the user arguments. |
| `Commands.ParseCommandInverse` | src/main.rs:132-146 | Reading a built command back gives its kind, name and user arguments, whatever the arguments are. |
| `Installer.SameInputs` | src/main.rs:216-257 | The binstall and install commands for one dependency carry the same target and the same arguments. The target is `package` when a detailed dependency sets it, and the manifest key otherwise. |
| `Installer.SimpleCommands` | src/main.rs:218-236 | A simple dependency `key = "V"` runs `cargo binstall key --version V --no-confirm` on the fast path and `cargo install key --version V` on the canonical path. |
| `Installer.FallbackChain` | src/main.rs:220-238 | Binstall is tried iff its binary is found. Install is tried iff binstall was unavailable or failed, and always after binstall. The dependency is installed iff the binstall or install attempt that ran succeeded. |
| `Installer.TryInstall` | src/main.rs:249-259 | The short-circuit condition of the source runs the commands that `Fallback` lists and reports its outcome. |
| `Installer.InstallDependencies` | src/main.rs:216-264 | The loop's spawned commands, progress position and abort flag equal `Run` over the dependencies in order. |
| `Installer.AbortIsFinal` | src/main.rs:236-238 | Once the run has aborted, later dependencies change nothing: no command is spawned for them. |
| `Installer.AbortPoint` | src/main.rs:253-259 | An aborted run stopped at some dependency k. Every earlier dependency was installed, k failed on every path it tried, and the final state is the state right after k. |
| `Installer.CountSimple` | src/main.rs:239 | The number of simple dependencies is at most the number of dependencies, and strictly less when one is detailed. |
| `Installer.ProgressCount` | src/main.rs:216-264 | The progress position never exceeds the number of simple dependencies and equals it when the run does not abort. At most two commands are spawned per dependency. |
| `Installer.AllFastPathsSucceed` | src/main.rs:216-264 | With binstall found and succeeding everywhere, exactly one binstall command runs per dependency, in order. No install command runs and the run does not abort. |
| `Installer.NoFastPath` | src/main.rs:216-264 | With binstall missing and install succeeding everywhere, exactly one install command runs per dependency, in order, and the run does not abort. |
| `Installer.CompletedRun` | src/main.rs:216-264 | A run ends without aborting exactly when every dependency was installed, so each non-aborted prefix in `AbortPoint` was installed entry by entry. |
| `Installer.TwoSimpleDependencies` | src/main.rs:216-240 | The manifest `foo = "1.0"`, `bar = "2.3"`, visited in key order, with a succeeding binstall gives `cargo binstall bar …` then `cargo binstall foo …`, progress 2 and no abort. |
| `Program.JoinPathParts` | src/main.rs:183 | Joining keeps the directory as a prefix and adds at most one separator. The joined file name becomes the last component. |
| `Program.ResolvedManifestPath` | src/main.rs:182-186 | A directory resolves to a longer path that starts with the directory and ends in the component `Cargo.toml`. Any other path is kept unchanged. |
| `Program.InstallFromManifest` | src/main.rs:182-264 | A missing resolved path returns early with no command spawned. An unparsable manifest aborts. Otherwise the outcome is `Run` over the parsed dependencies, with the bar's length equal to the number of dependencies. |

## Left out

- Command-line parsing, shell-completion output and the debug printing of the arguments (src/main.rs:18-53, 171-180) are library calls and output. Of the parsed arguments only the manifest path reaches the model. `--verbose` only routes output streams, and `--name`, `--force` and the workspace flags are unused by the source.
- Parsing the manifest's TOML is done by an external crate. It is the input `load`, which gives the dependency entries in the table's iteration order. That table is a map sorted by key, so the entries come in ascending key order with distinct keys. The model accepts any sequence of entries and does not use that order.
- `bar.finish()` and the final message are not modelled. The progress position in the outcome is the one after the loop, before `finish` moves the bar to its end.
- Spawning and waiting on a process (`handle_command_output`) is the input `succeeds`. Stream routing and the message that never prints, because every call passes `silent = true`, are output. A failure to spawn `cargo` at all, which panics through `unwrap`, is not modelled.
- `succeeds` is a function of the command. Two identical commands in one run therefore get the same result, while a real process could behave differently the second time.
- The search for `cargo-binstall` is one boolean for the whole run. The source searches again for every dependency, and the model takes the answer to be the same each time.
- The progress bar's style and its messages are terminal output. Only its length and position are modelled.
- Paths are strings with `/` as the separator. `PathBuf::join` is modelled only for the relative component `Cargo.toml`. A non-UTF-8 path, on which the source's `to_str().unwrap()` would panic, cannot occur in the model.
- The detailed-dependency fields that the source does not read, such as `optional` or `target`, are not part of `DependencyDetail`.
