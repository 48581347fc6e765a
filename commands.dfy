/** Command construction: the two `cargo` subcommands the installer runs and
    the argument vector it hands to the process builder.

    The process builder of the source is modelled by the value it ends up
    holding: the program name and its argument vector. `ParseCommand` reads
    such a command back into the subcommand, the target name and the user
    arguments. */
module Commands {
  import opened CargoToml

  const Cargo := "cargo"
  const NoConfirmFlag := "--no-confirm"

  /** The fast path (`cargo binstall`, prebuilt binaries) and the canonical
      path (`cargo install`, build from source). */
  datatype CommandKind = Binstall | CargoInstall
  {
    /** `CommandKind::subcommand`: the subcommand word passed to cargo. */
    function Subcommand(): string
    {
      match this
      case Binstall => "binstall"
      case CargoInstall => "install"
    }
  }

  /** The kind whose subcommand word is `word`, if there is one. */
  function KindOf(word: string): Option<CommandKind>
  {
    if word == "binstall" then Some(Binstall)
    else if word == "install" then Some(CargoInstall)
    else None
  }

  /** The two subcommand words differ, and each reads back as its kind. */
  lemma SubcommandInverse(kind: CommandKind)
    ensures KindOf(kind.Subcommand()) == Some(kind)
    ensures Binstall.Subcommand() != CargoInstall.Subcommand()
  {
  }

  /** A process to spawn: the program and its argument vector. */
  datatype Command = Command(program: string, args: seq<string>)

  /** The command `build_command` produces. */
  function CommandLine(kind: CommandKind, name: string, args: Option<seq<string>>): Command
  {
    var user := match args case Some(a) => a case None => [];
    Command(Cargo, [kind.Subcommand(), name] + user + (if kind == Binstall then [NoConfirmFlag] else []))
  }

  /** `build_command`: starts `cargo`, adds the subcommand and the target
      name, then the user arguments if any, then `--no-confirm` for the
      fast path. */
  method BuildCommand(kind: CommandKind, name: string, args: Option<seq<string>>) returns (command: Command)
    ensures command == CommandLine(kind, name, args)
  {
    command := Command(Cargo, []);
    command := command.(args := command.args + [kind.Subcommand(), name]);
    if args.Some? {
      command := command.(args := command.args + args.value);
    }
    if kind == Binstall {
      command := command.(args := command.args + [NoConfirmFlag]);
    }
  }

  /** What a command asks cargo to do. */
  datatype Invocation = Invocation(kind: CommandKind, name: string, args: seq<string>)

  /** Reads a command back: `cargo`, a subcommand word, a target name, the
      user arguments, and for the fast path a final `--no-confirm`. */
  function ParseCommand(c: Command): Option<Invocation>
  {
    if c.program != Cargo || |c.args| < 2 then None
    else match KindOf(c.args[0])
      case None => None
      case Some(Binstall) =>
        if |c.args| >= 3 && c.args[|c.args| - 1] == NoConfirmFlag
        then Some(Invocation(Binstall, c.args[1], c.args[2..|c.args| - 1]))
        else None
      case Some(CargoInstall) => Some(Invocation(CargoInstall, c.args[1], c.args[2..]))
  }

  /** The layout of a built command: `cargo`, the subcommand, the target
      name, the user arguments unchanged, and `--no-confirm` after them, as
      the last word, exactly for the fast path. */
  lemma CommandLayout(kind: CommandKind, name: string, args: seq<string>)
    ensures var c := CommandLine(kind, name, Some(args));
      && c.program == Cargo
      && |c.args| == 2 + |args| + (if kind == Binstall then 1 else 0)
      && c.args[0] == kind.Subcommand() && c.args[1] == name
      && c.args[2..2 + |args|] == args
      && (kind == Binstall ==> c.args[|c.args| - 1] == NoConfirmFlag)
  {
  }

  /** Reading back a built command gives its kind, target name and user
      arguments, whatever those arguments are. */
  lemma ParseCommandInverse(kind: CommandKind, name: string, args: seq<string>)
    ensures ParseCommand(CommandLine(kind, name, Some(args))) == Some(Invocation(kind, name, args))
  {
    var c := CommandLine(kind, name, Some(args));
    SubcommandInverse(kind);
    if kind == Binstall {
      assert c.args[2..|c.args| - 1] == args;
    } else {
      assert c.args[2..] == args;
    }
  }
}
