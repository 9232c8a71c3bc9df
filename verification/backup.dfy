/**
 * The rsync invocation of the backup script: a fixed set of options, the
 * optional verbose and dry-run flags, then the source and the destination.
 */
module Backup {

  /** The parsed command line: `--src`, `--dest`, `-v` and `-n`. */
  datatype Args = Args(src: string, dest: string, verbose: bool, dryRun: bool)

  /** The options every invocation starts with. */
  const BaseCommand: seq<string> := ["rsync", "--archive", "--delete", "--human-readable"]

  /** The flags between the fixed options and the two paths. */
  function FlagsOf(command: seq<string>): seq<string>
    requires |command| >= 6
  {
    command[4..|command| - 2]
  }

  /** Reads the arguments back from a command: the last two words and the flags present. */
  function ArgsOf(command: seq<string>): Args
    requires |command| >= 6
  {
    Args(command[|command| - 2], command[|command| - 1],
         "--verbose" in FlagsOf(command), "--dry-run" in FlagsOf(command))
  }

  /** The number of optional flags the arguments switch on. */
  function FlagCount(args: Args): nat
  {
    (if args.verbose then 1 else 0) + (if args.dryRun then 1 else 0)
  }

  /**
   * `get_command(args)`: the list rsync is started with. The fixed options
   * come first, `--verbose` is there exactly when asked for and comes before
   * `--dry-run`, which is there exactly when asked for; the source and the
   * destination are the last two words. Nothing is lost: the arguments
   * can be read back from the command.
   */
  method GetCommand(args: Args) returns (command: seq<string>)
    ensures |command| == 6 + FlagCount(args)
    ensures command[..4] == BaseCommand
    ensures command[|command| - 2] == args.src && command[|command| - 1] == args.dest
    ensures FlagsOf(command) == (if args.verbose then ["--verbose"] else [])
                                + (if args.dryRun then ["--dry-run"] else [])
    ensures ("--verbose" in FlagsOf(command)) <==> args.verbose
    ensures ("--dry-run" in FlagsOf(command)) <==> args.dryRun
    ensures args.verbose && args.dryRun ==> command[4] == "--verbose" && command[5] == "--dry-run"
    ensures ArgsOf(command) == args
  {
    command := BaseCommand;
    if args.verbose {
      command := command + ["--verbose"];
    }
    if args.dryRun {
      command := command + ["--dry-run"];
    }
    command := command + [args.src];
    command := command + [args.dest];
  }
}
