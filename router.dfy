/**
 * `doCommand`: the dispatch of a parsed command line to `cd`, `exit`,
 * `jobs` or an external program, and the parent's side of `basicCommand`.
 */
module Router {
  import opened Wrappers
  import opened Decimal
  import opened Jobs
  import opened Builtins

  /**
   * What the operating system answers during one command: the shell's own
   * pid (`getpid`), the pid `fork` returns to the parent, `getenv("HOME")`,
   * `chdir`, and `waitpid(..., WNOHANG)` during the one pass over the jobs.
   */
  datatype World = World(self: Pid, child: Pid, home: Option<string>,
                         chdir: string -> Option<string>, wait: Pid -> Poll)

  /**
   * The command name as `doCommand` reads it, `parsed[0]`, with no check
   * that there is one: on a line whose only token is `&`, `parsed[0]` is NULL.
   */
  function CommandNameAsWritten(args: seq<string>): string
    requires |args| > 0
  {
    args[0]
  }

  /** Whether `doCommand` runs the command itself instead of launching a program. */
  predicate IsBuiltin(name: string) {
    name == "cd" || name == "exit" || name == "jobs"
  }

  /**
   * The parent's side of `basicCommand`: prints the child's pid and, for a
   * background command, appends one job holding the pid and the arguments
   * joined by single spaces. A foreground command leaves the list alone
   * (waiting for the child is not modelled).
   */
  method BasicCommand(list: JobList, args: seq<string>, isBackground: bool, pid: Pid)
    returns (out: seq<string>)
    requires |args| > 0
    modifies list
    ensures out == [Format(pid)]
    ensures list.jobs == old(list.jobs) + (if isBackground then [Job(pid, Join(args))] else [])
  {
    out := [Format(pid)];
    if isBackground {
      var command := ConcatStrings(args);
      list.Append(Job(pid, command));
    }
  }

  /**
   * `doCommand`: an exact match of the first argument picks the builtin;
   * the background flag matters only to external programs. Returns the
   * lines printed on standard output, whether an error was reported, the
   * pids sent `SIGKILL` (only a successful `exit` kills), and the value the
   * code as written leaves in `statusCode` (see `Shell.ExitCommand`).
   * An empty command does nothing.
   */
  method DoCommand(shell: Shell, list: JobList, args: seq<string>, isBackground: bool, w: World)
    returns (out: seq<string>, err: bool, killed: seq<Pid>, statusAsWritten: int)
    requires |args| == 2 && args[0] == "exit" && AllDigits(args[1]) ==> Atoi(args[1]) <= INT_MAX
    modifies shell, list
    ensures killed == if args != [] && args[0] == "exit" && !err then Running(old(list.jobs), w.wait) else []
    ensures statusAsWritten ==
      if args != [] && args[0] == "exit" && !ExitRefused(args) then ExitStatusAsWritten(old(list.jobs), w.wait, args)
      else shell.statusCode
    ensures args == [] ==>
      && out == [] && !err && list.jobs == old(list.jobs)
      && shell.statusCode == old(shell.statusCode) && shell.stopProgram == old(shell.stopProgram)
      && shell.cwd == old(shell.cwd) && shell.lastDirectory == old(shell.lastDirectory)
    ensures args != [] && args[0] == "cd" ==>
      && out == [Format(w.self)] && list.jobs == old(list.jobs)
      && CdResult(Dirs(shell.cwd, shell.lastDirectory), err) ==
           Cd(Dirs(old(shell.cwd), old(shell.lastDirectory)), args, w.home, w.chdir)
      && shell.statusCode == old(shell.statusCode) && shell.stopProgram == old(shell.stopProgram)
    ensures args != [] && args[0] == "exit" ==>
      && out == [Format(w.self)] && (err <==> ExitRefused(args))
      && (err ==> list.jobs == old(list.jobs) && shell.statusCode == old(shell.statusCode)
                  && shell.stopProgram == old(shell.stopProgram))
      && (!err ==> list.jobs == [] && shell.statusCode == ExitCode(args) && shell.stopProgram)
      && shell.cwd == old(shell.cwd) && shell.lastDirectory == old(shell.lastDirectory)
    ensures args != [] && args[0] == "jobs" ==>
      && list.jobs == Live(old(list.jobs), w.wait) && out == Listing(list.jobs) && !err
    ensures args != [] && !IsBuiltin(args[0]) ==>
      && out == [Format(w.child)] && !err
      && list.jobs == old(list.jobs) + (if isBackground then [Job(w.child, Join(args))] else [])
    ensures args != [] && args[0] != "exit" ==>
      shell.statusCode == old(shell.statusCode) && shell.stopProgram == old(shell.stopProgram)
    ensures args != [] && args[0] != "cd" ==>
      shell.cwd == old(shell.cwd) && shell.lastDirectory == old(shell.lastDirectory)
  {
    out, err, killed, statusAsWritten := [], false, [], shell.statusCode;
    if args == [] {
      return;
    }
    var command := args[0];
    if command == "cd" {
      out := [Format(w.self)];
      err := shell.CdCommand(args, w.home, w.chdir);
    } else if command == "exit" {
      out := [Format(w.self)];
      err, killed, statusAsWritten := shell.ExitCommand(list, args, w.wait);
    } else if command == "jobs" {
      var queried := list.DeleteDead(w.wait);
      out := list.Print();
    } else {
      out := BasicCommand(list, args, isBackground, w.child);
    }
  }
}
