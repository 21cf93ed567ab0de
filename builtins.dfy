/**
 * The built-in commands `cd` and `exit`, and the shell state they change:
 * the globals `statusCode` and `stopProgram`, the `lastDirectory` buffer
 * and the process's working directory.
 *
 * `chdir` is an oracle answering the new working directory, or `None` when
 * the call fails; `getenv("HOME")` is the parameter `home`.
 */
module Builtins {
  import opened Wrappers
  import opened Decimal
  import opened Jobs

  // ---------------------------------------------------------------------
  // cd
  // ---------------------------------------------------------------------

  /** The working directory and `lastDirectory` (the empty string when nothing was recorded). */
  datatype Dirs = Dirs(cwd: string, last: string)

  /** What `cdCommand` leaves behind, and whether it printed its error message. */
  datatype CdResult = CdResult(dirs: Dirs, err: bool)

  /** The working directory after `chdir(target)` whose result is not checked; a NULL target fails. */
  function Moved(cwd: string, target: Option<string>, chdir: string -> Option<string>): string {
    match target
    case None => cwd
    case Some(t) => match chdir(t) { case None => cwd case Some(dir) => dir }
  }

  /** `cd`, `cd ~`: go to `$HOME`. */
  predicate GoesHome(args: seq<string>) {
    |args| == 1 || (|args| == 2 && args[1] == "~")
  }

  /** `cd -`: go back to `lastDirectory`. */
  predicate GoesBack(args: seq<string>) {
    |args| == 2 && args[1] == "-"
  }

  /**
   * `cdCommand` on the arguments `args` (`args[0]` is "cd"). Every branch
   * that reports no error records the directory it started from.
   */
  function Cd(d: Dirs, args: seq<string>, home: Option<string>, chdir: string -> Option<string>): (r: CdResult)
    requires |args| >= 1
    ensures r.err ==> r.dirs == d
    ensures !r.err ==> r.dirs.last == d.cwd
    ensures r.err <==>
      || |args| > 2
      || (GoesBack(args) && d.last == "")
      || (|args| == 2 && !GoesHome(args) && !GoesBack(args) && chdir(args[1]).None?)
  {
    if GoesHome(args) then
      CdResult(Dirs(Moved(d.cwd, home, chdir), d.cwd), false)
    else if GoesBack(args) then
      if d.last == "" then CdResult(d, true)
      else CdResult(Dirs(Moved(d.cwd, Some(d.last), chdir), d.cwd), false)
    else if |args| > 2 then
      CdResult(d, true)
    else
      match chdir(args[1])
      case None => CdResult(d, true)
      case Some(dir) => CdResult(Dirs(dir, d.cwd), false)
  }

  /** With more than one operand `chdir` is never attempted: its answers do not matter. */
  lemma CdTooManyIgnoresChdir(d: Dirs, args: seq<string>, home: Option<string>,
                              chdir1: string -> Option<string>, chdir2: string -> Option<string>)
    requires |args| > 2
    ensures Cd(d, args, home, chdir1) == Cd(d, args, home, chdir2) == CdResult(d, true)
  {
  }

  /**
   * `cd -` twice returns to where it started, with the history as before,
   * when both directories can be entered again.
   */
  lemma CdBackTwice(d: Dirs, home: Option<string>, chdir: string -> Option<string>)
    requires d.last != "" && d.cwd != ""
    requires chdir(d.last) == Some(d.last) && chdir(d.cwd) == Some(d.cwd)
    ensures var once := Cd(d, ["cd", "-"], home, chdir);
      && once == CdResult(Dirs(d.last, d.cwd), false)
      && Cd(once.dirs, ["cd", "-"], home, chdir) == CdResult(d, false)
  {
    assert GoesBack(["cd", "-"]) && !GoesHome(["cd", "-"]);
  }

  /** A successful `cd path` followed by `cd -` comes back to the starting directory. */
  lemma CdThenBack(d: Dirs, path: string, dir: string, home: Option<string>, chdir: string -> Option<string>)
    requires path != "~" && path != "-" && d.cwd != ""
    requires chdir(path) == Some(dir) && chdir(d.cwd) == Some(d.cwd)
    ensures var there := Cd(d, ["cd", path], home, chdir);
      && there == CdResult(Dirs(dir, d.cwd), false)
      && Cd(there.dirs, ["cd", "-"], home, chdir) == CdResult(Dirs(d.cwd, dir), false)
  {
    assert !GoesBack(["cd", path]) && !GoesHome(["cd", path]);
    assert GoesBack(["cd", "-"]) && !GoesHome(["cd", "-"]);
  }

  // ---------------------------------------------------------------------
  // exit
  // ---------------------------------------------------------------------

  /** `exitCommand` refuses more than one operand and an operand with a non-digit. */
  predicate ExitRefused(args: seq<string>) {
    |args| > 2 || (|args| == 2 && !AllDigits(args[1]))
  }

  /**
   * The exit code `exit` sets: `atoi` of its operand, or 0 without one. It
   * is 0 exactly when there is no operand or the operand is all zeros.
   */
  function ExitCode(args: seq<string>): (code: nat)
    requires !ExitRefused(args)
    ensures code == 0 <==> |args| < 2 || AllZeros(args[1])
  {
    if |args| == 2 then Atoi(args[1]) else 0
  }

  /** An operand without leading zeros is exactly the decimal form of the exit code. */
  lemma ExitCodeReadsOperand(args: seq<string>)
    requires !ExitRefused(args) && |args| == 2
    requires |args[1]| > 0 && (|args[1]| > 1 ==> args[1][0] != '0')
    ensures Natural(ExitCode(args)) == args[1]
  {
    NaturalAtoi(args[1]);
  }

  /**
   * The value of `statusCode` after `exitCommand` as written: `freeJobs`
   * passes the same global to `waitpid`, so the status word of a job reaped
   * during the pass replaces the exit code.
   */
  function ExitStatusAsWritten(jobs: seq<Job>, wait: Pid -> Poll, args: seq<string>): int
    requires !ExitRefused(args)
  {
    StatusAfterFree(jobs, wait, ExitCode(args))
  }

  /**
   * `exit 3` with one background job that has already finished with
   * status 0: the shell as written exits with 0, not 3.
   */
  lemma ExitCodeOverwritten(wait: Pid -> Poll)
    requires wait(7) == Poll(7, 0)
    ensures ExitCode(["exit", "3"]) == 3
    ensures ExitStatusAsWritten([Job(7, "sleep 1")], wait, ["exit", "3"]) == 0
  {
    var s := "3";
    assert s[..0] == [];
    assert Atoi(s) == 3;
    assert [Job(7, "sleep 1")][..0] == [];
  }

  /** Without a job reaped during the pass, the exit code survives even as written. */
  lemma ExitCodeKeptWhenNoneReaped(jobs: seq<Job>, wait: Pid -> Poll, args: seq<string>)
    requires !ExitRefused(args)
    requires forall k :: 0 <= k < |jobs| ==> wait(jobs[k].pid).ret <= 0
    ensures ExitStatusAsWritten(jobs, wait, args) == ExitCode(args)
  {
    StatusSurvivesFree(jobs, wait, ExitCode(args));
  }

  // ---------------------------------------------------------------------
  // The shell state
  // ---------------------------------------------------------------------

  class Shell {
    var statusCode: int
    var stopProgram: bool
    var lastDirectory: string
    var cwd: string

    /** The state `main` starts with, in the directory the shell was started in. */
    constructor(start: string)
      ensures statusCode == 0 && !stopProgram && lastDirectory == "" && cwd == start
    {
      statusCode := 0;
      stopProgram := false;
      lastDirectory := "";
      cwd := start;
    }

    /** `cdCommand`: changes the working directory and `lastDirectory` as `Cd` says. */
    method CdCommand(args: seq<string>, home: Option<string>, chdir: string -> Option<string>)
      returns (err: bool)
      requires |args| >= 1
      modifies this
      ensures CdResult(Dirs(cwd, lastDirectory), err) ==
        Cd(Dirs(old(cwd), old(lastDirectory)), args, home, chdir)
      ensures statusCode == old(statusCode) && stopProgram == old(stopProgram)
    {
      var len := |args|;
      var currDir := cwd;
      err := false;
      if len == 1 || (len == 2 && args[1] == "~") {
        cwd := Moved(cwd, home, chdir);
        lastDirectory := currDir;
      } else if len == 2 && args[1] == "-" {
        if |lastDirectory| <= 0 {
          err := true;
        } else {
          cwd := Moved(cwd, Some(lastDirectory), chdir);
          lastDirectory := currDir;
        }
      } else if len > 2 {
        err := true;
      } else {
        var moved := chdir(args[1]);
        if moved.None? {
          err := true;
        } else {
          cwd := moved.value;
          lastDirectory := currDir;
        }
      }
    }

    /**
     * `exitCommand`: with an acceptable operand it sets `statusCode`, frees
     * the jobs (killing those still running) and stops the shell; otherwise
     * it reports an error and changes nothing. The status words of jobs
     * reaped while freeing go to a scratch variable, not to `statusCode`;
     * `statusAsWritten` is what that variable ends as, the value the code as
     * written leaves in `statusCode`.
     */
    method ExitCommand(list: JobList, args: seq<string>, wait: Pid -> Poll)
      returns (err: bool, killed: seq<Pid>, statusAsWritten: int)
      requires |args| >= 1
      requires |args| == 2 && AllDigits(args[1]) ==> Atoi(args[1]) <= INT_MAX
      modifies this, list
      ensures err <==> ExitRefused(args)
      ensures err ==> statusCode == old(statusCode) && stopProgram == old(stopProgram)
                      && list.jobs == old(list.jobs) && killed == []
      ensures !err ==> statusCode == ExitCode(args) && stopProgram
                       && list.jobs == [] && killed == Running(old(list.jobs), wait)
      ensures statusAsWritten ==
        if err then old(statusCode) else ExitStatusAsWritten(old(list.jobs), wait, args)
      ensures lastDirectory == old(lastDirectory) && cwd == old(cwd)
    {
      var len := |args|;
      killed, statusAsWritten := [], statusCode;
      if len > 2 {
        return true, killed, statusAsWritten;
      } else if len == 2 {
        var arg := args[1];
        var i := 0;
        while i < |arg|
          invariant i <= |arg| && AllDigits(arg[..i])
        {
          if !IsDigit(arg[i]) {
            return true, killed, statusAsWritten;
          }
          i := i + 1;
        }
        assert arg[..i] == arg;
        statusCode := Atoi(arg);
      } else {
        statusCode := 0;
      }
      killed, statusAsWritten := list.FreeAll(wait, statusCode);
      stopProgram := true;
      err := false;
    }
  }
}
