/**
 * The shell's list of background jobs. In the C program it is a singly
 * linked list of `Job` nodes, each holding the child's pid and its command
 * line; here the list is the sequence of those nodes, in list order.
 *
 * `waitpid(pid, &status, WNOHANG)` is an oracle: `wait(pid)` is what it
 * answers during one pass over the list.
 */
module Jobs {
  import opened Wrappers
  import opened Decimal
  import Parser

  type Pid = int

  datatype Job = Job(pid: Pid, command: string)

  /**
   * The answer of `waitpid(pid, &status, WNOHANG)`: the return value (-1
   * for no such child, 0 for a child still running, the pid for a child
   * just reaped) and the status word it stores, which it stores only when
   * it returns a pid.
   */
  datatype Poll = Poll(ret: int, status: int)

  function Pids(jobs: seq<Job>): (pids: seq<Pid>)
    ensures |pids| == |jobs|
    ensures forall k :: 0 <= k < |jobs| ==> pids[k] == jobs[k].pid
  {
    if jobs == [] then [] else Pids(jobs[..|jobs| - 1]) + [jobs[|jobs| - 1].pid]
  }

  predicate DistinctPids(jobs: seq<Job>) {
    forall i, j :: 0 <= i < j < |jobs| ==> jobs[i].pid != jobs[j].pid
  }

  // ---------------------------------------------------------------------
  // concatStrings
  // ---------------------------------------------------------------------

  /** Every token followed by one space. */
  function Spaced(args: seq<string>): string {
    if args == [] then "" else Spaced(args[..|args| - 1]) + args[|args| - 1] + " "
  }

  /** The tokens joined by single spaces. */
  function Join(args: seq<string>): string
    requires |args| > 0
  {
    if |args| == 1 then args[0] else Join(args[..|args| - 1]) + " " + args[|args| - 1]
  }

  /** Writing a space after every token is the join with one space left over. */
  lemma {:induction false} SpacedIsJoin(args: seq<string>)
    requires |args| > 0
    ensures Spaced(args) == Join(args) + " "
  {
    var init := args[..|args| - 1];
    if |args| > 1 {
      SpacedIsJoin(init);
    } else {
      assert init == [];
    }
  }

  /**
   * `concatStrings`: appends each token and a space, then overwrites the
   * last space with the terminator. The caller passes at least one token
   * (with none, the C code writes before the buffer).
   */
  method ConcatStrings(args: seq<string>) returns (str: string)
    requires |args| > 0
    ensures str == Join(args)
  {
    str := "";
    var i := 0;
    while i < |args|
      invariant i <= |args|
      invariant str == Spaced(args[..i])
    {
      assert args[..i + 1][..i] == args[..i];
      str := str + args[i] + " ";
      i := i + 1;
    }
    assert args[..i] == args;
    SpacedIsJoin(args);
    str := str[..|str| - 1];
  }

  predicate IsWord(w: string) {
    |w| > 0 && forall k :: 0 <= k < |w| ==> !Parser.IsSeparator(w[k])
  }

  /**
   * The stored command line splits back into the tokens it was made of,
   * when every token is a non-empty word without separators.
   */
  lemma {:induction false} JoinSplitsBack(args: seq<string>)
    requires |args| > 0 && forall k :: 0 <= k < |args| ==> IsWord(args[k])
    ensures Parser.Words(Join(args) + " ") == args
  {
    SpacedIsJoin(args);
    SpacedSplitsBack(args);
  }

  lemma {:induction false} SpacedSplitsBack(args: seq<string>)
    requires forall k :: 0 <= k < |args| ==> IsWord(args[k])
    ensures Parser.Words(Spaced(args)) == args
  {
    if args != [] {
      var init := args[..|args| - 1];
      var last := args[|args| - 1];
      SpacedSplitsBack(init);
      assert IsWord(last);
      Parser.WordsSnoc(Spaced(init), last, ' ');
      assert Spaced(args) == Spaced(init) + last + [' '];
      assert init + [last] == args;
    }
  }

  // ---------------------------------------------------------------------
  // deleteJob and freeJobs, as functions of the list and the oracle
  // ---------------------------------------------------------------------

  /** The jobs `deleteJob` keeps: those whose query did not fail, in order. */
  function Live(jobs: seq<Job>, wait: Pid -> Poll): (r: seq<Job>)
    ensures |r| <= |jobs|
    ensures forall k :: 0 <= k < |r| ==> wait(r[k].pid).ret >= 0
  {
    if jobs == [] then []
    else
      var last := jobs[|jobs| - 1];
      Live(jobs[..|jobs| - 1], wait) + (if wait(last.pid).ret >= 0 then [last] else [])
  }

  /** A job survives `deleteJob` exactly when it was listed and its query did not fail. */
  lemma {:induction false} LiveMember(jobs: seq<Job>, wait: Pid -> Poll, j: Job)
    ensures j in Live(jobs, wait) <==> j in jobs && wait(j.pid).ret >= 0
  {
    if jobs != [] {
      var init := jobs[..|jobs| - 1];
      LiveMember(init, wait, j);
      assert jobs == init + [jobs[|jobs| - 1]];
    }
  }

  /** Filtering the two halves of a list separately gives the same jobs in the same order. */
  lemma {:induction false} LiveAppend(a: seq<Job>, b: seq<Job>, wait: Pid -> Poll)
    ensures Live(a + b, wait) == Live(a, wait) + Live(b, wait)
  {
    if b == [] {
      assert a + b == a;
    } else {
      var init := b[..|b| - 1];
      LiveAppend(a, init, wait);
      assert (a + b)[..|a + b| - 1] == a + init;
    }
  }

  /** One more job examined: it is kept when its query did not fail. */
  lemma LiveStep(all: seq<Job>, m: nat, wait: Pid -> Poll)
    requires m < |all|
    ensures Live(all[..m + 1], wait) == Live(all[..m], wait) + (if wait(all[m].pid).ret >= 0 then [all[m]] else [])
    ensures Pids(all[..m + 1]) == Pids(all[..m]) + [all[m].pid]
  {
    assert all[..m + 1][..m] == all[..m];
  }

  /** A second pass that gets the same answers removes nothing more. */
  lemma {:induction false} LiveIdempotent(jobs: seq<Job>, wait: Pid -> Poll)
    ensures Live(Live(jobs, wait), wait) == Live(jobs, wait)
  {
    if jobs != [] {
      var init := jobs[..|jobs| - 1];
      var last := jobs[|jobs| - 1];
      LiveIdempotent(init, wait);
      var tail := if wait(last.pid).ret >= 0 then [last] else [];
      LiveAppend(Live(init, wait), tail, wait);
      assert Live(tail, wait) == tail by {
        if tail != [] {
          assert tail[..0] == [];
        }
      }
    }
  }

  /** `deleteJob` never makes two jobs share a pid. */
  lemma {:induction false} LiveKeepsDistinct(jobs: seq<Job>, wait: Pid -> Poll)
    requires DistinctPids(jobs)
    ensures DistinctPids(Live(jobs, wait))
  {
    if jobs != [] {
      var init := jobs[..|jobs| - 1];
      var last := jobs[|jobs| - 1];
      LiveKeepsDistinct(init, wait);
      forall j | j in Live(init, wait)
        ensures j.pid != last.pid
      {
        LiveMember(init, wait, j);
        var k :| 0 <= k < |init| && init[k] == j;
      }
    }
  }

  /** The pids `freeJobs` sends SIGKILL to: those of the jobs still running, in order. */
  function Running(jobs: seq<Job>, wait: Pid -> Poll): (r: seq<Pid>)
    ensures |r| <= |jobs|
    ensures forall k :: 0 <= k < |r| ==> wait(r[k]).ret == 0
  {
    if jobs == [] then []
    else
      var last := jobs[|jobs| - 1];
      Running(jobs[..|jobs| - 1], wait) + (if wait(last.pid).ret == 0 then [last.pid] else [])
  }

  /** Exactly the pids of listed jobs whose query says they are still running are killed. */
  lemma {:induction false} RunningMember(jobs: seq<Job>, wait: Pid -> Poll, p: Pid)
    ensures p in Running(jobs, wait) <==> p in Pids(jobs) && wait(p).ret == 0
  {
    if jobs != [] {
      var init := jobs[..|jobs| - 1];
      RunningMember(init, wait, p);
      assert Pids(jobs) == Pids(init) + [jobs[|jobs| - 1].pid];
    }
  }

  /**
   * The value `freeJobs` leaves in the variable whose address it passes to
   * `waitpid`, starting from `status`: the status word of the last job
   * reaped (`StatusOfLastReaped`), or `status` when none was
   * (`StatusSurvivesFree`).
   */
  function StatusAfterFree(jobs: seq<Job>, wait: Pid -> Poll, status: int): (r: int)
    ensures r == status ||
      exists k :: 0 <= k < |jobs| && wait(jobs[k].pid).ret > 0 && r == wait(jobs[k].pid).status
  {
    if jobs == [] then status
    else
      var poll := wait(jobs[|jobs| - 1].pid);
      if poll.ret > 0 then poll.status else StatusAfterFree(jobs[..|jobs| - 1], wait, status)
  }

  /** The value left is the status word of the last job reaped during the pass. */
  lemma {:induction false} StatusOfLastReaped(jobs: seq<Job>, wait: Pid -> Poll, status: int, k: nat)
    requires k < |jobs| && wait(jobs[k].pid).ret > 0
    requires forall j :: k < j < |jobs| ==> wait(jobs[j].pid).ret <= 0
    ensures StatusAfterFree(jobs, wait, status) == wait(jobs[k].pid).status
  {
    if k < |jobs| - 1 {
      var init := jobs[..|jobs| - 1];
      StatusOfLastReaped(init, wait, status, k);
    }
  }

  /**
   * The value survives `freeJobs` when no job is reaped during the pass.
   * (The converse does not hold: a reaped job whose status word equals the
   * value leaves it unchanged as well.)
   */
  lemma {:induction false} StatusSurvivesFree(jobs: seq<Job>, wait: Pid -> Poll, status: int)
    requires forall k :: 0 <= k < |jobs| ==> wait(jobs[k].pid).ret <= 0
    ensures StatusAfterFree(jobs, wait, status) == status
  {
    if jobs != [] {
      StatusSurvivesFree(jobs[..|jobs| - 1], wait, status);
    }
  }

  // ---------------------------------------------------------------------
  // printJob
  // ---------------------------------------------------------------------

  /** The line `printJob` prints for one job: `%d %s`. */
  function JobLine(j: Job): string {
    Format(j.pid) + " " + j.command
  }

  /** What `printJob` prints: one line per job, in list order. */
  function Listing(jobs: seq<Job>): seq<string> {
    seq(|jobs|, k requires 0 <= k < |jobs| => JobLine(jobs[k]))
  }

  /** A listed line reads back as the job's pid, a space and its command line. */
  lemma JobLineReadsBack(j: Job)
    requires j.pid >= 0
    ensures var line := JobLine(j); var n := |Natural(j.pid)|;
      && n < |line| && AllDigits(line[..n]) && Atoi(line[..n]) == j.pid
      && line[n] == ' ' && line[n + 1..] == j.command
  {
    var line := JobLine(j);
    var n := |Natural(j.pid)|;
    assert line[..n] == Natural(j.pid);
    AtoiNatural(j.pid);
  }

  // ---------------------------------------------------------------------
  // The list itself
  // ---------------------------------------------------------------------

  lemma PidsAppend(a: seq<Job>, b: seq<Job>)
    ensures Pids(a + b) == Pids(a) + Pids(b)
  {
  }

  /** Once the first job of `all[..m]` to survive is the last one, the rest of the list follows it. */
  lemma LiveAfterHead(all: seq<Job>, m: nat, wait: Pid -> Poll)
    requires 0 < m <= |all| && Live(all[..m], wait) == [all[m - 1]]
    ensures Live(all, wait) == [all[m - 1]] + Live(all[m..], wait)
    ensures Pids(all) == Pids(all[..m]) + Pids(all[m..])
  {
    assert all[..m] + all[m..] == all;
    LiveAppend(all[..m], all[m..], wait);
    PidsAppend(all[..m], all[m..]);
  }

  /**
   * The walk of `deleteJob` after the head: `kept` ends with the current
   * node, and each node of `rest` in turn is queried and unlinked when its
   * query fails.
   */
  method UnlinkFailed(kept: seq<Job>, rest: seq<Job>, wait: Pid -> Poll)
    returns (list: seq<Job>, queried: seq<Pid>)
    ensures list == kept + Live(rest, wait)
    ensures queried == Pids(rest)
  {
    list, queried := kept, [];
    var m := 0;
    while m < |rest|
      invariant m <= |rest|
      invariant list == kept + Live(rest[..m], wait) && queried == Pids(rest[..m])
    {
      var next := rest[m];
      var poll := wait(next.pid);
      LiveStep(rest, m, wait);
      queried := queried + [next.pid];
      if poll.ret >= 0 {
        list := list + [next];
      }
      m := m + 1;
    }
    assert rest[..m] == rest;
  }

  class JobList {
    /** The nodes reachable from `head`, in list order. */
    var jobs: seq<Job>

    /** The empty list, `head = NULL`. */
    constructor()
      ensures jobs == []
    {
      jobs := [];
    }

    /** `getLast`: the node whose `next` is NULL, or NULL for an empty list. */
    method Last() returns (last: Option<Job>)
      ensures last.None? <==> jobs == []
      ensures last.Some? ==> last.value in jobs && last.value == jobs[|jobs| - 1]
    {
      if jobs == [] {
        return None;
      }
      var i := 0;
      while i + 1 < |jobs|
        invariant i < |jobs|
      {
        i := i + 1;
      }
      return Some(jobs[i]);
    }

    /**
     * The tail append of `basicCommand`: the new node becomes the head of an
     * empty list, or the `next` of the last node.
     */
    method Append(job: Job)
      modifies this
      ensures jobs == old(jobs) + [job]
    {
      var tail := Last();
      if tail.None? {
        jobs := [job];
      } else {
        jobs := jobs + [job];
      }
    }

    /** `printJob`: one line per job, in list order. */
    method Print() returns (lines: seq<string>)
      ensures lines == Listing(jobs)
    {
      lines := [];
      var i := 0;
      while i < |jobs|
        invariant i <= |jobs|
        invariant |lines| == i && forall k :: 0 <= k < i ==> lines[k] == JobLine(jobs[k])
      {
        lines := lines + [JobLine(jobs[i])];
        i := i + 1;
      }
    }

    /**
     * `deleteJob`: first drops failing nodes at the head, then walks the
     * rest, unlinking each successor whose query fails. Every pid is queried
     * once, in list order.
     */
    method DeleteDead(wait: Pid -> Poll) returns (queried: seq<Pid>)
      modifies this
      ensures jobs == Live(old(jobs), wait)
      ensures queried == Pids(old(jobs))
    {
      ghost var all := jobs;
      ghost var m := 0;
      queried := [];
      // The head of the list: `rest` is the list from the current head on.
      var rest := jobs;
      while rest != []
        invariant m <= |all| && rest == all[m..]
        invariant Live(all[..m], wait) == [] && queried == Pids(all[..m])
        decreases |rest|
      {
        var poll := wait(rest[0].pid);
        LiveStep(all, m, wait);
        queried := queried + [rest[0].pid];
        m := m + 1;
        if poll.ret < 0 {
          rest := rest[1..];
        } else {
          break;
        }
      }
      if rest == [] {
        assert all[..m] == all;
        jobs := [];
        return;
      }
      // The middle and the tail.
      assert rest == all[m - 1..] && rest[1..] == all[m..];
      LiveAfterHead(all, m, wait);
      var tail, more := UnlinkFailed([rest[0]], rest[1..], wait);
      jobs := tail;
      queried := queried + more;
    }

    /**
     * `freeJobs`: queries every node in order, storing each answer's status
     * word over `status`, sends SIGKILL to each pid still running, and frees
     * every node. Returns the pids killed and the final value of `status`.
     */
    method FreeAll(wait: Pid -> Poll, status: int) returns (killed: seq<Pid>, statusAfter: int)
      modifies this
      ensures jobs == []
      ensures killed == Running(old(jobs), wait)
      ensures statusAfter == StatusAfterFree(old(jobs), wait, status)
    {
      ghost var all := jobs;
      ghost var m := 0;
      killed := [];
      statusAfter := status;
      while jobs != []
        invariant m <= |all| && jobs == all[m..]
        invariant killed == Running(all[..m], wait)
        invariant statusAfter == StatusAfterFree(all[..m], wait, status)
        decreases |jobs|
      {
        var poll := wait(jobs[0].pid);
        assert all[..m + 1][..m] == all[..m] && all[m] == jobs[0];
        if poll.ret > 0 {
          statusAfter := poll.status;
        }
        if poll.ret == 0 {
          killed := killed + [jobs[0].pid];
        }
        jobs := jobs[1..];
        m := m + 1;
      }
      assert all[..m] == all;
    }
  }

  /** A background launch with a pid no listed job has keeps the pids distinct. */
  lemma AppendKeepsDistinct(jobs: seq<Job>, job: Job)
    requires DistinctPids(jobs) && job.pid !in Pids(jobs)
    ensures DistinctPids(jobs + [job])
  {
    forall i | 0 <= i < |jobs|
      ensures jobs[i].pid != job.pid
    {
      assert Pids(jobs)[i] == jobs[i].pid;
    }
  }
}
