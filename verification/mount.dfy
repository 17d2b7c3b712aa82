/**
 * A CephFS client mount as the recovery and limits suites drive it
 * (`CephFSMount`): its fixed paths, the commands it issues on the client host,
 * the background processes it keeps, and the cleanup policy at teardown.
 *
 * Nothing is executed: the exit status a command would return is an input
 * (`status`), as are the observed `is_mounted()` answer, the clock reading used
 * to name scratch files, and the handles of launched processes.
 */
module Mount {
  import opened Results
  import opened Text

  /** What a background Python process launched on the client host does. */
  datatype Job =
    | HoldOpen(path: string)                  // write, flush, write again, then block holding the file
    | WriteOnce(path: string)                 // write and close as soon as possible
    | HoldMany(basePath: string, count: int)  // create the parent directory, open `count` files, block

  /**
   * The handle of a process started without waiting for it. Every process the
   * launches below start has a stdin (`_run_python` passes `stdin=run.PIPE`);
   * `hasStdin` is false only for a handle other code put on the list.
   */
  datatype Proc = Proc(handle: nat, hasStdin: bool)

  datatype CephFSMount = CephFSMount(
    testDir: string,
    clientId: string,
    mountpoint: string,
    testFiles: seq<string>,
    backgroundProcs: seq<Proc>)

  /** The errors the mount operations raise. */
  datatype MountError =
    | NotMounted                                      // `assert(self.is_mounted())` failed
    | CommandFailed(argv: seq<string>, status: int)   // a status-checked command exited nonzero
    | FileMissing(name: string)                       // check_files: expected file not found
    | VisibilityTimeout(waited: int, basename: string, clientId: string)

  /** The commands an operation issued, in order, and how it ended. */
  datatype Trace = Trace(issued: seq<seq<string>>, outcome: Outcome<MountError>)

  /** The fixture files every mount creates and checks, in this order. */
  const FixtureFiles: seq<string> := ["a", "b", "c"]

  // ---------------------------------------------------------------------------
  // Construction
  // ---------------------------------------------------------------------------

  /** A fresh mount: mountpoint `<test_dir>/mnt.<id>`, three fixtures, no processes. */
  function NewMount(testDir: string, clientId: string): (m: CephFSMount)
    ensures m.testDir == testDir && m.clientId == clientId
    ensures testDir <= m.mountpoint && EndsWith(m.mountpoint, "mnt." + clientId)
    ensures |m.mountpoint| <= |testDir| + 1 + |"mnt." + clientId|
    ensures |testDir| > 0 && testDir[|testDir| - 1] != '/' ==> m.mountpoint == testDir + "/" + ("mnt." + clientId)
    ensures |testDir| == 0 || testDir[|testDir| - 1] == '/' ==> m.mountpoint == testDir + ("mnt." + clientId)
    ensures m.testFiles == ["a", "b", "c"]
    ensures m.backgroundProcs == []
  {
    CephFSMount(testDir, clientId, PathJoin(testDir, "mnt." + clientId), FixtureFiles, [])
  }

  /** Two clients under one test directory never share a mountpoint. */
  lemma MountpointsDistinct(testDir: string, id1: string, id2: string)
    requires id1 != id2
    ensures NewMount(testDir, id1).mountpoint != NewMount(testDir, id2).mountpoint
  {
    assert ("mnt." + id1)[4..] == id1 && ("mnt." + id2)[4..] == id2;
    PathJoinInjective(testDir, "mnt." + id1, "mnt." + id2);
  }

  // ---------------------------------------------------------------------------
  // Commands run one after another until one fails
  // ---------------------------------------------------------------------------

  function Touch(path: string): seq<string> { ["sudo", "touch", path] }

  function ListPath(path: string): seq<string> { ["sudo", "ls", path] }

  function RemoveForce(path: string): seq<string> { ["sudo", "rm", "-f", path] }

  /** Position of the first command whose exit status is nonzero, or `|cmds|`. */
  function FirstFailure(cmds: seq<seq<string>>, status: seq<string> -> int): (n: nat)
    ensures n <= |cmds|
    ensures forall j :: 0 <= j < n ==> status(cmds[j]) == 0
    ensures n < |cmds| ==> status(cmds[n]) != 0
    decreases |cmds|
  {
    if |cmds| == 0 then 0
    else if status(cmds[0]) != 0 then 0
    else 1 + FirstFailure(cmds[1..], status)
  }

  /**
   * `issued` is `cmds` run in order up to and including the first that fails:
   * every command before the last issued one succeeded, and if the run stopped
   * early, its last command failed.
   */
  ghost predicate RunsUntilFailure(cmds: seq<seq<string>>, issued: seq<seq<string>>,
                                   status: seq<string> -> int)
  {
    && issued <= cmds
    && (forall j :: 0 <= j < |issued| - 1 ==> status(issued[j]) == 0)
    && (|issued| < |cmds| ==> |issued| > 0 && status(issued[|issued| - 1]) != 0)
  }

  /** The full paths of the fixture files under the mountpoint. */
  function FixturePaths(m: CephFSMount): (paths: seq<string>)
    ensures |paths| == |m.testFiles|
    ensures forall i :: 0 <= i < |paths| ==> paths[i] == PathJoin(m.mountpoint, m.testFiles[i])
  {
    seq(|m.testFiles|, i requires 0 <= i < |m.testFiles| => PathJoin(m.mountpoint, m.testFiles[i]))
  }

  function TouchAll(paths: seq<string>): (cmds: seq<seq<string>>)
    ensures |cmds| == |paths| && forall i :: 0 <= i < |paths| ==> cmds[i] == Touch(paths[i])
  {
    seq(|paths|, i requires 0 <= i < |paths| => Touch(paths[i]))
  }

  function ListAll(paths: seq<string>): (cmds: seq<seq<string>>)
    ensures |cmds| == |paths| && forall i :: 0 <= i < |paths| ==> cmds[i] == ListPath(paths[i])
  {
    seq(|paths|, i requires 0 <= i < |paths| => ListPath(paths[i]))
  }

  /**
   * `create_files`: touch each fixture in order; the first nonzero exit raises
   * and stops the loop.
   */
  function CreateFiles(m: CephFSMount, mounted: bool, status: seq<string> -> int): (t: Trace)
    ensures !mounted ==> t == Trace([], Fail(NotMounted))
    ensures mounted ==> RunsUntilFailure(TouchAll(FixturePaths(m)), t.issued, status)
    ensures t.outcome == Pass <==> mounted && forall i :: 0 <= i < |m.testFiles| ==>
              status(Touch(PathJoin(m.mountpoint, m.testFiles[i]))) == 0
    ensures mounted && t.outcome.Fail? ==>
              |t.issued| > 0 && t.outcome.error == CommandFailed(t.issued[|t.issued| - 1],
                                                                  status(t.issued[|t.issued| - 1]))
  {
    if !mounted then Trace([], Fail(NotMounted))
    else
      var cmds := TouchAll(FixturePaths(m));
      var n := FirstFailure(cmds, status);
      if n == |cmds| then Trace(cmds, Pass)
      else Trace(cmds[..n + 1], Fail(CommandFailed(cmds[n], status(cmds[n]))))
  }

  /**
   * `check_files`: list each fixture in order; the first one whose listing exits
   * nonzero is reported missing, and the fixtures after it are not probed.
   */
  function CheckFiles(m: CephFSMount, mounted: bool, status: seq<string> -> int): (t: Trace)
    ensures !mounted ==> t == Trace([], Fail(NotMounted))
    ensures mounted ==> RunsUntilFailure(ListAll(FixturePaths(m)), t.issued, status)
    ensures t.outcome == Pass <==> mounted && forall i :: 0 <= i < |m.testFiles| ==>
              status(ListPath(PathJoin(m.mountpoint, m.testFiles[i]))) == 0
    ensures mounted && t.outcome.Fail? ==>
              exists i :: 0 <= i < |m.testFiles| && t.outcome.error == FileMissing(m.testFiles[i])
                && |t.issued| == i + 1
                && status(ListPath(PathJoin(m.mountpoint, m.testFiles[i]))) != 0
                && forall j :: 0 <= j < i ==> status(ListPath(PathJoin(m.mountpoint, m.testFiles[j]))) == 0
  {
    if !mounted then Trace([], Fail(NotMounted))
    else
      var cmds := ListAll(FixturePaths(m));
      var n := FirstFailure(cmds, status);
      if n == |cmds| then Trace(cmds, Pass)
      else Trace(cmds[..n + 1], Fail(FileMissing(m.testFiles[n])))
  }

  /** The scratch file name `create_destroy` uses: the clock reading, a space, the client id. */
  function ScratchName(now: string, clientId: string): string
  {
    now + " " + clientId
  }

  /**
   * `create_destroy`: touch a scratch file named from the clock and the client id,
   * then remove that same file; both commands are status-checked.
   */
  function CreateDestroy(m: CephFSMount, mounted: bool, now: string,
                         status: seq<string> -> int): (t: Trace)
    ensures !mounted ==> t == Trace([], Fail(NotMounted))
    ensures mounted ==> 1 <= |t.issued| <= 2
    ensures mounted ==> t.issued[0] == Touch(PathJoin(m.mountpoint, ScratchName(now, m.clientId)))
    ensures |t.issued| == 2 ==> t.issued[1] == RemoveForce(t.issued[0][2])
    ensures t.outcome == Pass <==> (mounted && |t.issued| == 2
                                    && status(t.issued[0]) == 0 && status(t.issued[1]) == 0)
    ensures var path := PathJoin(m.mountpoint, ScratchName(now, m.clientId));
            mounted ==> RunsUntilFailure([Touch(path), RemoveForce(path)], t.issued, status)
    ensures mounted && status(t.issued[0]) != 0 ==>
              t == Trace([t.issued[0]], Fail(CommandFailed(t.issued[0], status(t.issued[0]))))
    ensures mounted && t.outcome.Fail? ==>
              t.outcome.error == CommandFailed(t.issued[|t.issued| - 1], status(t.issued[|t.issued| - 1]))
  {
    if !mounted then Trace([], Fail(NotMounted))
    else
      var path := PathJoin(m.mountpoint, ScratchName(now, m.clientId));
      var create := Touch(path);
      var destroy := RemoveForce(path);
      if status(create) != 0 then Trace([create], Fail(CommandFailed(create, status(create))))
      else if status(destroy) != 0 then Trace([create, destroy], Fail(CommandFailed(destroy, status(destroy))))
      else Trace([create, destroy], Pass)
  }

  /** Two probes at different clock readings never touch the same scratch file. */
  lemma ScratchPathsDistinct(m: CephFSMount, now1: string, now2: string)
    requires now1 != now2
    requires IsRelative(now1) && IsRelative(now2)
    ensures PathJoin(m.mountpoint, ScratchName(now1, m.clientId))
            != PathJoin(m.mountpoint, ScratchName(now2, m.clientId))
  {
    var n1 := ScratchName(now1, m.clientId);
    var n2 := ScratchName(now2, m.clientId);
    assert n1[..|now1|] == now1 && n2[..|now2|] == now2;
    assert |n1| != |n2| || n1 != n2;
    PathJoinInjective(m.mountpoint, n1, n2);
  }

  /** `run_shell`: change into the mountpoint, then run `args`; status-checked. */
  function RunShell(m: CephFSMount, args: seq<string>, status: seq<string> -> int): (t: Trace)
    ensures |t.issued| == 1 && |t.issued[0]| == 3 + |args|
    ensures t.issued[0][..3] == ["cd", m.mountpoint, "&&"] && t.issued[0][3..] == args
    ensures t.outcome.Pass? <==> status(t.issued[0]) == 0
  {
    var argv := ["cd", m.mountpoint, "&&"] + args;
    if status(argv) == 0 then Trace([argv], Pass)
    else Trace([argv], Fail(CommandFailed(argv, status(argv))))
  }

  // ---------------------------------------------------------------------------
  // Background processes
  // ---------------------------------------------------------------------------

  /** A launch's effect: the updated mount, the returned handle, and what it runs. */
  datatype Launched = Launched(mount: CephFSMount, proc: Proc, job: Job)

  /**
   * Start `job` as a background process with stdin piped, whose handle is
   * `handle`: the mount must be mounted; the process is appended to the
   * background list and returned.
   */
  function Launch(m: CephFSMount, mounted: bool, job: Job, handle: nat): (r: Result<Launched, MountError>)
    ensures !mounted ==> r == Err(NotMounted)
    ensures mounted ==> r.Ok? && r.value.proc == Proc(handle, true) && r.value.job == job
    ensures r.Ok? ==> r.value.proc.hasStdin
    ensures r.Ok? ==> |r.value.mount.backgroundProcs| == |m.backgroundProcs| + 1
    ensures r.Ok? ==> r.value.mount.backgroundProcs[..|m.backgroundProcs|] == m.backgroundProcs
    ensures r.Ok? ==> r.value.mount.backgroundProcs[|m.backgroundProcs|] == r.value.proc
    ensures r.Ok? ==> r.value.mount.(backgroundProcs := m.backgroundProcs) == m
  {
    if !mounted then Err(NotMounted)
    else
      var proc := Proc(handle, true);
      Ok(Launched(m.(backgroundProcs := m.backgroundProcs + [proc]), proc, job))
  }

  /** `open_background`: hold `<mountpoint>/<basename>` open for writing. */
  function OpenBackground(m: CephFSMount, mounted: bool, basename: string, handle: nat): (r: Result<Launched, MountError>)
    ensures r.Ok? <==> mounted
    ensures r.Ok? ==> r.value.job == HoldOpen(PathJoin(m.mountpoint, basename))
    ensures r.Ok? ==> r.value.mount.backgroundProcs == m.backgroundProcs + [Proc(handle, true)]
    ensures r.Ok? ==> r.value.proc == Proc(handle, true)
  {
    Launch(m, mounted, HoldOpen(PathJoin(m.mountpoint, basename)), handle)
  }

  /** `write_background`: write `<mountpoint>/<basename>` and close it. */
  function WriteBackground(m: CephFSMount, mounted: bool, basename: string, handle: nat): (r: Result<Launched, MountError>)
    ensures r.Ok? <==> mounted
    ensures r.Ok? ==> r.value.job == WriteOnce(PathJoin(m.mountpoint, basename))
    ensures r.Ok? ==> r.value.mount.backgroundProcs == m.backgroundProcs + [Proc(handle, true)]
    ensures r.Ok? ==> r.value.proc == Proc(handle, true)
  {
    Launch(m, mounted, WriteOnce(PathJoin(m.mountpoint, basename)), handle)
  }

  /** `open_n_background`: hold `count` files under `<mountpoint>/<fsPath>` open. */
  function OpenNBackground(m: CephFSMount, mounted: bool, fsPath: string, count: int, handle: nat): (r: Result<Launched, MountError>)
    ensures r.Ok? <==> mounted
    ensures r.Ok? ==> r.value.job == HoldMany(PathJoin(m.mountpoint, fsPath), count)
    ensures r.Ok? ==> r.value.mount.backgroundProcs == m.backgroundProcs + [Proc(handle, true)]
    ensures r.Ok? ==> r.value.proc == Proc(handle, true)
  {
    Launch(m, mounted, HoldMany(PathJoin(m.mountpoint, fsPath), count), handle)
  }

  /** The files a `HoldMany` process opens: `<base>_0` .. `<base>_<count-1>`. */
  function HeldFiles(basePath: string, count: int): (names: seq<string>)
    ensures |names| == if count <= 0 then 0 else count
    ensures forall i :: 0 <= i < |names| ==> names[i] == basePath + "_" + NatToString(i)
  {
    if count <= 0 then []
    else seq(count, i requires 0 <= i < count => basePath + "_" + NatToString(i))
  }

  /** The files a `HoldMany` process opens are pairwise distinct, so it holds `count` files. */
  lemma HeldFilesDistinct(basePath: string, count: int, i: nat, j: nat)
    requires i < j < |HeldFiles(basePath, count)|
    ensures HeldFiles(basePath, count)[i] != HeldFiles(basePath, count)[j]
  {
    var names := HeldFiles(basePath, count);
    var prefix := basePath + "_";
    if names[i] == names[j] {
      assert names[i] == prefix + NatToString(i);
      assert names[j] == prefix + NatToString(j);
      assert NatToString(i) == names[i][|prefix|..];
      assert NatToString(j) == names[j][|prefix|..];
      NatToStringInjective(i, j);
    }
  }

  /** A sequence of launches on a mounted mount leaves exactly their handles, in order, at the end of the list. */
  function LaunchAll(m: CephFSMount, jobs: seq<(Job, nat)>): (m': CephFSMount)
    ensures m'.backgroundProcs == m.backgroundProcs + seq(|jobs|, i requires 0 <= i < |jobs| => Proc(jobs[i].1, true))
    ensures m'.(backgroundProcs := m.backgroundProcs) == m
    decreases |jobs|
  {
    if |jobs| == 0 then m
    else
      var r := Launch(m, true, jobs[0].0, jobs[0].1);
      var m' := LaunchAll(r.value.mount, jobs[1..]);
      assert seq(|jobs|, i requires 0 <= i < |jobs| => Proc(jobs[i].1, true))
             == [Proc(jobs[0].1, true)] + seq(|jobs[1..]|, i requires 0 <= i < |jobs[1..]| => Proc(jobs[1..][i].1, true));
      m'
  }

  // ---------------------------------------------------------------------------
  // Waiting for a file written elsewhere to become visible
  // ---------------------------------------------------------------------------

  /**
   * `wait_for_visible`: list `<mountpoint>/<basename>` once a second, at most
   * `timeout` times; `probe(i)` is the exit status of the i-th listing. Returns the
   * seconds waited when a listing succeeds, or times out reporting how many
   * listings failed.
   */
  method WaitForVisible(m: CephFSMount, basename: string, timeout: int, probe: nat -> int)
    returns (r: Result<nat, MountError>)
    ensures r.Ok? ==> r.value < timeout && probe(r.value) == 0
    ensures r.Ok? ==> forall j :: 0 <= j < r.value ==> probe(j) != 0
    ensures r.Err? ==> timeout >= 0 ==> r.error == VisibilityTimeout(timeout, basename, m.clientId)
    ensures r.Err? ==> timeout < 0 ==> r.error == VisibilityTimeout(0, basename, m.clientId)
    ensures r.Err? ==> forall j :: 0 <= j < timeout ==> probe(j) != 0
  {
    var i: nat := 0;
    while i < timeout
      invariant timeout >= 0 ==> i <= timeout
      invariant timeout < 0 ==> i == 0
      invariant forall j :: 0 <= j < i ==> probe(j) != 0
      decreases timeout - i
    {
      if probe(i) == 0 {
        return Ok(i);
      }
      i := i + 1;
    }
    return Err(VisibilityTimeout(i, basename, m.clientId));
  }

  // ---------------------------------------------------------------------------
  // Teardown
  // ---------------------------------------------------------------------------

  /** How waiting on a background process can fail. */
  datatype WaitError = CommandFailedError | ConnectionLostError | OtherError(message: string)

  /** A wait result that teardown lets propagate: anything but the two disconnection errors. */
  predicate Fatal(w: Outcome<WaitError>)
  {
    w.Fail? && !w.error.CommandFailedError? && !w.error.ConnectionLostError?
  }

  /** The processes that have a stdin pipe, in order. */
  function WithStdin(procs: seq<Proc>): (r: seq<Proc>)
    ensures forall p :: p in r <==> p in procs && p.hasStdin
    ensures |r| <= |procs|
  {
    if |procs| == 0 then []
    else (if procs[0].hasStdin then [procs[0]] else []) + WithStdin(procs[1..])
  }

  /** Position of the first process with a stdin whose wait fails fatally, or `|procs|`. */
  function FirstFatal(procs: seq<Proc>, waitOf: Proc -> Outcome<WaitError>): (n: nat)
    ensures n <= |procs|
    ensures forall j :: 0 <= j < n && procs[j].hasStdin ==> !Fatal(waitOf(procs[j]))
    ensures n < |procs| ==> procs[n].hasStdin && Fatal(waitOf(procs[n]))
    decreases |procs|
  {
    if |procs| == 0 then 0
    else if procs[0].hasStdin && Fatal(waitOf(procs[0])) then 0
    else 1 + FirstFatal(procs[1..], waitOf)
  }

  /** The processes teardown closed and waited for, and how it ended. */
  datatype TeardownReport = TeardownReport(waited: seq<Proc>, outcome: Outcome<WaitError>)

  /**
   * `teardown`: for each background process that has a stdin, close it and wait;
   * the two disconnection errors are swallowed, any other error propagates and
   * ends the loop. The mount itself is not changed: `backgroundProcs` keeps every
   * entry. `waitOf(p)` is how waiting on `p` ends.
   */
  function Teardown(m: CephFSMount, waitOf: Proc -> Outcome<WaitError>): (t: TeardownReport)
    ensures var n := FirstFatal(m.backgroundProcs, waitOf);
            && (t.outcome.Pass? <==> n == |m.backgroundProcs|)
            && (t.outcome.Pass? ==> t.waited == WithStdin(m.backgroundProcs))
            && (t.outcome.Fail? ==> n < |m.backgroundProcs| && t.outcome == waitOf(m.backgroundProcs[n])
                                    && t.waited == WithStdin(m.backgroundProcs[..n + 1]))
  {
    StopAllSpec(m.backgroundProcs, waitOf);
    StopAll(m.backgroundProcs, waitOf)
  }

  /** The teardown loop over `procs`, in order. */
  function StopAll(procs: seq<Proc>, waitOf: Proc -> Outcome<WaitError>): TeardownReport
    decreases |procs|
  {
    if |procs| == 0 then TeardownReport([], Pass)
    else
      var p := procs[0];
      if p.hasStdin && Fatal(waitOf(p)) then TeardownReport([p], waitOf(p))
      else
        var rest := StopAll(procs[1..], waitOf);
        TeardownReport((if p.hasStdin then [p] else []) + rest.waited, rest.outcome)
  }

  /**
   * The loop passes exactly when no process with a stdin fails fatally, having
   * waited for all of them; otherwise it ends with the first fatal error, having
   * waited for the processes with a stdin up to and including that one.
   */
  lemma {:induction false} StopAllSpec(procs: seq<Proc>, waitOf: Proc -> Outcome<WaitError>)
    ensures var t := StopAll(procs, waitOf);
            var n := FirstFatal(procs, waitOf);
            && (t.outcome.Pass? <==> n == |procs|)
            && (t.outcome.Pass? ==> t.waited == WithStdin(procs))
            && (t.outcome.Fail? ==> n < |procs| && t.outcome == waitOf(procs[n])
                                    && t.waited == WithStdin(procs[..n + 1]))
    decreases |procs|
  {
    if |procs| > 0 {
      var p := procs[0];
      if p.hasStdin && Fatal(waitOf(p)) {
        assert procs[..1] == [p];
      } else {
        StopAllSpec(procs[1..], waitOf);
        var rest := StopAll(procs[1..], waitOf);
        var n := FirstFatal(procs[1..], waitOf);
        var head := if p.hasStdin then [p] else [];
        assert StopAll(procs, waitOf) == TeardownReport(head + rest.waited, rest.outcome);
        assert FirstFatal(procs, waitOf) == n + 1;
        if rest.outcome.Fail? {
          WithStdinPrefix(procs, n + 1);
        } else {
          assert WithStdin(procs) == head + WithStdin(procs[1..]);
        }
      }
    }
  }

  /** The processes with a stdin among the first k + 1: the first one's share, then the rest's. */
  lemma WithStdinPrefix(procs: seq<Proc>, k: nat)
    requires k < |procs|
    ensures WithStdin(procs[..k + 1])
            == (if procs[0].hasStdin then [procs[0]] else []) + WithStdin(procs[1..][..k])
  {
    var pre := procs[..k + 1];
    assert pre[0] == procs[0] && pre[1..] == procs[1..][..k];
  }

  // ---------------------------------------------------------------------------
  // The `mounted()` context manager
  // ---------------------------------------------------------------------------

  datatype Step = MountStep | WaitMountedStep | BodyStep | UmountWaitStep

  /** The steps a use of `mounted()` performed and how it ended. */
  datatype ContextRun<E> = ContextRun(steps: seq<Step>, outcome: Outcome<E>)

  /**
   * `with mount.mounted(): body`: mount, wait until mounted, run the body, and
   * unmount in a `finally`. Each argument is how that step ends. An error from the
   * unmount replaces the body's error, as a raising `finally` clause does.
   */
  function Mounted<E>(mountR: Outcome<E>, waitR: Outcome<E>, bodyR: Outcome<E>, umountR: Outcome<E>): (c: ContextRun<E>)
    ensures |c.steps| >= 1 && c.steps[0] == MountStep
    ensures BodyStep in c.steps <==> mountR.Pass? && waitR.Pass?
    ensures BodyStep in c.steps ==> c.steps[|c.steps| - 1] == UmountWaitStep
    ensures UmountWaitStep in c.steps <==> BodyStep in c.steps
    ensures c.outcome.Pass? <==> mountR.Pass? && waitR.Pass? && bodyR.Pass? && umountR.Pass?
    ensures BodyStep in c.steps && umountR.Fail? ==> c.outcome == umountR
    ensures BodyStep in c.steps && umountR.Pass? ==> c.outcome == bodyR
    ensures mountR.Fail? ==> c.outcome == mountR
  {
    if mountR.Fail? then ContextRun([MountStep], mountR)
    else if waitR.Fail? then ContextRun([MountStep, WaitMountedStep], waitR)
    else ContextRun([MountStep, WaitMountedStep, BodyStep, UmountWaitStep],
                    if umountR.Fail? then umountR else bodyR)
  }
}
