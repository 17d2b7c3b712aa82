# CephFS and objectstore test-harness decision procedures, in Dafny

The ceph-qa-suite tasks drive a live Ceph cluster: they run remote commands,
restart daemons and wait on wall clocks. Inside that orchestration sit small,
deterministic decision procedures. This project models them and proves what
they promise. Remote results are inputs: exit statuses and stdout text become
functions of the command asked for, and observations over time become streams
indexed by poll number.

- **Mount** (`tasks/cephfs/mount.py`) covers `CephFSMount`:
  - the mountpoint and fixture files;
  - the commands `create_files`, `check_files`, `create_destroy` and `run_shell` issue, and how they end;
  - the background-process list each launch extends;
  - `wait_for_visible`'s probe loop;
  - `teardown`'s close-and-wait policy;
  - the `mounted()` context manager.
- **ClientLimits** (`tasks/mds_client_limits.py`) covers:
  - the `wait_until_equal` / `wait_until_true` poll loops, as recursion over an observation stream;
  - `seen_health_warning` and `wait_for_health`;
  - the `set_conf` / `tearDown` configuration tracking;
  - the cap-count bounds of the cache-pinning test.
- **ClientSelection** covers the two-client pick that both MDS client tasks make.
- **ClientRecovery** (`tasks/mds_client_recovery.py`) covers:
  - the `LogStream` line buffer;
  - the recovery suite's configuration checks;
  - the elapsed-time acceptance predicates of the timing tests.
- **ObjectstoreData**, **ObjectstoreTool** and **ObjectstorePhases** (`tasks/ceph_objectstore_tool.py`) cover:
  - object names and data files;
  - the expected record `db` that `cod_setup` builds, and the failed call that ends it;
  - `get_lines` and `get_pool_id`;
  - PG selection and grouping by acting OSD;
  - `osd.` role parsing;
  - the `--op list` parsing;
  - the list-attrs, info, log, export, remove, import and verify phases;
  - the final error total.
- **Text** gives the Python string operations these tests rely on:
  - `split`, `split()`, `find` and `in`;
  - `strip`, `str(n)` and `int(s)`;
  - `os.path.join`.
- **Results** gives `Option`, `Result` and the pass/fail `Outcome`.

Python's `assert(self.is_mounted())` becomes a `mounted` flag. When the flag is false, the operation fails with `NotMounted` and issues nothing. An exception that ends a run is an `Err`; an error the run only counts is a number.

## Model

| member | source | states |
|---|---|---|
| Mount.NewMount | tasks/cephfs/mount.py:21-28 | The mountpoint is `os.path.join(test_dir, 'mnt.<client id>')`: `<test_dir>/mnt.<id>` when the directory is non-empty and does not end in `/`, and `<test_dir>mnt.<id>` otherwise. The fixture files are exactly `a`, `b`, `c` in that order. No background process is recorded yet. |
| Mount.MountpointsDistinct | tasks/cephfs/mount.py:25 | Two different client ids under one test directory get different mountpoints. |
| Mount.FirstFailure | tasks/cephfs/mount.py:70-85 | Gives the index of the first command with a nonzero status: every command before it succeeded and that one failed. If none failed, gives the command count. |
| Mount.CreateFiles | tasks/cephfs/mount.py:67-74 | An unmounted client issues nothing and fails. Otherwise the fixtures are touched in order up to and including the first failing touch, which ends the call. It passes exactly when every touch succeeds. |
| Mount.CheckFiles | tasks/cephfs/mount.py:76-85 | An unmounted client issues nothing. Otherwise the fixtures are probed in order and the first missing one is reported as not found. Later files are not probed. It passes exactly when every probe succeeds. |
| Mount.CreateDestroy | tasks/cephfs/mount.py:87-98 | Touches the file named by the clock reading and the client id, then removes that same path, running the two commands until one fails. A failed touch raises `CommandFailed` for the touch, and `rm -f` is never issued. A failed removal raises `CommandFailed` for the removal. It passes only if both commands succeed. |
| Mount.ScratchPathsDistinct | tasks/cephfs/mount.py:90-93 | Two different clock readings give two different scratch paths. |
| Mount.RunShell | tasks/cephfs/mount.py:105-107 | Issues one command: `cd <mountpoint> &&` followed by the given arguments. It passes exactly when that command's status is zero. |
| Mount.Launch | tasks/cephfs/mount.py:100-131 | An unmounted client fails with nothing appended. Otherwise exactly one process, with its stdin piped, is appended at the end and returned. Earlier entries and every other field are unchanged. |
| Mount.OpenBackground | tasks/cephfs/mount.py:109-131 | Launches a process that holds `<mountpoint>/<basename>` open. The process list grows by that one process. |
| Mount.WriteBackground | tasks/cephfs/mount.py:150-170 | Launches a process that writes `<mountpoint>/<basename>` once. The process list grows by that one process. |
| Mount.OpenNBackground | tasks/cephfs/mount.py:172-205 | Launches a process that holds `count` files under `<mountpoint>/<path>` open. The process list grows by that one process. |
| Mount.HeldFiles | tasks/cephfs/mount.py:195-197 | The files such a process opens are `<path>_0` to `<path>_<count-1>`, and none when count is not positive. |
| Mount.HeldFilesDistinct | tasks/cephfs/mount.py:195-197 | Those file names are pairwise distinct. |
| Mount.LaunchAll | tasks/cephfs/mount.py:129-205 | After a run of launches the list is the old list followed by the new processes, each with a stdin, in launch order. Nothing else about the mount changes. |
| Mount.WaitForVisible | tasks/cephfs/mount.py:133-148 | Returns at the first zero-status probe, with every earlier probe nonzero, having made at most `timeout` probes. Otherwise it fails after `timeout` failed probes and reports that count, or reports 0 when the timeout is not positive. |
| Mount.WithStdin | tasks/cephfs/mount.py:208-211 | Keeps exactly the processes that have a stdin pipe. |
| Mount.FirstFatal | tasks/cephfs/mount.py:212-215 | Gives the first process with a stdin whose wait raises something other than the two disconnection errors. |
| Mount.Teardown | tasks/cephfs/mount.py:207-215 | Teardown waits only for processes with a stdin and swallows `CommandFailedError` and `ConnectionLostError`. It passes having waited for all of them, unless some other error occurs. The first such error ends it, after waiting for exactly the stdin processes up to that one. The process list is not emptied. |
| Mount.StopAllSpec | tasks/cephfs/mount.py:208-215 | The same statement for the loop over any list of processes. |
| Mount.WithStdinPrefix | tasks/cephfs/mount.py:208-211 | The stdin processes among the first k + 1 are the first process's share followed by those among the next k. |
| Mount.Mounted | tasks/cephfs/mount.py:55-65 | The body runs only after mount and wait succeed, and then unmount always follows the body. An unmount failure takes precedence, otherwise the body's outcome is the result. A mount failure ends it at once. |
| ClientLimits.MaxPolls | tasks/mds_client_limits.py:32-48 | Without a match, the loop makes ceil(timeout/5)+1 polls, or one when timeout <= 0. The last poll is the first whose elapsed count reaches the timeout. |
| ClientLimits.WaitEqualFromOutcome | tasks/mds_client_limits.py:34-48 | From any poll inside the budget, the loop stops at the first observation that matches or is rejected. Otherwise it times out at the last budgeted poll. |
| ClientLimits.WaitUntilEqualOutcome | tasks/mds_client_limits.py:31-48 | `wait_until_equal` decides at the first matching or rejected observation within the budget. A match returns even when the value would also be rejected. A rejection raises whatever time remains. Otherwise the timeout is raised with an elapsed count that is a multiple of 5 and at least the timeout. |
| ClientLimits.FirstStop | tasks/mds_client_limits.py:36-39 | Gives the first of n observations that ends the loop, or n. |
| ClientLimits.WaitUntilEqualClosedForm | tasks/mds_client_limits.py:31-48 | The loop's outcome in closed form, computed from the first stopping observation in the budget. |
| ClientLimits.WaitUntilEqualSucceedsOnlyOnMatch | tasks/mds_client_limits.py:35-37 | A normal return means some budgeted observation equalled the expected value. |
| ClientLimits.WaitUntilEqualTimesOut | tasks/mds_client_limits.py:41-44 | With neither a match nor a rejection in the budget, the loop times out at the last budgeted poll, after at least `timeout` seconds. |
| ClientLimits.WaitEqualFromReadsBudget | tasks/mds_client_limits.py:34-48 | The loop from poll k reads no observation past the budget. |
| ClientLimits.WaitUntilEqualReadsBudget | tasks/mds_client_limits.py:31-48 | Two streams that agree on the budgeted polls give the same outcome. |
| ClientLimits.WaitTrueFromOutcome | tasks/mds_client_limits.py:55-65 | From any call inside the budget, `wait_until_true` stops at the first call that is true or raises. Otherwise it expires at the last budgeted call. |
| ClientLimits.WaitEqualRaisingFromOutcome | tasks/mds_client_limits.py:34-48 | From any poll inside the budget, the loop stops at the first poll that raises, matches or is rejected. An exception from `get_fn()` or from `reject_fn(val)` propagates as raised. Otherwise the outcome is a match, a rejection or the timeout, as for the loop without exceptions. |
| ClientLimits.WaitUntilEqualRaisingOutcome | tasks/mds_client_limits.py:31-48 | `wait_until_equal` with raising calls ends at the first budgeted poll that raises, matches or is rejected. An exception from the polled or the reject function propagates unchanged. |
| ClientLimits.WaitEqualRaisingOfTotal | tasks/mds_client_limits.py:31-48 | When neither the polled nor the reject function raises, the raising loop decides exactly as `WaitEqualFrom`. So the lemmas about the exception-free loop describe `wait_until_equal` in that case. |
| ClientLimits.WaitUntilTrueOutcome | tasks/mds_client_limits.py:53-65 | `wait_until_true` has the same budget as `wait_until_equal` and no reject path. An exception from the condition propagates unchanged. |
| ClientLimits.WaitEqualIsWaitTrue | tasks/mds_client_limits.py:31-65 | Waiting for equality without a reject predicate behaves like waiting for the equality test to hold: same stopping poll, same elapsed count. |
| ClientLimits.SeenHealthWarning | tasks/mds_client_limits.py:112-121 | No summaries gives false. Exactly one summary containing the pattern gives true. Anything else raises with the summaries. |
| ClientLimits.WaitForHealthOutcome | tasks/mds_client_limits.py:108-123 | The health wait succeeds at the first poll showing a single matching summary, provided every earlier poll showed none. Any other non-empty report raises at once. |
| ClientLimits.ApplyWrite | tasks/mds_client_limits.py:83-85 | Both `set_conf` and a direct `set_ceph_conf` write the option. Only `set_conf` records it. |
| ClientLimits.TearDownConf | tasks/mds_client_limits.py:105-106 | Teardown removes exactly the recorded options and leaves every other value unchanged. |
| ClientLimits.ApplyWritesTracks | tasks/mds_client_limits.py:81-85 | After a run of writes, the recorded set holds the options written through `set_conf`. An option is present when it was present before or written by either route. |
| ClientLimits.TearDown | tasks/mds_client_limits.py:100-106 | If clearing the firewall or either mount's teardown raises, the method ends there and every option stays as it was. Otherwise exactly the recorded options are cleared. |
| ClientLimits.TearDownRaises | tasks/mds_client_limits.py:100-106 | The options are cleared exactly when the firewall clears and neither mount meets an error other than the two disconnection errors. The first such error, from `mount_a` before `mount_b`, is the one raised. |
| ClientLimits.TeardownClearsRecorded | tasks/mds_client_limits.py:83-106 | Starting from no recorded options, an option is set after `tearDown` exactly when it was present or written, and either a teardown step raised or it was never written through `set_conf`. So the direct cache-size write always outlives the test. |
| ClientLimits.PinnedCapsBounds | tasks/mds_client_limits.py:135-153 | The expected cap count is `open_files + 2` with a subdir and `+ 1` without. The reject bound is `> open_files + 2` in both cases. Without a subdir, `open_files + 2` is neither expected nor rejected. |
| ClientLimits.PinnedRootStuckTimesOut | tasks/mds_client_limits.py:150-153 | A client stuck at `open_files + 2` in root mode makes the first wait time out after 600 seconds. |
| ClientLimits.RecalledCapsWaitDecides | tasks/mds_client_limits.py:172-176 | After the files close, the second wait polls while the count stays above `int(cache_size * 0.8)` = 160. The first count at or below 160 decides: exactly 160 returns, and anything lower raises at once. |
| ClientSelection.SelectClients | tasks/mds_client_limits.py:231-240 | Fewer than two mounts is refused. If either of the first two mounts is a kernel mount and they share a host, that is refused too. Otherwise the first two mounts are chosen, in the order `ctx.mounts.values()` yields them, which is the dict's hash order. |
| ClientSelection.SelectionHostRule | tasks/mds_client_recovery.py:356-365 | Two FUSE mounts may share a host, a kernel mount may not, and mounts past the second play no part. |
| ClientRecovery.NewLogStream | tasks/mds_client_recovery.py:306-307 | A new stream has an empty buffer and has logged nothing. |
| ClientRecovery.Write | tasks/mds_client_recovery.py:309-315 | After a write the buffer holds no newline and earlier log lines stay. A write that completes no line only appends to the buffer. |
| ClientRecovery.WriteConserves | tasks/mds_client_recovery.py:305-315 | The logged lines, each followed by a newline, then the buffer, are what the stream had before plus the data written. Well-formedness is kept. |
| ClientRecovery.Flush | tasks/mds_client_recovery.py:317-318 | `flush` changes nothing. |
| ClientRecovery.WriteAllConserves | tasks/mds_client_recovery.py:309-315 | A run of writes conserves all text, keeps every logged line newline-free, and only adds to the log. |
| ClientRecovery.StreamOfReceived | tasks/mds_client_recovery.py:311-315 | A well-formed stream is determined by what it received: the logged lines are all newline-separated pieces but the last, and the buffer is the last piece. |
| ClientRecovery.ReceivedDetermines | tasks/mds_client_recovery.py:305-315 | Two well-formed streams that received the same text are equal. |
| ClientRecovery.ChunkingIrrelevant | tasks/mds_client_recovery.py:309-315 | Writing chunks one by one logs what a single write of their concatenation logs. |
| ClientRecovery.ValidateRecoveryTask | tasks/mds_client_recovery.py:356-370 | Accepts exactly when there are at least two mounts, they are separable, and the first one's host runs no MDS. The MDS-host error is raised only after the two-client pick succeeded. |
| ClientRecovery.SecondClientMayShareMdsHost | tasks/mds_client_recovery.py:369-370 | Only the first client is held to the MDS-host rule. |
| ClientRecovery.HalfFloor | tasks/mds_client_recovery.py:116 | Python 2's `R / 2` on an int is floor division. |
| ClientRecovery.ReconnectBoundIsFloorHalf | tasks/mds_client_recovery.py:116-154 | The reconnect-timeout bound is exactly R/2 for even R and half a second lower for odd R. |
| ClientRecovery.ReconnectChecksOverlap | tasks/mds_client_recovery.py:116-154 | One elapsed time passes both reconnect checks exactly when it lies strictly between floor(R/2) and R/2. |
| ClientRecovery.EvenReconnectChecksExclusive | tasks/mds_client_recovery.py:116-154 | For even R no elapsed time passes both reconnect checks. |
| ClientRecovery.OddReconnectChecksOverlap | tasks/mds_client_recovery.py:116-154 | For odd R the thresholds differ, and floor(R/2) + 0.25 passes both. |
| ClientRecovery.StaleAndEvictedExclusive | tasks/mds_client_recovery.py:190-241 | No handover time passes both the stale-caps check (S/2 <= w <= 2S) and the evicted-caps check (w < S/2). |
| ClientRecovery.ReconnectTimeoutOk | tasks/mds_client_recovery.py:113-119 | The time in reconnect must exceed R/2 for even R, and R/2 - 0.5 for odd R, because `R / 2` is integer division. |
| ClientRecovery.ReconnectEvictionOk | tasks/mds_client_recovery.py:151-156 | After an eviction, reconnect must end in under half of R. With R <= 0 no elapsed time passes. |
| ClientRecovery.StaleCapsOk | tasks/mds_client_recovery.py:190-193 | For a positive session timeout S, the handover must take between S/2 and 2S. With S = 0 only an instant handover passes, and with S < 0 none does. |
| ClientRecovery.EvictedCapsOk | tasks/mds_client_recovery.py:241-244 | After an eviction, the handover must take under S/2. With S <= 0 no elapsed time passes. |
| ClientRecovery.NetworkDeathOk | tasks/mds_client_recovery.py:296-301 | I/O must resume in under twice the maximum backoff. A non-positive backoff fails every recovery. |
| ClientRecovery.NetworkDeathMonotone | tasks/mds_client_recovery.py:296-301 | A faster recovery, or the same recovery against a larger backoff, passes whenever the original passed. |
| ClientRecovery.NetworkDeathPauseIsStale | tasks/mds_client_recovery.py:288 | The pause of 1.5 S in the network-death test is longer than the session timeout, and it lies inside the handover window the stale-caps test accepts. |
| ObjectstoreData.ObjectNameShape | tasks/ceph_objectstore_tool.py:38 | Object i is named `REPobject` followed by the decimal i, with no whitespace. |
| ObjectstoreData.ObjectNamesDistinct | tasks/ceph_objectstore_tool.py:72-74 | Different indices give different object names. |
| ObjectstoreData.RemoteData | tasks/ceph_objectstore_tool.py:58-63 | The remote construction, appending one line per iteration, builds the same text as the local file. |
| ObjectstoreData.LineTextOfObject | tasks/ceph_objectstore_tool.py:43 | The data line of an object holds no newline. |
| ObjectstoreData.ObjectDataLines | tasks/ceph_objectstore_tool.py:41-45 | Split on newlines, a data file is exactly `count` copies of its line, then one empty piece. |
| ObjectstoreData.TaggedDistinct | tasks/ceph_objectstore_tool.py:91-114 | `key{i}-{k}` names differ for different k. |
| ObjectstoreData.Entries | tasks/ceph_objectstore_tool.py:88-98 | The entry map holds `<kp>{i}-{k} -> <vp>{i}-{k}` for every 1 <= k < m. |
| ObjectstoreData.EntriesFresh | tasks/ceph_objectstore_tool.py:88-98 | No key with index k >= m is in it. |
| ObjectstoreData.EntriesSize | tasks/ceph_objectstore_tool.py:86-98 | It has m - 1 entries, or none when m is 0. |
| ObjectstoreData.EntriesKeys | tasks/ceph_objectstore_tool.py:88-98 | Every key in it has an index 1 <= k < m. |
| ObjectstoreData.ExpectedRecordShape | tasks/ceph_objectstore_tool.py:84-120 | Object i expects i - 1 xattrs `key{i}-{k} -> val{i}-{k}` and an omap header `hdr{i}` exactly when i != 1. It also expects i - 1 omap values `okey{i}-{k} -> oval{i}-{k}`, and records no placement yet. |
| ObjectstoreData.FirstObjectBare | tasks/ceph_objectstore_tool.py:86-101 | Object 1 expects no xattrs, no omap header and no omap values. |
| ObjectstoreData.FirstFailedAt | tasks/ceph_objectstore_tool.py:88-120 | Gives the position of the first failed call among an object's attribute and omap calls, with every earlier call succeeding, or the list length when none fails. |
| ObjectstoreData.ObjectCallsRank | tasks/ceph_objectstore_tool.py:86-120 | An object's attribute and omap calls come in the order `setxattr` for k = 1.., then `setomapheader` unless it is object 1, then `setomapval` for k = 1... Each issued call sits at the position its rank gives. |
| ObjectstoreData.CodSetupCompletes | tasks/ceph_objectstore_tool.py:67-123 | Setup finishes exactly when every call it makes succeeds: each `put`, `setxattr`, `setomapheader` and `setomapval`. Otherwise it ends at a failed call that is issued, and every call made before that one succeeded. |
| ObjectstoreData.CodSetupRecords | tasks/ceph_objectstore_tool.py:84-120 | A finished setup records exactly objects 1..n, each with its expected record. |
| ObjectstoreData.StoreNext | tasks/ceph_objectstore_tool.py:84-85 | Storing object n's record after objects 1 to n - 1 gives the records of objects 1 to n. |
| ObjectstoreData.FirstFailedAtFrame | tasks/ceph_objectstore_tool.py:88-120 | The first failed call depends only on the statuses of the calls in the list. |
| ObjectstoreData.CodSetupFrame | tasks/ceph_objectstore_tool.py:67-123 | The setup reads the status of no call it does not make. |
| ObjectstoreData.ObjectCrashFrame | tasks/ceph_objectstore_tool.py:72-120 | Creating object i reads the statuses of object i's calls and of nothing else. |
| ObjectstoreData.TakeWhileNonEmpty | tasks/ceph_objectstore_tool.py:130-133 | The lines read stop at the first empty one. |
| ObjectstoreData.GetLines | tasks/ceph_objectstore_tool.py:126-136 | `get_lines` returns the newline-separated lines of the file up to the first empty one, all non-empty. |
| ObjectstoreData.GetLinesOfTerminated | tasks/ceph_objectstore_tool.py:126-136 | On newline-terminated non-empty lines it returns exactly those lines. |
| ObjectstoreData.GetLinesOfObjectData | tasks/ceph_objectstore_tool.py:126-136 | On an object's data file it returns the line `count` times. |
| ObjectstoreData.GetPoolId | tasks/ceph_objectstore_tool.py:30-31 | Succeeds exactly when the output has at least four words, and returns a non-empty word. |
| ObjectstoreData.GetPoolIdOfStats | tasks/ceph_objectstore_tool.py:30-31 | On output that begins `pool <name> id <n>`, the pool id is n. |
| ObjectstoreTool.SelectPgs | tasks/ceph_objectstore_tool.py:230 | A pgid is selected exactly when it is in the dump and starts with `<pool id>.`. |
| ObjectstoreTool.AddToActingLookup | tasks/ceph_objectstore_tool.py:233-236 | The inner loop appends the pgid once per time the OSD appears in the acting set, and creates the OSD's list when needed. |
| ObjectstoreTool.GroupFromLookup | tasks/ceph_objectstore_tool.py:231-236 | The outer loop extends each OSD's list with its selected PGs, in dump order. |
| ObjectstoreTool.GroupFromKeys | tasks/ceph_objectstore_tool.py:231-236 | An OSD gets a list exactly when some selected PG acts on it. |
| ObjectstoreTool.GroupByOsdSpec | tasks/ceph_objectstore_tool.py:227-236 | `pgs[osd]` is every selected PG whose acting set names the OSD, in dump order. OSDs serving no selected PG have no entry. |
| ObjectstoreTool.ParseRole | tasks/ceph_objectstore_tool.py:256-258 | A role not starting with `osd.` is skipped. Otherwise the id is `int` of the second dot-separated piece, or that `int` fails. |
| ObjectstoreTool.ParseRoleOfOsd | tasks/ceph_objectstore_tool.py:256-258 | `osd.<n>` names OSD n. |
| ObjectstoreTool.Visits | tasks/ceph_objectstore_tool.py:252-260 | The walk over roles and PGs fails exactly when some role is an OSD with a bad id or with no PG list. Every visit pairs an OSD with one of its PGs. |
| ObjectstoreTool.VisitsAppend | tasks/ceph_objectstore_tool.py:252-260 | The walk over `a + b` is the walk over `a` followed by the walk over `b`, in that order, and ends at the first unusable role. |
| ObjectstoreTool.VisitsOfOsdRole | tasks/ceph_objectstore_tool.py:256-260 | A single `osd.<n>` role visits OSD n's PGs in list order, or fails when n has no PG list. |
| ObjectstoreTool.VisitsOfOtherRole | tasks/ceph_objectstore_tool.py:256-257 | A role that is not an OSD visits nothing. |
| ObjectstoreTool.VisitsComplete | tasks/ceph_objectstore_tool.py:252-260 | A walk that gets through visits (osd, pg) exactly when some role names that OSD and the PG is on its list. |
| ObjectstoreTool.CountFailing | tasks/ceph_objectstore_tool.py:264-266 | The count is exactly the number of visits whose command exits nonzero. |
| ObjectstoreTool.CountFailingZero | tasks/ceph_objectstore_tool.py:264-266 | No error is counted exactly when every call succeeds. |
| ObjectstoreTool.NonBlank | tasks/ceph_objectstore_tool.py:272-279 | A line is kept exactly when it occurs and is not blank. A listing of blank lines keeps nothing. |
| ObjectstoreTool.NonBlankAppend | tasks/ceph_objectstore_tool.py:272-279 | Filtering `a + b` is filtering `a`, then `b`, so the kept lines keep their order. |
| ObjectstoreTool.NonBlankSnoc | tasks/ceph_objectstore_tool.py:274-279 | A final line is kept, after the others, exactly when it is not blank. |
| ObjectstoreTool.NonBlankCounts | tasks/ceph_objectstore_tool.py:272-279 | A non-blank line is kept as often as it occurs, and a blank one never is. |
| ObjectstoreTool.Reverse | tasks/ceph_objectstore_tool.py:275-282 | Lines taken from the end come out back to front. |
| ObjectstoreTool.ConsumeListing | tasks/ceph_objectstore_tool.py:275-284 | Reads one name per non-blank line and keeps the record's set of objects. |
| ObjectstoreTool.ReverseSnoc | tasks/ceph_objectstore_tool.py:280-282 | Popping the last line puts its name first. |
| ObjectstoreTool.ConsumeListingNames | tasks/ceph_objectstore_tool.py:272-284 | `objsinpg[pg]` is the names of the non-blank lines, last line first. |
| ObjectstoreTool.ConsumeListingRecords | tasks/ceph_objectstore_tool.py:281-284 | Every named object gets this PG and, as its `json`, a line of the listing whose `oid` is its name. It keeps its expected attributes. Objects not named are untouched. |
| ObjectstoreTool.ConsumeListingErrors | tasks/ceph_objectstore_tool.py:280-283 | Parsing fails only on a non-blank line without an object name, or on a name the record lacks. |
| ObjectstoreTool.ConsumeBlank | tasks/ceph_objectstore_tool.py:275-279 | A listing of blank lines names nothing and changes nothing. |
| ObjectstoreTool.ListVisit | tasks/ceph_objectstore_tool.py:261-284 | A failed `--op list` counts one error. Empty output changes nothing. Any other output marks the PG as holding objects and replaces its object list. |
| ObjectstoreTool.SplitNewlines | tasks/ceph_objectstore_tool.py:272 | n newlines split into n + 1 empty lines. |
| ObjectstoreTool.BlankLinesMarkPg | tasks/ceph_objectstore_tool.py:269-279 | Non-empty output whose lines are all blank still marks the PG, with an empty object list. |
| ObjectstoreTool.BlankListingMarksPg | tasks/ceph_objectstore_tool.py:269-279 | Output made only of newlines marks the PG, with an empty object list. |
| ObjectstoreTool.ListPhase | tasks/ceph_objectstore_tool.py:260-284 | The listing calls add one error per failed call, keep the record's objects, and only add marked PGs. |
| ObjectstoreTool.ListPhaseAppend | tasks/ceph_objectstore_tool.py:252-284 | Listing `a + b` is listing `a`, then `b`. |
| ObjectstoreTool.ListPhaseMarks | tasks/ceph_objectstore_tool.py:264-271 | A PG is in `pgswithobjects` exactly when some call for it succeeded with non-empty output. |
| ObjectstoreTool.ListWalk | tasks/ceph_objectstore_tool.py:252-284 | The listing walk over roles keeps the record's objects and never lowers the error count. |
| ObjectstoreTool.ListWalkIsListPhase | tasks/ceph_objectstore_tool.py:252-284 | A walk that gets through every role runs the listing over the same visits as every later phase. |
| ObjectstorePhases.CheckAttrs | tasks/ceph_objectstore_tool.py:384-411 | Counts at most one error per listed key. |
| ObjectstorePhases.CheckAttrsSnoc | tasks/ceph_objectstore_tool.py:387-408 | One more listed key adds exactly one error when it is neither `_` nor `snapset` and either its stripped name is not among the expected attributes still left, or reading it back does not give status 0 and the expected value. Otherwise it adds none. |
| ObjectstorePhases.CheckAttrsAppend | tasks/ceph_objectstore_tool.py:387-411 | Checking keys `a + b` counts the errors of `a`, then those of `b` against the attributes `a` left over. |
| ObjectstorePhases.NamedHas | tasks/ceph_objectstore_tool.py:387-390 | Every non-skipped key's stripped name is among the names the listing gives. |
| ObjectstorePhases.CheckAttrsRemaining | tasks/ceph_objectstore_tool.py:387-411 | The leftover expected attributes are exactly those the listing did not name. They are only logged. |
| ObjectstorePhases.CheckAttrsClean | tasks/ceph_objectstore_tool.py:387-408 | No list-attrs error exactly when every non-skipped key is expected, is read back with status 0 and the expected value, and was not already matched by an earlier key. |
| ObjectstorePhases.CleanSkip | tasks/ceph_objectstore_tool.py:388-389 | A skipped key (`_` or `snapset`) does not affect cleanliness. |
| ObjectstorePhases.CleanTake | tasks/ceph_objectstore_tool.py:391-408 | A clean listing matches its first key and stays clean on the rest, with that key removed. |
| ObjectstorePhases.ListingNames | tasks/ceph_objectstore_tool.py:388-390 | Stripping underscores from such a listing gives the names back. |
| ObjectstorePhases.DistinctListingClean | tasks/ceph_objectstore_tool.py:387-408 | A listing of distinct expected names, each read back correctly, is clean. |
| ObjectstorePhases.FullListingNamesAll | tasks/ceph_objectstore_tool.py:409-411 | A listing of every expected name leaves nothing over. |
| ObjectstorePhases.ExpectedListingPasses | tasks/ceph_objectstore_tool.py:384-411 | An OSD that lists exactly the expected attributes and reads each back correctly gives no error and leaves nothing over. |
| ObjectstorePhases.AttrTargets | tasks/ceph_objectstore_tool.py:367-374 | The OSDs visited for an object. The walk fails exactly when some role is an unusable OSD role. |
| ObjectstorePhases.AttrTargetsAgree | tasks/ceph_objectstore_tool.py:367-374 | An OSD is visited for an object in PG `pg` exactly when the per-PG walk visits `(osd, pg)`. |
| ObjectstorePhases.AttrsOnOneOsd | tasks/ceph_objectstore_tool.py:375-411 | On one OSD, a failed list-attrs adds exactly one error and skips the key check. A successful one adds exactly what checking its keys counts. |
| ObjectstorePhases.AttrsOnOsdsAppend | tasks/ceph_objectstore_tool.py:375-411 | The count over OSDs `a + b` is the count over `a` plus the count over `b`, so the object's count is the sum of the per-OSD counts. |
| ObjectstorePhases.AttrsOnOsdsZero | tasks/ceph_objectstore_tool.py:375-408 | One object gives no list-attrs error exactly when every visited OSD lists its attributes and each listing checks clean. |
| ObjectstorePhases.AttrPhase | tasks/ceph_objectstore_tool.py:361-374 | Every object visited was found by some listing. |
| ObjectstorePhases.AttrPhaseErrors | tasks/ceph_objectstore_tool.py:361-374 | The phase raises only for an object in the walk that no listing found, or for an unusable OSD role. |
| ObjectstorePhases.AttrPhaseZero | tasks/ceph_objectstore_tool.py:361-411 | No list-attrs error exactly when, for every object, every OSD serving its PG lists the attributes successfully and the listing checks clean. |
| ObjectstorePhases.AttrPhaseAppend | tasks/ceph_objectstore_tool.py:361-411 | The phase over objects `a + b` adds the counts of `a` and of `b`, ending at the first exception. |
| ObjectstorePhases.InfoPhase | tasks/ceph_objectstore_tool.py:413-431 | A failed `--op info` ends the run at the first failure, because its log call raises. Otherwise the phase counts at most one error per visit. |
| ObjectstorePhases.InfoPhaseCount | tasks/ceph_objectstore_tool.py:413-431 | When no call fails, the count is exactly the number of visits whose info output does not mention the PG. |
| ObjectstorePhases.InfoPhaseZero | tasks/ceph_objectstore_tool.py:428-431 | No info error exactly when every output mentions its PG. |
| ObjectstorePhases.LogPhase | tasks/ceph_objectstore_tool.py:433-454 | Counts exactly the visits whose log call fails, or whose log has a `modify` entry disagreeing with whether a listing found objects in the PG. |
| ObjectstorePhases.LogPhaseCount | tasks/ceph_objectstore_tool.py:433-454 | The same count, as the number of positions of such visits. |
| ObjectstorePhases.LogPhaseZero | tasks/ceph_objectstore_tool.py:444-454 | No log error exactly when every call succeeds and the log has a `modify` entry just for the PGs with objects. |
| ObjectstorePhases.ExportRemoveImport | tasks/ceph_objectstore_tool.py:456-516 | The export count is exactly the number of visits whose export fails, and the removal count is the number whose removal fails. Import runs exactly when both counts are zero. A skipped import counts nothing; otherwise the import count is exactly the number of visits whose import fails. |
| ObjectstorePhases.VerifyFrom | tasks/ceph_objectstore_tool.py:528-546 | A failed `rados get` ends the run at the first failure, because its log call raises. Otherwise the count is zero exactly when every comparison succeeds. |
| ObjectstorePhases.VerifyFromCount | tasks/ceph_objectstore_tool.py:528-546 | Without a failed read, the count is exactly the number of objects whose comparison fails. |
| ObjectstorePhases.VerifyPhase | tasks/ceph_objectstore_tool.py:527-546 | The same for objects 1 to N. |
| ObjectstorePhases.VerifyPhaseCount | tasks/ceph_objectstore_tool.py:527-546 | Without a failed read, the count is exactly the number of objects 1 to N whose comparison fails. |
| ObjectstorePhases.PgPhases | tasks/ceph_objectstore_tool.py:413-546 | The phases after list-attrs raise only through a failed info call or a failed read-back. |
| ObjectstorePhases.PgPhasesZero | tasks/ceph_objectstore_tool.py:413-546 | The phases over the visits count no error exactly when every info names its PG, every log agrees with `pgswithobjects`, every export, removal and import succeeds, and every object reads back and compares equal. |
| ObjectstorePhases.RunPhasesVerifyGated | tasks/ceph_objectstore_tool.py:518-546 | When any export, removal or import failed, the verification does not run: what `rados get` and `diff` would report changes nothing. |
| ObjectstorePhases.RunPhasesVerifyAdds | tasks/ceph_objectstore_tool.py:516-546 | After a clean export, removal and import, the run ends as the same run with every read and comparison succeeding would. It then adds the verification's errors, or ends at its failed read. |
| ObjectstorePhases.CombineZero | tasks/ceph_objectstore_tool.py:360-551 | Once the listing is done, the run reaches no error exactly when the listing counted none, list-attrs returned zero, the walk got through, and the later phases counted none. |
| ObjectstorePhases.CombineVerifyGated | tasks/ceph_objectstore_tool.py:518-546 | After the listing, a failed export, removal or import means the `rados get` and `diff` results change nothing. |
| ObjectstorePhases.CombineVerifyAdds | tasks/ceph_objectstore_tool.py:516-546 | After the listing, a clean export, removal and import adds the verification's count to the run, or ends it at the verification's exception. |
| ObjectstorePhases.RunPassListing | tasks/ceph_objectstore_tool.py:252-284 | A listing walk that gets through counts no error exactly when every listing call succeeds, and `pgswithobjects` is exactly the PGs some successful listing found output for. |
| ObjectstorePhases.VisitsCleanSplit | tasks/ceph_objectstore_tool.py:260-516 | Every visit is clean exactly when every listing succeeds, every info and log check passes, and every export, removal and import succeeds. |
| ObjectstorePhases.AfterListingZero | tasks/ceph_objectstore_tool.py:360-551 | After the listing, the run counts no error exactly when the listing counted none, list-attrs counted none, and the later phases counted none. |
| ObjectstorePhases.AfterListingIff | tasks/ceph_objectstore_tool.py:360-551 | After a listing walk, the rest of the run ends with no errors exactly when it is clean. |
| ObjectstorePhases.RunPassIff | tasks/ceph_objectstore_tool.py:225-551 | `TEST PASSED` (no errors) holds exactly for a clean run. Every listing call succeeds. Every object checks clean under list-attrs on every OSD serving its PG. Every info call names its PG, and every log call agrees with `pgswithobjects`. Every export, removal and import succeeds, and every object reads back and compares equal. |
| Text.Find | tasks/ceph_objectstore_tool.py:230 | `find` returns the least position of an occurrence, or -1. It returns 0 exactly when the pattern is a prefix. |
| Text.ContainsOfOccurrence | tasks/mds_client_limits.py:118 | An occurrence of the pattern makes `in` hold, and `find` reports that occurrence or an earlier one. |
| Text.ContainsIffOccurs | tasks/ceph_objectstore_tool.py:449 | `pattern in s` holds exactly when the pattern occurs at some position of `s`. |
| Text.Split | tasks/mds_client_recovery.py:312 | `split(sep)` is never empty, no piece holds the separator, and joining the pieces restores the string. |
| Text.SplitJoin | tasks/mds_client_recovery.py:312-315 | Splitting undoes joining pieces that are free of the separator. |
| Text.SplitTerminated | tasks/mds_client_recovery.py:312-315 | Newline-terminated lines followed by a tail split into those lines and the tail. |
| Text.Words | tasks/ceph_objectstore_tool.py:384 | `split()` yields non-empty, whitespace-free words, and none exactly when the text is all whitespace. |
| Text.WordsAfterSpace | tasks/ceph_objectstore_tool.py:384 | Leading whitespace does not change the words. |
| Text.WordsJoin | tasks/ceph_objectstore_tool.py:384 | Splitting non-empty, whitespace-free words joined by single spaces gives back those words, in order. |
| Text.Strip | tasks/ceph_objectstore_tool.py:390 | `strip('_')` leaves no `_` at either end. |
| Text.StripLeftFacts | tasks/ceph_objectstore_tool.py:390 | Stripping from the left keeps a suffix, drops only the character, and leaves a result that does not start with it. |
| Text.StripRightFacts | tasks/ceph_objectstore_tool.py:390 | Stripping from the right keeps a prefix, drops only the character, and leaves a result that does not end with it. |
| Text.StripSlice | tasks/ceph_objectstore_tool.py:390 | What `strip` keeps is a contiguous slice of the key. |
| Text.StripEnds | tasks/ceph_objectstore_tool.py:390 | What `strip` removes is a run of the character at each end. |
| Text.StripWrapped | tasks/ceph_objectstore_tool.py:390-398 | Stripping `_<name>` gives back a name that neither starts nor ends with `_`. |
| Text.NatToStringInjective | tasks/ceph_objectstore_tool.py:38 | Different numbers render differently. |
| Text.ParseIntOfNatToString | tasks/ceph_objectstore_tool.py:258 | `int(str(n)) == n`. |
| Text.PyIntOfNatToString | tasks/ceph_objectstore_tool.py:258 | The same when surrounding whitespace is allowed. |
| Text.PathJoin | tasks/cephfs/mount.py:25 | `os.path.join(a, b)` is `b` when `b` is absolute. For a relative `b` it is `a + b` when `a` is empty or ends in `/`, and `a + '/' + b` otherwise. |
| Text.PathJoinInjective | tasks/cephfs/mount.py:73 | Different relative names under one directory give different paths. |
| Tally.CountWhereAppend | tasks/ceph_objectstore_tool.py:264-266 | Counting over `a + b` is counting over `a`, then over `b`. |
| Tally.CountWherePositions | tasks/ceph_objectstore_tool.py:264-266 | The count is the number of positions whose element satisfies the condition. |
| Tally.CountWhereZero | tasks/ceph_objectstore_tool.py:264-266 | Nothing is counted exactly when no element satisfies the condition. |

Helpers without a row are characterised by the lemmas about them. `RunPhases`, `AfterListing` and `Combine` are covered by the `RunPhases*`, `AfterListing*`, `Combine*` and `RunPassIff` rows above. `CodSetup` is covered by `CodSetupCompletes`, `CodSetupRecords` and `CodSetupFrame`. `WaitUntilEqual`, `WaitUntilEqualRaising`, `WaitUntilTrue` and `WaitForHealth` are covered by their `*Outcome` rows, the `WaitUntilEqual*` lemmas and `WaitEqualRaisingOfTotal`. `GroupByOsd` is covered by `GroupByOsdSpec`. `PyInt` and `ParseInt` are covered by `ParseIntOfNatToString` and `PyIntOfNatToString`. `AttrsOnOsds` is covered by `AttrsOnOneOsd`, `AttrsOnOsdsAppend` and `AttrsOnOsdsZero`.

## Left out

- Remote execution: `remote.run`, `rados`, `ceph_manager`, `teuthology.write_file` and local file I/O. Their exit statuses and stdout are inputs.
- JSON decoding of the PG dump and of the listing lines: the dump arrives as parsed `PgStat` records, and a listing line's `oid` comes from an input function `oidOf`.
- Sleeps, clocks and real durations: elapsed times are `real` inputs, and `create_destroy`'s timestamp is an input string.
- The MDS session and capability state machine: it lives in the daemon and is only observed by these tests.
- `InteractiveFailureResult` (tasks/mds_client_recovery.py:321-340): it hands control to an interactive debugger and has no behaviour to state.
- tasks/kclient.py is not part of this model: it is kernel-mount construction plumbing.
- The `NotImplementedError` stubs of `CephFSMount` (`is_mounted`, `mount`, `umount_wait`, `kill` and the others): their results are inputs.
- Background process scripts: only the job each launch starts and its effect on the process list are modelled, not what the remote Python does.
- Command strings beyond their identity: the objectstore phases are keyed by OSD, PG and object, not by the exact `ceph_objectstore_tool` argv.
- Python dict and set iteration order: `osds.remotes` roles, `db.keys()` and the mounts in `ctx.mounts` (a dict keyed by client id, built at tasks/kclient.py:58-74) arrive as sequences (`roles`, `order`, `mounts`) chosen by the caller. The two-client pick therefore takes the first two mounts in whatever order that dict yields, not the configuration's order.
- The get-bytes / set-bytes phase (tasks/ceph_objectstore_tool.py:290-358): not modelled.
- RunPhases: does not count the get-bytes / set-bytes errors, and does not model that phase's crash on an unlisted object at tasks/ceph_objectstore_tool.py:294. For that reason RunPassIff states nothing about that phase.
- RunPhases: starts its count at zero. `cod_setup` either raises or returns zero (tasks/ceph_objectstore_tool.py:67-123): each branch that would add to its count follows a status-checked call that raises first. So the setup's count is not a parameter.
- The OSD kill and revive loops and the pool creation, waiting and `noout`/`nodown` settings (tasks/ceph_objectstore_tool.py:201-211, 242-244, 519-524): cluster orchestration with no decision in it.
- The logging of `objsinpg` and `pgswithobjects` (tasks/ceph_objectstore_tool.py:286-288). `objsinpg` is only logged. `pgswithobjects` also decides the log check at tasks/ceph_objectstore_tool.py:448, and the model uses it there.
- `int(cache_size * 0.8)` (tasks/mds_client_limits.py:174-176) is taken as the constant 160 rather than computed in floating point. The other float comparisons are on Dafny `real`, which is exact.
- Broken error paths are modelled as crashes ending the run, not as counted errors. These are the undefined `r` at tasks/ceph_objectstore_tool.py:81 and :537, `log.errors` at :537, and the format string without a key at :425.
- The keyword defaults of `open_background`, `wait_for_visible` and `write_background` (tasks/cephfs/mount.py:109, 133, 150) are parameters: `basename="background_file"` and `timeout=30` are what a caller passes when it gives none.
- PinnedRootStuckTimesOut, RecalledCapsWaitDecides: stated for a session lookup that does not raise. `WaitEqualRaisingOfTotal` makes this the exception-free case of `WaitUntilEqualRaising`, whose outcome lemma covers a raising lookup.
- `tearDown`'s `clear_ceph_conf` calls (tasks/mds_client_limits.py:105-106) are taken not to raise. The order in which `configs_set` is iterated does not matter to the result.
