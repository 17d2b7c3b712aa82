/**
 * The deterministic parts of the MDS client-limits suite: the two bounded poll
 * loops (`wait_until_equal`, `wait_until_true`), the health-message predicate
 * they poll, the configuration bookkeeping undone at teardown, and the
 * capability-count bounds of the cache-pinning test.
 *
 * A poll loop's observations are a stream: `observe(k)` is what the k-th call of
 * the polled function returns. Sleeping is not modelled; the loop's elapsed
 * counter is, and it advances by the polling period after each observation.
 */
module ClientLimits {
  import opened Results
  import opened Text
  import Mount

  /** Seconds slept between two polls. */
  const Period: nat := 5

  /** Seconds to wait for a daemon restart. */
  const MdsRestartGrace: nat := 60

  /**
   * How many observations a wait makes when nothing stops it early: the elapsed
   * counter takes the values 0, 5, 10, ... and the loop gives up at the first one
   * that reaches the timeout, so ceil(timeout / 5) + 1 polls (one if timeout <= 0).
   */
  function MaxPolls(timeout: int): (n: nat)
    ensures n >= 1
    ensures Period * (n - 1) >= timeout
    ensures n >= 2 ==> Period * (n - 2) < timeout
  {
    if timeout <= 0 then 1 else (timeout + Period - 1) / Period + 1
  }

  // ---------------------------------------------------------------------------
  // wait_until_equal
  // ---------------------------------------------------------------------------

  /** How `wait_until_equal` ends, with the index of the observation that decided it. */
  datatype EqualOutcome<T> =
    | Reached(at: nat)                                  // returned normally
    | Forbidden(at: nat, value: T)                      // "forbidden value seen"
    | TimedOut(at: nat, elapsed: int, current: T)       // "Timed out after <elapsed> seconds"

  /** `reject_fn and reject_fn(val)`: an absent predicate never rejects. */
  predicate Rejects<T>(reject: Option<T -> bool>, v: T)
  {
    reject.Some? && reject.value(v)
  }

  /** An observation that ends the loop before the timeout is consulted. */
  predicate StopsAt<T(==)>(observe: nat -> T, target: T, reject: Option<T -> bool>, k: nat)
  {
    observe(k) == target || Rejects(reject, observe(k))
  }

  /**
   * `wait_until_equal(get_fn, expect_val, timeout, reject_fn)`: poll until the
   * value equals `target`; a rejected value raises at once; otherwise give up
   * once the elapsed counter has reached the timeout.
   */
  function WaitUntilEqual<T(==)>(observe: nat -> T, target: T, timeout: int,
                                 reject: Option<T -> bool>): EqualOutcome<T>
  {
    WaitEqualFrom(observe, target, timeout, reject, 0)
  }

  /** The loop from its k-th observation on, when the elapsed counter is `Period * k`. */
  function WaitEqualFrom<T(==)>(observe: nat -> T, target: T, timeout: int,
                                reject: Option<T -> bool>, k: nat): EqualOutcome<T>
    decreases timeout - Period * k
  {
    var val := observe(k);
    if val == target then Reached(k)
    else if Rejects(reject, val) then Forbidden(k, val)
    else if Period * k >= timeout then TimedOut(k, Period * k, val)
    else WaitEqualFrom(observe, target, timeout, reject, k + 1)
  }

  /**
   * What the loop from observation k returns, in terms of the stream: the first
   * observation that equals `target` or is rejected decides, equality winning over
   * rejection; failing that, the last budgeted poll times out.
   */
  lemma {:induction false} WaitEqualFromOutcome<T>(observe: nat -> T, target: T, timeout: int,
                                                      reject: Option<T -> bool>, k: nat)
    requires k < MaxPolls(timeout)
    requires forall j :: 0 <= j < k ==> !StopsAt(observe, target, reject, j)
    ensures var r := WaitEqualFrom(observe, target, timeout, reject, k);
      && k <= r.at < MaxPolls(timeout)
      && (forall j :: 0 <= j < r.at ==> !StopsAt(observe, target, reject, j))
      && match r
         case Reached(i) => observe(i) == target
         case Forbidden(i, v) => v == observe(i) && v != target && Rejects(reject, v)
         case TimedOut(i, e, v) => i == MaxPolls(timeout) - 1 && e == Period * i && e >= timeout
                                   && v == observe(i) && !StopsAt(observe, target, reject, i)
    decreases timeout - Period * k
  {
    if !StopsAt(observe, target, reject, k) && Period * k < timeout {
      WaitEqualFromOutcome(observe, target, timeout, reject, k + 1);
    }
  }

  /**
   * `wait_until_equal` decides at the first observation that equals `target` or
   * is rejected, within the first ceil(timeout/5)+1 polls; it returns normally
   * exactly when that observation equals `target` (even if it would also be
   * rejected); a rejected value raises whatever time is left; without either, the
   * last budgeted poll raises the timeout with an elapsed count of at least
   * `timeout`, a multiple of 5.
   */
  lemma WaitUntilEqualOutcome<T>(observe: nat -> T, target: T, timeout: int,
                                     reject: Option<T -> bool>)
    ensures var r := WaitUntilEqual(observe, target, timeout, reject);
      && r.at < MaxPolls(timeout)
      && (forall j :: 0 <= j < r.at ==> !StopsAt(observe, target, reject, j))
      && match r
         case Reached(i) => observe(i) == target
         case Forbidden(i, v) => v == observe(i) && v != target && Rejects(reject, v)
         case TimedOut(i, e, v) => i == MaxPolls(timeout) - 1 && e == Period * i && e >= timeout
                                   && v == observe(i) && !StopsAt(observe, target, reject, i)
  {
    WaitEqualFromOutcome(observe, target, timeout, reject, 0);
  }

  /** Position of the first of the first `n` observations that stops the loop, or `n`. */
  function FirstStop<T(==)>(observe: nat -> T, target: T, reject: Option<T -> bool>, n: nat): (i: nat)
    ensures i <= n
    ensures forall j :: 0 <= j < i ==> !StopsAt(observe, target, reject, j)
    ensures i < n ==> StopsAt(observe, target, reject, i)
  {
    if n == 0 then 0
    else
      var i := FirstStop(observe, target, reject, n - 1);
      if i < n - 1 then i
      else if StopsAt(observe, target, reject, n - 1) then n - 1
      else n
  }

  /**
   * `wait_until_equal` in closed form: find the first budgeted observation that
   * equals `target` or is rejected; equality returns, rejection raises the
   * forbidden value; if there is none, the last budgeted poll times out.
   */
  lemma WaitUntilEqualClosedForm<T>(observe: nat -> T, target: T, timeout: int,
                                        reject: Option<T -> bool>)
    ensures var n := MaxPolls(timeout);
            var i := FirstStop(observe, target, reject, n);
            WaitUntilEqual(observe, target, timeout, reject)
            == if i == n then TimedOut(n - 1, Period * (n - 1), observe(n - 1))
               else if observe(i) == target then Reached(i)
               else Forbidden(i, observe(i))
  {
    WaitUntilEqualOutcome(observe, target, timeout, reject);
    var n := MaxPolls(timeout);
    var i := FirstStop(observe, target, reject, n);
    var r := WaitUntilEqual(observe, target, timeout, reject);
    if r.Reached? || r.Forbidden? {
      assert StopsAt(observe, target, reject, r.at);
      assert i <= r.at;
    } else {
      assert i == n;
    }
  }

  /** `wait_until_equal` returns normally only if some budgeted observation equals the target. */
  lemma WaitUntilEqualSucceedsOnlyOnMatch<T>(observe: nat -> T, target: T, timeout: int,
                                             reject: Option<T -> bool>)
    requires WaitUntilEqual(observe, target, timeout, reject).Reached?
    ensures exists i :: 0 <= i < MaxPolls(timeout) && observe(i) == target
  {
    WaitUntilEqualOutcome(observe, target, timeout, reject);
  }

  /**
   * Without a match or a rejection among the budgeted polls, the wait times out
   * at the last of them, after an elapsed count of at least `timeout`.
   */
  lemma WaitUntilEqualTimesOut<T>(observe: nat -> T, target: T, timeout: int,
                                      reject: Option<T -> bool>)
    requires forall j :: 0 <= j < MaxPolls(timeout) ==> !StopsAt(observe, target, reject, j)
    ensures var r := WaitUntilEqual(observe, target, timeout, reject);
            r.TimedOut? && r.at == MaxPolls(timeout) - 1 && r.elapsed >= timeout
            && r.elapsed == Period * (MaxPolls(timeout) - 1)
  {
    WaitUntilEqualOutcome(observe, target, timeout, reject);
    var r := WaitUntilEqual(observe, target, timeout, reject);
    assert !StopsAt(observe, target, reject, r.at);
  }

  /** The wait reads nothing past its budget: streams that agree there give the same outcome. */
  lemma {:induction false} WaitEqualFromReadsBudget<T>(o1: nat -> T, o2: nat -> T, target: T,
                                                          timeout: int, reject: Option<T -> bool>, k: nat)
    requires k < MaxPolls(timeout)
    requires forall j :: k <= j < MaxPolls(timeout) ==> o1(j) == o2(j)
    ensures WaitEqualFrom(o1, target, timeout, reject, k) == WaitEqualFrom(o2, target, timeout, reject, k)
    decreases timeout - Period * k
  {
    if o1(k) != target && !Rejects(reject, o1(k)) && Period * k < timeout {
      WaitEqualFromReadsBudget(o1, o2, target, timeout, reject, k + 1);
    }
  }

  lemma WaitUntilEqualReadsBudget<T>(o1: nat -> T, o2: nat -> T, target: T,
                                         timeout: int, reject: Option<T -> bool>)
    requires forall j :: 0 <= j < MaxPolls(timeout) ==> o1(j) == o2(j)
    ensures WaitUntilEqual(o1, target, timeout, reject) == WaitUntilEqual(o2, target, timeout, reject)
  {
    WaitEqualFromReadsBudget(o1, o2, target, timeout, reject, 0);
  }

  /**
   * `wait_until_equal` when `get_fn()` or `reject_fn(val)` may raise: `observe(k)`
   * is `Err(e)` when the k-th call of the polled function raises `e`, and so is a
   * reject call's result. Such an exception leaves the loop unchanged.
   */
  datatype EqualRun<T, E> =
    | Decided(outcome: EqualOutcome<T>)   // the loop itself returned or raised
    | PollRaised(at: nat, error: E)       // the polled or the reject function raised at poll `at`

  /** `reject_fn and reject_fn(val)` with a reject function that may raise. */
  function RejectCall<T, E>(reject: Option<T -> Result<bool, E>>, v: T): Result<bool, E>
  {
    if reject.None? then Ok(false) else reject.value(v)
  }

  function WaitUntilEqualRaising<T(==), E>(observe: nat -> Result<T, E>, target: T, timeout: int,
                                           reject: Option<T -> Result<bool, E>>): EqualRun<T, E>
  {
    WaitEqualRaisingFrom(observe, target, timeout, reject, 0)
  }

  function WaitEqualRaisingFrom<T(==), E>(observe: nat -> Result<T, E>, target: T, timeout: int,
                                          reject: Option<T -> Result<bool, E>>, k: nat): EqualRun<T, E>
    decreases timeout - Period * k
  {
    match observe(k)
    case Err(e) => PollRaised(k, e)
    case Ok(val) =>
      if val == target then Decided(Reached(k))
      else
        match RejectCall(reject, val)
        case Err(e) => PollRaised(k, e)
        case Ok(rejected) =>
          if rejected then Decided(Forbidden(k, val))
          else if Period * k >= timeout then Decided(TimedOut(k, Period * k, val))
          else WaitEqualRaisingFrom(observe, target, timeout, reject, k + 1)
  }

  /** Poll k neither raised, matched nor was rejected. */
  predicate EqualPending<T(==), E>(observe: nat -> Result<T, E>, target: T,
                                   reject: Option<T -> Result<bool, E>>, k: nat)
  {
    observe(k).Ok? && observe(k).value != target && RejectCall(reject, observe(k).value) == Ok(false)
  }

  /**
   * From any poll inside the budget, the raising loop stops at the first poll that
   * raises, matches or is rejected: an exception from `get_fn` or `reject_fn`
   * propagates as it was raised, and otherwise the outcome is the one of the loop
   * without exceptions.
   */
  lemma {:induction false} WaitEqualRaisingFromOutcome<T, E>(observe: nat -> Result<T, E>, target: T,
                                                                timeout: int, reject: Option<T -> Result<bool, E>>,
                                                                k: nat)
    requires k < MaxPolls(timeout)
    requires forall j :: 0 <= j < k ==> EqualPending(observe, target, reject, j)
    ensures match WaitEqualRaisingFrom(observe, target, timeout, reject, k)
      case PollRaised(i, e) =>
        && k <= i < MaxPolls(timeout)
        && (forall j :: 0 <= j < i ==> EqualPending(observe, target, reject, j))
        && (|| observe(i) == Err(e)
            || (observe(i).Ok? && observe(i).value != target && RejectCall(reject, observe(i).value) == Err(e)))
      case Decided(r) =>
        && k <= r.at < MaxPolls(timeout)
        && (forall j :: 0 <= j < r.at ==> EqualPending(observe, target, reject, j))
        && match r
           case Reached(i) => observe(i) == Ok(target)
           case Forbidden(i, v) => observe(i) == Ok(v) && v != target && RejectCall(reject, v) == Ok(true)
           case TimedOut(i, e, v) => i == MaxPolls(timeout) - 1 && e == Period * i && e >= timeout
                                     && observe(i) == Ok(v) && EqualPending(observe, target, reject, i)
    decreases timeout - Period * k
  {
    if EqualPending(observe, target, reject, k) && Period * k < timeout {
      WaitEqualRaisingFromOutcome(observe, target, timeout, reject, k + 1);
    }
  }

  /**
   * `wait_until_equal` with raising calls: it ends at the first budgeted poll whose
   * `get_fn()` or `reject_fn(val)` raises, with that exception, unless an earlier
   * poll matched, was rejected, or the budget ran out.
   */
  lemma WaitUntilEqualRaisingOutcome<T, E>(observe: nat -> Result<T, E>, target: T, timeout: int,
                                           reject: Option<T -> Result<bool, E>>)
    ensures match WaitUntilEqualRaising(observe, target, timeout, reject)
      case PollRaised(i, e) =>
        && i < MaxPolls(timeout)
        && (forall j :: 0 <= j < i ==> EqualPending(observe, target, reject, j))
        && (|| observe(i) == Err(e)
            || (observe(i).Ok? && observe(i).value != target && RejectCall(reject, observe(i).value) == Err(e)))
      case Decided(r) =>
        && r.at < MaxPolls(timeout)
        && (forall j :: 0 <= j < r.at ==> EqualPending(observe, target, reject, j))
        && match r
           case Reached(i) => observe(i) == Ok(target)
           case Forbidden(i, v) => observe(i) == Ok(v) && v != target && RejectCall(reject, v) == Ok(true)
           case TimedOut(i, e, v) => i == MaxPolls(timeout) - 1 && e == Period * i && e >= timeout
                                     && observe(i) == Ok(v) && EqualPending(observe, target, reject, i)
  {
    WaitEqualRaisingFromOutcome(observe, target, timeout, reject, 0);
  }

  /** A reject predicate that never raises, as a raising one. */
  function NeverRaises<T, E>(reject: Option<T -> bool>): Option<T -> Result<bool, E>>
  {
    if reject.None? then None else Some((v: T) => Ok(reject.value(v)))
  }

  /**
   * When neither the polled nor the reject function raises, the raising loop is
   * the loop `WaitEqualFrom` describes, so every lemma about it applies.
   */
  lemma {:induction false} WaitEqualRaisingOfTotal<T, E>(observe: nat -> T, target: T, timeout: int,
                                                            reject: Option<T -> bool>, k: nat)
    ensures WaitEqualRaisingFrom((j: nat) => Ok(observe(j)), target, timeout, NeverRaises<T, E>(reject), k)
            == Decided(WaitEqualFrom(observe, target, timeout, reject, k))
    decreases timeout - Period * k
  {
    var lifted := NeverRaises<T, E>(reject);
    assert RejectCall(lifted, observe(k)) == Ok(Rejects(reject, observe(k)));
    if observe(k) != target && !Rejects(reject, observe(k)) && Period * k < timeout {
      WaitEqualRaisingOfTotal<T, E>(observe, target, timeout, reject, k + 1);
    }
  }

  // ---------------------------------------------------------------------------
  // wait_until_true
  // ---------------------------------------------------------------------------

  /** How `wait_until_true` ends. */
  datatype TrueOutcome<E> =
    | Held(at: nat)                      // the condition returned true
    | Raised(at: nat, error: E)          // the condition raised; propagated unchanged
    | Expired(at: nat, elapsed: int)     // "Timed out after <elapsed> seconds"

  /**
   * `wait_until_true(condition, timeout)`: `condition(k)` is the k-th call's
   * result, `Err(e)` when the call raises `e`.
   */
  function WaitUntilTrue<E>(condition: nat -> Result<bool, E>, timeout: int): TrueOutcome<E>
  {
    WaitTrueFrom(condition, timeout, 0)
  }

  function WaitTrueFrom<E>(condition: nat -> Result<bool, E>, timeout: int, k: nat): TrueOutcome<E>
    decreases timeout - Period * k
  {
    match condition(k)
    case Err(e) => Raised(k, e)
    case Ok(b) =>
      if b then Held(k)
      else if Period * k >= timeout then Expired(k, Period * k)
      else WaitTrueFrom(condition, timeout, k + 1)
  }

  /** The condition has neither held nor raised at call k. */
  predicate Pending<E>(condition: nat -> Result<bool, E>, k: nat)
  {
    condition(k) == Ok(false)
  }

  lemma {:induction false} WaitTrueFromOutcome<E>(condition: nat -> Result<bool, E>, timeout: int, k: nat)
    requires k < MaxPolls(timeout)
    requires forall j :: 0 <= j < k ==> Pending(condition, j)
    ensures var r := WaitTrueFrom(condition, timeout, k);
      && k <= r.at < MaxPolls(timeout)
      && (forall j :: 0 <= j < r.at ==> Pending(condition, j))
      && match r
         case Held(i) => condition(i) == Ok(true)
         case Raised(i, e) => condition(i) == Err(e)
         case Expired(i, e) => i == MaxPolls(timeout) - 1 && e == Period * i && e >= timeout
                               && Pending(condition, i)
    decreases timeout - Period * k
  {
    if Pending(condition, k) && Period * k < timeout {
      WaitTrueFromOutcome(condition, timeout, k + 1);
    }
  }

  /**
   * `wait_until_true` has the timeout structure of `wait_until_equal` without a
   * reject path: it decides at the first call that returns true or raises, within
   * the budget; an exception from the condition propagates unchanged.
   */
  lemma WaitUntilTrueOutcome<E>(condition: nat -> Result<bool, E>, timeout: int)
    ensures var r := WaitUntilTrue(condition, timeout);
      && r.at < MaxPolls(timeout)
      && (forall j :: 0 <= j < r.at ==> Pending(condition, j))
      && match r
         case Held(i) => condition(i) == Ok(true)
         case Raised(i, e) => condition(i) == Err(e)
         case Expired(i, e) => i == MaxPolls(timeout) - 1 && e == Period * i && e >= timeout
                               && Pending(condition, i)
  {
    WaitTrueFromOutcome(condition, timeout, 0);
  }

  /** Waiting for equality without a reject predicate is waiting for the equality test to hold. */
  lemma {:induction false} WaitEqualIsWaitTrue<T>(observe: nat -> T, target: T, timeout: int, k: nat)
    ensures var eq := WaitEqualFrom(observe, target, timeout, None, k);
            var tr := WaitTrueFrom<()>((j: nat) => Ok(observe(j) == target), timeout, k);
            && !eq.Forbidden? && !tr.Raised?
            && eq.at == tr.at
            && (eq.Reached? <==> tr.Held?)
            && (eq.TimedOut? ==> tr.Expired? && tr.elapsed == eq.elapsed)
    decreases timeout - Period * k
  {
    if observe(k) != target && Period * k < timeout {
      WaitEqualIsWaitTrue(observe, target, timeout, k + 1);
    }
  }

  // ---------------------------------------------------------------------------
  // wait_for_health
  // ---------------------------------------------------------------------------

  /**
   * `seen_health_warning`: no summaries means not yet; exactly one summary
   * containing the pattern means yes; anything else raises with the summaries.
   */
  function SeenHealthWarning(summaries: seq<string>, pattern: string): (r: Result<bool, seq<string>>)
    ensures r == Ok(false) <==> |summaries| == 0
    ensures r == Ok(true) <==> |summaries| == 1 && Contains(summaries[0], pattern)
    ensures r.Err? ==> r.error == summaries
  {
    if |summaries| == 0 then Ok(false)
    else if |summaries| == 1 && Contains(summaries[0], pattern) then Ok(true)
    else Err(summaries)
  }

  /** `wait_for_health(pattern, timeout)`: `health(k)` is the k-th poll's summary list. */
  function WaitForHealth(health: nat -> seq<string>, pattern: string, timeout: int): TrueOutcome<seq<string>>
  {
    WaitUntilTrue(HealthCondition(health, pattern), timeout)
  }

  /** The condition `wait_for_health` polls. */
  function HealthCondition(health: nat -> seq<string>, pattern: string): nat -> Result<bool, seq<string>>
  {
    (k: nat) => SeenHealthWarning(health(k), pattern)
  }

  /**
   * The health wait succeeds at the first poll showing a single summary that
   * contains the pattern, provided every earlier poll showed none; any other
   * non-empty report raises at once.
   */
  lemma WaitForHealthOutcome(health: nat -> seq<string>, pattern: string, timeout: int)
    ensures var r := WaitForHealth(health, pattern, timeout);
      && (forall j :: 0 <= j < r.at ==> |health(j)| == 0)
      && (r.Held? ==> |health(r.at)| == 1 && Contains(health(r.at)[0], pattern))
      && (r.Raised? ==> r.error == health(r.at) && |health(r.at)| >= 1
                        && !(|health(r.at)| == 1 && Contains(health(r.at)[0], pattern)))
      && (r.Expired? ==> |health(r.at)| == 0 && r.elapsed >= timeout)
  {
    var condition := HealthCondition(health, pattern);
    WaitUntilTrueOutcome(condition, timeout);
    var r := WaitForHealth(health, pattern, timeout);
    forall j | 0 <= j < r.at
      ensures |health(j)| == 0
    {
      assert Pending(condition, j);
      assert condition(j) == SeenHealthWarning(health(j), pattern);
    }
    assert condition(r.at) == SeenHealthWarning(health(r.at), pattern);
  }

  // ---------------------------------------------------------------------------
  // Configuration set during a test and cleared at teardown
  // ---------------------------------------------------------------------------

  /** A configuration option: (subsystem, key). */
  type ConfKey = (string, string)

  /** The cluster's configuration overrides and the set the test will clear. */
  datatype ConfState = ConfState(conf: map<ConfKey, string>, tracked: set<ConfKey>)

  /** A configuration write, through the test's `set_conf` or straight to the filesystem. */
  datatype ConfWrite =
    | SetConf(subsys: string, key: string, value: string)      // self.set_conf: recorded
    | SetCephConf(subsys: string, key: string, value: string)  // self.fs.set_ceph_conf: not recorded

  function ApplyWrite(st: ConfState, w: ConfWrite): (st': ConfState)
    ensures st'.conf == st.conf[(w.subsys, w.key) := w.value]
    ensures w.SetConf? ==> st'.tracked == st.tracked + {(w.subsys, w.key)}
    ensures w.SetCephConf? ==> st'.tracked == st.tracked
  {
    match w
    case SetConf(s, k, v) => ConfState(st.conf[(s, k) := v], st.tracked + {(s, k)})
    case SetCephConf(s, k, v) => ConfState(st.conf[(s, k) := v], st.tracked)
  }

  function ApplyWrites(st: ConfState, ws: seq<ConfWrite>): ConfState
    decreases |ws|
  {
    if |ws| == 0 then st else ApplyWrites(ApplyWrite(st, ws[0]), ws[1..])
  }

  /** `tearDown`'s configuration step: clear every recorded option. */
  function TearDownConf(st: ConfState): (conf: map<ConfKey, string>)
    ensures conf.Keys == st.conf.Keys - st.tracked
    ensures forall c :: c in conf ==> conf[c] == st.conf[c]
  {
    map c | c in st.conf && c !in st.tracked :: st.conf[c]
  }

  /** An option some write in `ws` targets, through either route. */
  predicate WrittenBy(ws: seq<ConfWrite>, c: ConfKey)
  {
    exists i :: 0 <= i < |ws| && (ws[i].subsys, ws[i].key) == c
  }

  /** An option some `set_conf` in `ws` targets. */
  predicate RecordedBy(ws: seq<ConfWrite>, c: ConfKey)
  {
    exists i :: 0 <= i < |ws| && ws[i].SetConf? && (ws[i].subsys, ws[i].key) == c
  }

  /**
   * After a run of writes, the recorded set holds exactly the options written
   * through `set_conf`, and an option is present exactly when it was present
   * before or written by either route.
   */
  lemma {:induction false} ApplyWritesTracks(st: ConfState, ws: seq<ConfWrite>, c: ConfKey)
    ensures c in ApplyWrites(st, ws).tracked <==> c in st.tracked || RecordedBy(ws, c)
    ensures c in ApplyWrites(st, ws).conf <==> c in st.conf || WrittenBy(ws, c)
    decreases |ws|
  {
    if |ws| > 0 {
      ApplyWritesTracks(ApplyWrite(st, ws[0]), ws[1..], c);
      assert forall i :: 1 <= i < |ws| ==> ws[i] == ws[1..][i - 1];
      if RecordedBy(ws[1..], c) {
        var i :| 0 <= i < |ws[1..]| && ws[1..][i].SetConf? && (ws[1..][i].subsys, ws[1..][i].key) == c;
        assert ws[i + 1] == ws[1..][i];
      }
      if WrittenBy(ws[1..], c) {
        var i :| 0 <= i < |ws[1..]| && (ws[1..][i].subsys, ws[1..][i].key) == c;
        assert ws[i + 1] == ws[1..][i];
      }
    }
  }

  /** Which step of `tearDown` raised. */
  datatype TearDownError =
    | FirewallError                            // fs.clear_firewall raised
    | MountError(mount: nat, error: Mount.WaitError)  // mount_a (0) or mount_b (1) teardown raised

  /** How `tearDown` ended: the configuration it left and the error it raised, if any. */
  datatype TearDownRun = TearDownRun(conf: map<ConfKey, string>, raised: Option<TearDownError>)

  /**
   * `tearDown`: clear the firewall, tear down both mounts, then clear every
   * recorded option. A step that raises ends the method, so the options stay
   * set. `firewallOk` is whether clearing the firewall returned; `waitA` and
   * `waitB` say how waiting on each mount's background processes ends.
   */
  function TearDown(st: ConfState, firewallOk: bool,
                    a: Mount.CephFSMount, waitA: Mount.Proc -> Outcome<Mount.WaitError>,
                    b: Mount.CephFSMount, waitB: Mount.Proc -> Outcome<Mount.WaitError>): (r: TearDownRun)
    ensures r.raised.None? ==> r.conf == TearDownConf(st)
    ensures r.raised.Some? ==> r.conf == st.conf
  {
    if !firewallOk then TearDownRun(st.conf, Some(FirewallError))
    else
      match Mount.Teardown(a, waitA).outcome
      case Fail(e) => TearDownRun(st.conf, Some(MountError(0, e)))
      case Pass =>
        match Mount.Teardown(b, waitB).outcome
        case Fail(e) => TearDownRun(st.conf, Some(MountError(1, e)))
        case Pass => TearDownRun(TearDownConf(st), None)
  }

  /**
   * `tearDown` gets to clearing the options exactly when the firewall clears
   * and neither mount's teardown meets an error other than the two
   * disconnection errors; the first such error is the one raised.
   */
  lemma TearDownRaises(st: ConfState, firewallOk: bool,
                       a: Mount.CephFSMount, waitA: Mount.Proc -> Outcome<Mount.WaitError>,
                       b: Mount.CephFSMount, waitB: Mount.Proc -> Outcome<Mount.WaitError>)
    ensures var r := TearDown(st, firewallOk, a, waitA, b, waitB);
            var na := Mount.FirstFatal(a.backgroundProcs, waitA);
            var nb := Mount.FirstFatal(b.backgroundProcs, waitB);
            && (r.raised.None? <==> firewallOk && na == |a.backgroundProcs| && nb == |b.backgroundProcs|)
            && (!firewallOk ==> r.raised == Some(FirewallError))
            && (firewallOk && na < |a.backgroundProcs| ==>
                  r.raised == Some(MountError(0, waitA(a.backgroundProcs[na]).error)))
            && (firewallOk && na == |a.backgroundProcs| && nb < |b.backgroundProcs| ==>
                  r.raised == Some(MountError(1, waitB(b.backgroundProcs[nb]).error)))
  {
  }

  /**
   * Starting from no recorded options, an option is set after `tearDown`
   * exactly when it was present or written, and either `tearDown` raised
   * before clearing or it was never written through `set_conf`: a direct
   * `fs.set_ceph_conf` write outlives the test, and so does every option
   * when a teardown step raises.
   */
  lemma TeardownClearsRecorded(conf: map<ConfKey, string>, ws: seq<ConfWrite>, c: ConfKey, firewallOk: bool,
                               a: Mount.CephFSMount, waitA: Mount.Proc -> Outcome<Mount.WaitError>,
                               b: Mount.CephFSMount, waitB: Mount.Proc -> Outcome<Mount.WaitError>)
    ensures var r := TearDown(ApplyWrites(ConfState(conf, {}), ws), firewallOk, a, waitA, b, waitB);
            c in r.conf <==> (c in conf || WrittenBy(ws, c)) && (r.raised.Some? || !RecordedBy(ws, c))
  {
    ApplyWritesTracks(ConfState(conf, {}), ws, c);
  }

  // ---------------------------------------------------------------------------
  // Capability counts in the cache-pinning test
  // ---------------------------------------------------------------------------

  /** The cache size the pinning test configures, and how many files it holds open. */
  const CacheSize: nat := 200
  const OpenFiles: nat := 250

  /** The test's `int(cache_size * 0.8)`, the count the client must shrink to: 160. */
  const RecallTarget: nat := 160

  /** Caps the pinning client should hold: one per open file, one for the root, one for the subdir if used. */
  function ExpectedPinnedCaps(openFiles: nat, useSubdir: bool): nat
  {
    openFiles + (if useSubdir then 2 else 1)
  }

  /** The first wait rejects any count above `open_files + 2`, with or without a subdir. */
  function RejectAbovePinned(openFiles: nat): int -> bool
  {
    (x: int) => x > openFiles + 2
  }

  /** The first wait of the pinning test. */
  function PinnedCapsWait(caps: nat -> int, useSubdir: bool): EqualOutcome<int>
  {
    WaitUntilEqual(caps, ExpectedPinnedCaps(OpenFiles, useSubdir) as int, 600, Some(RejectAbovePinned(OpenFiles)))
  }

  /** The second wait rejects any count below the recall target. */
  function RejectBelowRecall(): int -> bool
  {
    (x: int) => x < RecallTarget
  }

  /** The second wait, after the files are closed: down to the recall target, never below it. */
  function RecalledCapsWait(caps: nat -> int): EqualOutcome<int>
  {
    WaitUntilEqual(caps, RecallTarget as int, 600, Some(RejectBelowRecall()))
  }

  /**
   * While the count stays above the recall target the second wait keeps
   * polling; the first count at or below it decides: the target itself
   * returns, anything lower raises at once.
   */
  lemma RecalledCapsWaitDecides(caps: nat -> int, i: nat)
    requires i < MaxPolls(600)
    requires forall j :: 0 <= j < i ==> caps(j) > RecallTarget
    requires caps(i) <= RecallTarget
    ensures caps(i) == RecallTarget ==> RecalledCapsWait(caps) == Reached(i)
    ensures caps(i) < RecallTarget ==> RecalledCapsWait(caps) == Forbidden(i, caps(i))
  {
    var reject := Some(RejectBelowRecall());
    WaitUntilEqualOutcome(caps, RecallTarget as int, 600, reject);
    assert StopsAt(caps, RecallTarget as int, reject, i);
  }

  /**
   * The expected count is `open_files + 2` with a subdir and `open_files + 1`
   * without, and it is never rejected. With a subdir it sits exactly on the
   * reject bound; without one, the count `open_files + 2` is neither expected nor
   * rejected, so a client stuck there makes the wait run to its timeout.
   */
  lemma PinnedCapsBounds(useSubdir: bool)
    ensures ExpectedPinnedCaps(OpenFiles, useSubdir) == OpenFiles + (if useSubdir then 2 else 1)
    ensures !RejectAbovePinned(OpenFiles)(ExpectedPinnedCaps(OpenFiles, useSubdir))
    ensures forall x: int :: RejectAbovePinned(OpenFiles)(x) <==> x > OpenFiles + 2
    ensures useSubdir ==> RejectAbovePinned(OpenFiles)(ExpectedPinnedCaps(OpenFiles, useSubdir) + 1)
    ensures !useSubdir ==> (OpenFiles + 2) as int != ExpectedPinnedCaps(OpenFiles, useSubdir)
                           && !RejectAbovePinned(OpenFiles)(OpenFiles + 2)
  {
  }

  /** A client stuck one cap above the root-mode target is neither accepted nor rejected: the wait times out. */
  lemma PinnedRootStuckTimesOut(caps: nat -> int)
    requires forall j :: 0 <= j < MaxPolls(600) ==> caps(j) == OpenFiles + 2
    ensures PinnedCapsWait(caps, false).TimedOut?
    ensures PinnedCapsWait(caps, false).elapsed == 600
  {
    assert MaxPolls(600) == 121;
    WaitUntilEqualTimesOut(caps, ExpectedPinnedCaps(OpenFiles, false) as int, 600, Some(RejectAbovePinned(OpenFiles)));
  }
}
