/**
 * The deterministic parts of the CephFS client recovery task
 * (tasks/mds_client_recovery.py): the line-buffering log stream, the checks the
 * task makes on its configuration, and the elapsed-time acceptance predicates
 * of its timing tests.
 */
module ClientRecovery {
  import opened Results
  import opened Text
  import opened ClientSelection

  // ---------------------------------------------------------------------------
  // LogStream: a file-like object that logs whole lines
  // ---------------------------------------------------------------------------

  /** The pending partial line, and every line logged so far, oldest first. */
  datatype LogStream = LogStream(buffer: string, logged: seq<string>)

  /** A fresh stream: empty buffer, nothing logged. */
  function NewLogStream(): (st: LogStream)
    ensures WellFormed(st)
    ensures Terminated(st.logged, '\n') + st.buffer == ""
  {
    LogStream("", [])
  }

  /** No logged line and no buffered text contains a newline. */
  predicate WellFormed(st: LogStream)
  {
    '\n' !in st.buffer && forall i :: 0 <= i < |st.logged| ==> '\n' !in st.logged[i]
  }

  /** Everything a stream has been given: its logged lines, each with its newline, then the buffer. */
  function Received(st: LogStream): string
  {
    Terminated(st.logged, '\n') + st.buffer
  }

  /**
   * `write`: append to the buffer; once it holds a newline, log every complete
   * line and keep the text after the last newline. No text is lost or
   * invented, earlier log lines stay, and a write that completes no line only
   * appends.
   */
  function Write(st: LogStream, data: string): (st': LogStream)
    ensures '\n' !in st'.buffer
    ensures st.logged <= st'.logged
    ensures forall i :: |st.logged| <= i < |st'.logged| ==> '\n' !in st'.logged[i]
    ensures '\n' !in st.buffer + data ==> st' == LogStream(st.buffer + data, st.logged)
  {
    var buf := st.buffer + data;
    if '\n' in buf then
      var lines := Split(buf, '\n');
      LogStream(lines[|lines| - 1], st.logged + lines[..|lines| - 1])
    else
      LogStream(buf, st.logged)
  }

  /** A write loses and invents no text, and keeps a well-formed stream well formed. */
  lemma WriteConserves(st: LogStream, data: string)
    ensures Received(Write(st, data)) == Received(st) + data
    ensures WellFormed(st) ==> WellFormed(Write(st, data))
  {
    var buf := st.buffer + data;
    if '\n' in buf {
      var lines := Split(buf, '\n');
      var init := lines[..|lines| - 1];
      var last := lines[|lines| - 1];
      assert Write(st, data) == LogStream(last, st.logged + init);
      assert Terminated(init, '\n') + last == buf by {
        TerminatedThenLast(lines, '\n');
      }
      assert Terminated(st.logged + init, '\n') == Terminated(st.logged, '\n') + Terminated(init, '\n') by {
        TerminatedAppend(st.logged, init, '\n');
      }
      StringAssoc(Terminated(st.logged, '\n'), Terminated(init, '\n'), last);
    }
  }

  /** `flush` does nothing: a partial line stays buffered, nothing is logged. */
  function Flush(st: LogStream): (st': LogStream)
    ensures st'.buffer == st.buffer && st'.logged == st.logged
  {
    st
  }

  /** The stream after each of `chunks` is written in turn. */
  function WriteAll(st: LogStream, chunks: seq<string>): LogStream
    decreases |chunks|
  {
    if |chunks| == 0 then st else WriteAll(Write(st, chunks[0]), chunks[1..])
  }

  /** All chunks, concatenated in order. */
  function Concat(chunks: seq<string>): string
  {
    if |chunks| == 0 then "" else chunks[0] + Concat(chunks[1..])
  }

  /** A run of writes conserves text and keeps the stream well formed. */
  lemma {:induction false} WriteAllConserves(st: LogStream, chunks: seq<string>)
    requires WellFormed(st)
    ensures WellFormed(WriteAll(st, chunks))
    ensures Received(WriteAll(st, chunks)) == Received(st) + Concat(chunks)
    ensures st.logged <= WriteAll(st, chunks).logged
    decreases |chunks|
  {
    if |chunks| > 0 {
      WriteConserves(st, chunks[0]);
      WriteAllConserves(Write(st, chunks[0]), chunks[1..]);
    }
  }

  /**
   * A well-formed stream is determined by what it has received: the logged
   * lines are the newline-separated pieces but the last, and the buffer is the
   * last piece.
   */
  lemma StreamOfReceived(st: LogStream)
    requires WellFormed(st)
    ensures var pieces := Split(Received(st), '\n');
            st.logged == pieces[..|pieces| - 1] && st.buffer == pieces[|pieces| - 1]
  {
    SplitTerminated(st.logged, st.buffer, '\n');
  }

  /** Two well-formed streams that have received the same text are the same stream. */
  lemma ReceivedDetermines(a: LogStream, b: LogStream)
    requires WellFormed(a) && WellFormed(b)
    requires Received(a) == Received(b)
    ensures a == b
  {
    StreamOfReceived(a);
    StreamOfReceived(b);
  }

  /**
   * What ends up logged does not depend on how the output was cut into writes:
   * writing the chunks one by one leaves the stream a single write of their
   * concatenation would.
   */
  lemma ChunkingIrrelevant(chunks: seq<string>)
    ensures WriteAll(NewLogStream(), chunks) == Write(NewLogStream(), Concat(chunks))
  {
    var st := NewLogStream();
    WriteAllConserves(st, chunks);
    WriteConserves(st, Concat(chunks));
    assert Received(st) + Concat(chunks) == Concat(chunks);
    ReceivedDetermines(WriteAll(st, chunks), Write(st, Concat(chunks)));
  }

  // ---------------------------------------------------------------------------
  // Configuration checks of the recovery suite
  // ---------------------------------------------------------------------------

  /** Why the recovery task refuses its configuration. */
  datatype RecoveryTaskError =
    | Selection(cause: SelectionError)
    | ClientOnMdsHost   // "Require first client to on separate server from MDSs"

  /**
   * The two clients the recovery suite runs with: the shared two-client pick,
   * then the network tests' demand that the first client is not on an MDS host.
   */
  function ValidateRecoveryTask(mounts: seq<ClientMount>, mdsHosts: seq<string>)
    : (r: Result<(ClientMount, ClientMount), RecoveryTaskError>)
    ensures r.Ok? <==> |mounts| >= 2 && SeparableClients(mounts[0], mounts[1])
                        && mounts[0].hostname !in mdsHosts
    ensures r.Ok? ==> r.value == (mounts[0], mounts[1])
    ensures r == Err(ClientOnMdsHost) ==> SelectClients(mounts).Ok?
    ensures |mounts| < 2 ==> r == Err(Selection(TooFewClients))
  {
    match SelectClients(mounts)
    case Err(e) => Err(Selection(e))
    case Ok(pair) =>
      if pair.0.hostname in mdsHosts then Err(ClientOnMdsHost) else Ok(pair)
  }

  /** Only the first client is held to the MDS rule: the second may share a host with an MDS. */
  lemma SecondClientMayShareMdsHost(a: ClientMount, b: ClientMount, mdsHosts: seq<string>)
    requires SeparableClients(a, b) && a.hostname !in mdsHosts
    ensures ValidateRecoveryTask([a, b], mdsHosts) == Ok((a, b))
  {
  }

  // ---------------------------------------------------------------------------
  // Elapsed-time acceptance predicates
  // ---------------------------------------------------------------------------

  /**
   * Python 2's `R / 2` on an integer: floor division, the largest h with
   * 2h <= R.
   */
  function HalfFloor(r: int): (h: int)
    ensures 2 * h <= r < 2 * h + 2
  {
    r / 2
  }

  /**
   * `test_reconnect_timeout`: the MDS stayed in reconnect for more than `R / 2`,
   * integer division: more than half of R for even R, more than half a second
   * less than that for odd R.
   */
  function ReconnectTimeoutOk(reconnectTimeout: int, inReconnectFor: real): (ok: bool)
    ensures reconnectTimeout % 2 == 0 ==> (ok <==> inReconnectFor > reconnectTimeout as real / 2.0)
    ensures reconnectTimeout % 2 == 1 ==> (ok <==> inReconnectFor > reconnectTimeout as real / 2.0 - 0.5)
  {
    inReconnectFor > HalfFloor(reconnectTimeout) as real
  }

  /**
   * `test_reconnect_eviction`: after the eviction, reconnect ended in under
   * `R * 0.5`, a float; with a non-positive R no elapsed time passes.
   */
  function ReconnectEvictionOk(reconnectTimeout: int, evictTilActive: real): (ok: bool)
    ensures ok <==> 2.0 * evictTilActive < reconnectTimeout as real
    ensures reconnectTimeout <= 0 && evictTilActive >= 0.0 ==> !ok
  {
    evictTilActive < reconnectTimeout as real * 0.5
  }

  /**
   * `test_stale_caps`: the cap handover took between half and twice the
   * session timeout; a zero timeout admits only an instant handover and a
   * negative one admits none.
   */
  function StaleCapsOk(sessionTimeout: int, capWaited: real): (ok: bool)
    ensures sessionTimeout > 0 ==>
              (ok <==> sessionTimeout as real <= 2.0 * capWaited && capWaited <= 2.0 * sessionTimeout as real)
    ensures sessionTimeout == 0 ==> (ok <==> capWaited == 0.0)
    ensures sessionTimeout < 0 ==> !ok
  {
    sessionTimeout as real / 2.0 <= capWaited <= sessionTimeout as real * 2.0
  }

  /** `test_evicted_caps`: the handover after eviction took under half the session timeout. */
  function EvictedCapsOk(sessionTimeout: int, capWaited: real): (ok: bool)
    ensures ok <==> 2.0 * capWaited < sessionTimeout as real
    ensures sessionTimeout <= 0 && capWaited >= 0.0 ==> !ok
  {
    capWaited < sessionTimeout as real / 2.0
  }

  /**
   * `test_network_death`: I/O resumed within twice the messenger's maximum
   * backoff, an integer product; a non-positive backoff fails every recovery.
   */
  function NetworkDeathOk(maxBackoff: int, recoveryTime: real): (ok: bool)
    ensures ok <==> recoveryTime / 2.0 < maxBackoff as real
    ensures maxBackoff <= 0 && recoveryTime >= 0.0 ==> !ok
  {
    recoveryTime < (maxBackoff * 2) as real
  }

  /**
   * The network-death check is monotone: a faster recovery, or a larger
   * backoff, passes whenever a slower one, or a smaller one, did.
   */
  lemma NetworkDeathMonotone(b: int, t: real, b': int, t': real)
    requires NetworkDeathOk(b, t) && t' <= t && b <= b'
    ensures NetworkDeathOk(b', t')
  {
  }

  /**
   * The pause in `test_network_death`, 1.5 times the session timeout, is past
   * the timeout, so the MDS has marked the session stale, and it lies in the
   * window the stale-caps test accepts for a handover.
   */
  lemma NetworkDeathPauseIsStale(sessionTimeout: int)
    requires sessionTimeout > 0
    ensures var pause := sessionTimeout as real * 1.5;
            pause > sessionTimeout as real && StaleCapsOk(sessionTimeout, pause)
  {
  }

  /**
   * The reconnect-timeout bound is R/2 rounded down: for even R it is exactly
   * half, for odd R half a second below it.
   */
  lemma ReconnectBoundIsFloorHalf(r: int)
    ensures r % 2 == 0 ==> HalfFloor(r) as real == r as real / 2.0
    ensures r % 2 == 1 ==> HalfFloor(r) as real == r as real / 2.0 - 0.5
  {
  }

  /**
   * One elapsed time passes both reconnect checks exactly when it lies strictly
   * between the floored half and the exact half of R.
   */
  lemma ReconnectChecksOverlap(r: int, e: real)
    ensures ReconnectTimeoutOk(r, e) && ReconnectEvictionOk(r, e)
            <==> HalfFloor(r) as real < e < r as real / 2.0
  {
  }

  /** For even R no elapsed time passes both reconnect checks. */
  lemma EvenReconnectChecksExclusive(r: int, e: real)
    requires r % 2 == 0
    ensures !(ReconnectTimeoutOk(r, e) && ReconnectEvictionOk(r, e))
  {
    ReconnectBoundIsFloorHalf(r);
  }

  /** For odd R the two thresholds differ: a time a quarter second above the floored half passes both. */
  lemma OddReconnectChecksOverlap(r: int)
    requires r % 2 == 1
    ensures ReconnectTimeoutOk(r, HalfFloor(r) as real + 0.25)
    ensures ReconnectEvictionOk(r, HalfFloor(r) as real + 0.25)
  {
    ReconnectBoundIsFloorHalf(r);
  }

  /** No handover time passes both the stale-session and the eviction check. */
  lemma StaleAndEvictedExclusive(s: int, w: real)
    ensures !(StaleCapsOk(s, w) && EvictedCapsOk(s, w))
  {
  }
}
