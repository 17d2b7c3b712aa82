/**
 * The client pick both MDS client test tasks make before running their suites:
 * the first two mounts in `ctx.mounts.values()` order, with kernel clients kept
 * on separate nodes
 * (tasks/mds_client_limits.py:231-240, tasks/mds_client_recovery.py:356-365).
 */
module ClientSelection {
  import opened Results

  /** A configured client mount: whether it is a FUSE mount, and its host. */
  datatype ClientMount = ClientMount(isFuse: bool, hostname: string)

  /** Why a test suite refuses its configuration (both raise `RuntimeError`). */
  datatype SelectionError =
    | TooFewClients      // "Need at least two clients"
    | SharedKernelHost   // "kclient clients must be on separate nodes"

  /**
   * Kernel clients are power-cycled to kill them, so unless both mounts are FUSE
   * mounts they must live on different hosts.
   */
  predicate SeparableClients(a: ClientMount, b: ClientMount)
  {
    (a.isFuse && b.isFuse) || a.hostname != b.hostname
  }

  /**
   * The first two mounts, in the order `ctx.mounts.values()` yields them, or
   * the error the test raises. `ctx.mounts` is a Python 2 dict keyed by client
   * id, so that order is the dict's hash order, not the configuration's; the
   * sequence given here stands for whatever order that is.
   */
  function SelectClients(mounts: seq<ClientMount>): (r: Result<(ClientMount, ClientMount), SelectionError>)
    ensures r.Ok? <==> |mounts| >= 2 && SeparableClients(mounts[0], mounts[1])
    ensures r.Ok? ==> r.value == (mounts[0], mounts[1])
    ensures r == Err(TooFewClients) <==> |mounts| < 2
  {
    if |mounts| < 2 then Err(TooFewClients)
    else
      var a := mounts[0];
      var b := mounts[1];
      if !(a.isFuse && b.isFuse) && a.hostname == b.hostname then Err(SharedKernelHost)
      else Ok((a, b))
  }

  /**
   * Two FUSE mounts may share a host; as soon as one of the two is a kernel
   * mount, a shared host is refused; mounts past the second play no part.
   */
  lemma SelectionHostRule(a: ClientMount, b: ClientMount, rest: seq<ClientMount>)
    ensures a.isFuse && b.isFuse ==> SelectClients([a, b] + rest) == Ok((a, b))
    ensures (!(a.isFuse && b.isFuse) && a.hostname == b.hostname)
            ==> SelectClients([a, b] + rest) == Err(SharedKernelHost)
    ensures SelectClients([a, b] + rest) == SelectClients([a, b])
  {
    assert ([a, b] + rest)[0] == a && ([a, b] + rest)[1] == b;
  }
}
