/**
 Binding the HTTP listener: the configured port, or the next one up that is not in use.
 */
module PortFallback {
  const MAX_PORT: nat := 65535
  type Port = p: nat | p <= MAX_PORT

  /** What the system says to an attempt to bind; for port 0 it picks one. */
  datatype Bind = Bound(port: Port) | InUse | Failed

  datatype Result = Listening(port: Port) | AddressInUse | BindError

  /** `saturating_add` on ports. */
  function LastPort(configured: Port, offset: Port): Port {
    if configured + offset <= MAX_PORT then configured + offset else MAX_PORT
  }

  function ResultOf(b: Bind): Result {
    match b
    case Bound(port) => Listening(port)
    case InUse => AddressInUse
    case Failed => BindError
  }

  ghost predicate Answers(b: Bind, r: Result) {
    match r
    case Listening(port) => b == Bound(port)
    case AddressInUse => b == InUse
    case BindError => b == Failed
  }

  /** In reach are the configured port and `offset` more, up to 65535. */
  predicate InReach(configured: Port, offset: Port, p: Port) { configured <= p <= configured + offset }

  /** The answer is that of the first port in reach that is not in use, or of the last port. */
  ghost predicate IsFirstUsable(bind: Port -> Bind, configured: Port, offset: Port, r: Result) {
    exists p: Port :: InReach(configured, offset, p)
      && Answers(bind(p), r)
      && (forall q: Port | configured <= q < p :: bind(q).InUse?)
      && (bind(p).InUse? ==> p == configured + offset || p == 65535)
  }

  method BindWithFallback(bind: Port -> Bind, configured: Port, offset: Port) returns (r: Result)
    ensures configured == 0 ==> Answers(bind(0), r)
    ensures configured != 0 ==> IsFirstUsable(bind, configured, offset, r)
  {
    if configured == 0 {
      return ResultOf(bind(0));
    }
    var attempt: Port := configured;
    while bind(attempt).InUse? && attempt < LastPort(configured, offset)
      invariant configured <= attempt <= LastPort(configured, offset)
      invariant forall q: Port | configured <= q < attempt :: bind(q).InUse?
      decreases MAX_PORT - attempt
    {
      attempt := attempt + 1;
    }
    r := ResultOf(bind(attempt));
  }

  /** Binding ends with "in use" exactly when every port in reach is in use; the result is determined. */
  lemma FirstUsableMeans(bind: Port -> Bind, configured: Port, offset: Port, r: Result)
    requires IsFirstUsable(bind, configured, offset, r)
    ensures r == AddressInUse <==> forall q: Port | InReach(configured, offset, q) :: bind(q).InUse?
    ensures forall other :: IsFirstUsable(bind, configured, offset, other) ==> other == r
  {
    forall other | IsFirstUsable(bind, configured, offset, other) ensures other == r {
      var p: Port :| InReach(configured, offset, p) && Answers(bind(p), r)
                     && (forall q: Port | configured <= q < p :: bind(q).InUse?)
                     && (bind(p).InUse? ==> p == configured + offset || p == 65535);
      var p2: Port :| InReach(configured, offset, p2) && Answers(bind(p2), other)
                      && (forall q: Port | configured <= q < p2 :: bind(q).InUse?)
                      && (bind(p2).InUse? ==> p2 == configured + offset || p2 == 65535);
      assert p == p2;
    }
  }
}
