/** `getPortStatus` (`src/utils/network/port/get-port-status.ts`): a TCP
    connection attempt classified as open, closed or unreachable. The socket
    is an oracle: whether `connect` throws at once, and the events it then
    emits, in order. */
module PortStatus {
  import opened Wrappers

  datatype Status = Open | Closed | Unreachable

  /** The `PortStatus` string the source resolves with. */
  function StatusText(s: Status): string
  {
    match s
    case Open => "open"
    case Closed => "closed"
    case Unreachable => "unreachable"
  }

  /** What the socket can emit once the connection attempt is under way. */
  datatype SocketEvent = Connect | Timeout | Error(code: string)

  /** The status an `'error'` event's code resolves with: refused, reset and
      broken-pipe connections mean a device answered; everything else,
      unknown codes included, counts as unreachable. */
  function ErrorStatus(code: string): (s: Status)
    ensures s != Open
    ensures s == Closed <==> code in {"ECONNREFUSED", "ECONNRESET", "EPIPE"}
  {
    if code == "ECONNREFUSED" then Closed
    else if code == "ECONNRESET" || code == "EPIPE" then Closed
    else if code == "EHOSTUNREACH" || code == "ENETUNREACH" || code == "EHOSTDOWN" then Unreachable
    else if code == "ETIMEDOUT" then Unreachable
    else Unreachable
  }

  /** The status each event handler resolves with. */
  function EventStatus(e: SocketEvent): Status
  {
    match e
    case Connect => Open
    case Timeout => Unreachable
    case Error(code) => ErrorStatus(code)
  }

  /** The promise settles with the first thing that happens: a throwing
      `connect` (unreachable) or else the first event; with neither it never
      settles. */
  function FirstStatus(connectThrows: bool, events: seq<SocketEvent>): (r: Option<Status>)
    ensures r.Some? <==> connectThrows || events != []
    ensures r == Some(Open) <==> !connectThrows && events != [] && events[0] == Connect
  {
    if connectThrows then Some(Unreachable)
    else if events == [] then None
    else Some(EventStatus(events[0]))
  }

  /** The state one call shares between its handlers: the `isResolved` flag,
      how often the socket was destroyed, and the promise's outcome. */
  class PortProbe {
    var isResolved: bool
    var destroyCount: nat
    var outcome: Option<Status>

    /** The socket is destroyed exactly when the flag is set, and once. */
    predicate Valid()
      reads this
    {
      destroyCount == (if isResolved then 1 else 0)
    }

    constructor()
      ensures Valid() && !isResolved && outcome == None
    {
      isResolved := false;
      destroyCount := 0;
      outcome := None;
    }

    /** `cleanup`: destroys the socket unless that was done already. */
    method Cleanup()
      requires Valid()
      modifies this
      ensures Valid() && isResolved
      ensures destroyCount == 1 && outcome == old(outcome)
    {
      if !isResolved {
        isResolved := true;
        destroyCount := destroyCount + 1;
      }
    }

    /** `resolve(s)`: a promise settles once; later calls change nothing. */
    method Resolve(s: Status)
      modifies this
      ensures outcome == if old(outcome).None? then Some(s) else old(outcome)
      ensures isResolved == old(isResolved) && destroyCount == old(destroyCount)
    {
      if outcome.None? {
        outcome := Some(s);
      }
    }

    /** An event handler: clean up, then resolve with the event's status. */
    method Handle(e: SocketEvent)
      requires Valid()
      modifies this
      ensures Valid() && isResolved
      ensures outcome == if old(outcome).None? then Some(EventStatus(e)) else old(outcome)
    {
      Cleanup();
      Resolve(EventStatus(e));
    }

    /** The `catch` around `socket.connect`. */
    method ConnectFailed()
      requires Valid()
      modifies this
      ensures Valid() && isResolved
      ensures outcome == if old(outcome).None? then Some(Unreachable) else old(outcome)
    {
      Cleanup();
      Resolve(Unreachable);
    }
  }

  /** One call of `getPortStatus`: the handlers run for a throwing `connect`
      and then for every event the socket emits. The result is the status the
      promise settled with (`None` while it has not settled), and the socket
      is destroyed once if anything happened and never otherwise. */
  method GetPortStatus(connectThrows: bool, events: seq<SocketEvent>) returns (r: Option<Status>, destroyed: nat)
    ensures r == FirstStatus(connectThrows, events)
    ensures destroyed == (if connectThrows || events != [] then 1 else 0)
  {
    var probe := new PortProbe();
    if connectThrows {
      probe.ConnectFailed();
    }
    var i := 0;
    while i < |events|
      invariant 0 <= i <= |events|
      invariant probe.Valid()
      invariant probe.isResolved <==> connectThrows || i > 0
      invariant probe.outcome == FirstStatus(connectThrows, events[..i])
    {
      probe.Handle(events[i]);
      i := i + 1;
    }
    assert events[..i] == events;
    r := probe.outcome;
    destroyed := probe.destroyCount;
  }
}
