/** The calls a destination makes on the route manager (d.rib.routeMgr in bgp/rib/destination.go), as a trace for one
  * prefix, and the table of next hops that replaying the trace leaves in the forwarding plane.
  */
module RouteManager {
  datatype RouteCall = Create(nextHop: string) | Add(nextHop: string) | Remove(nextHop: string)

  function Apply(table: set<string>, call: RouteCall): set<string> {
    match call
    case Create(nextHop) => {nextHop}
    case Add(nextHop) => table + {nextHop}
    case Remove(nextHop) => table - {nextHop}
  }

  // A prefix is created once and then only extended; what is removed was there.
  predicate Allowed(table: set<string>, call: RouteCall) {
    match call
    case Create(nextHop) => table == {}
    case Add(nextHop) => nextHop !in table
    case Remove(nextHop) => nextHop in table
  }

  function Replay(calls: seq<RouteCall>): set<string> {
    if calls == [] then {} else Apply(Replay(calls[..|calls| - 1]), calls[|calls| - 1])
  }

  predicate Legal(calls: seq<RouteCall>) {
    calls == [] || (Legal(calls[..|calls| - 1]) && Allowed(Replay(calls[..|calls| - 1]), calls[|calls| - 1]))
  }

  lemma ReplayOneMore(calls: seq<RouteCall>, call: RouteCall)
    ensures Replay(calls + [call]) == Apply(Replay(calls), call)
    ensures Legal(calls + [call]) <==> Legal(calls) && Allowed(Replay(calls), call)
  {
    hide Apply, Allowed;
    assert (calls + [call])[..|calls + [call]| - 1] == calls;
  }
}
