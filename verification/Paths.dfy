/** BGP paths as the decision process sees them (bgp/rib/path.go).
  *
  * A path is a heap object that nothing in the decision process changes after it is
  * built, so it is a value here; `id` stands for the pointer, so that two paths with equal
  * attributes stay different paths.
  */
module Paths {
  datatype Option<T> = None | Some(value: T)

  type byte = x: int | 0 <= x < 256
  type uint16 = x: int | 0 <= x < 0x1_0000
  type uint32 = x: int | 0 <= x < 0x1_0000_0000

  // IGP, EGP, Incomplete; a path without the attribute reads as 3. Decoding refuses 3 and above.
  type Origin = x: int | 0 <= x <= 3

  datatype RouteType = RouteAgg | RouteConnected | RouteDefault | RouteStatic | RouteIGP | RouteEGP | RouteOther

  const SRC_LOCAL: nat := 1
  const SRC_EXTERNAL: nat := 2
  const SRC_UNKNOWN: nat := 4

  function RouteSource(routeType: RouteType): nat {
    match routeType
    case RouteOther => SRC_UNKNOWN
    case RouteEGP => SRC_EXTERNAL
    case _ => SRC_LOCAL
  }

  datatype Neighbor = Neighbor(external: bool, address: seq<byte>)

  datatype Path = Path(
    id: nat,
    pref: uint32,
    numASes: uint32,
    origin: Origin,
    neighbor: Option<Neighbor>,
    bgpId: uint32,
    numClusters: uint16,
    routeType: RouteType,
    nextHop: string)
  {
    predicate IsLocal() { RouteSource(routeType) == SRC_LOCAL }

    predicate IsAggregate() { routeType == RouteAgg }

    predicate IsExternal() { neighbor.Some? && neighbor.value.external }

    predicate IsInternal() { neighbor.Some? && !neighbor.value.external }

    // Only these paths are handed to the route manager.
    predicate IsProgrammed() { !IsLocal() || IsAggregate() }
  }
}
