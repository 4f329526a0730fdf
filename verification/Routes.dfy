/** Routes, and the part of a path published for it (bgp/rib/route.go). Go pointers are object references here. */
module Routes {
  import opened Paths

  datatype RouteAction = ActionNone | ActionAdd | ActionReplace | ActionDelete

  class PathInfo {
    const pathId: nat
    const nextHop: string
    var bestPath: bool
    var multiPath: bool
    // The path it was made from.
    ghost const about: Path

    constructor (path: Path, inPathId: nat)
      ensures about == path && pathId == inPathId && nextHop == path.nextHop && !bestPath && !multiPath
    {
      pathId, nextHop, bestPath, multiPath, about := inPathId, path.nextHop, false, false, path;
    }
  }

  class Route {
    const pathInfo: PathInfo
    const path: Path
    const outPathId: nat
    var routeListIdx: int
    var action: RouteAction

    constructor (path: Path, inPathId: nat, outPathId: nat)
      ensures this.path == path && this.outPathId == outPathId && routeListIdx == -1 && action == ActionNone
      ensures fresh(pathInfo) && pathInfo.about == path && pathInfo.pathId == inPathId && pathInfo.nextHop == path.nextHop
      ensures !pathInfo.bestPath && !pathInfo.multiPath
    {
      pathInfo := new PathInfo(path, inPathId);
      this.path, this.outPathId, routeListIdx, action := path, outPathId, -1, ActionNone;
    }
  }
}
