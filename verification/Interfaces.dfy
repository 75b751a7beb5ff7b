/** Interfaces and adjacencies, the state types of main.go, as values. */
module Interfaces {
  import opened Bytes
  import SystemId

  datatype AdjState = NEW | INIT | UP

  /** The neighbour's ID and address mean something only once the adjacency is UP;
      until then they are zero here, nil in the source, and read by nobody. */
  datatype Adjacency = Adjacency(
    state: AdjState, neighborSystemID: Bytes6, metric: uint32, intfName: string, neighborIP: Bytes4)

  function NeighborId(a: Adjacency): string {
    SystemId.Text(a.neighborSystemID)
  }
}
