/**
 * The membership snapshot: the names of the cluster's nodes, listed once per
 * run, and the one query both reapers ask of it.
 */
module Membership {

  /**
   * `inNodeList`: scans the captured node names in order and answers true at
   * the first one exactly equal to `nodeName`. The ghost `examined` counts the
   * names looked at, so the early return is part of the contract.
   */
  method InNodeList(nodes: seq<string>, nodeName: string) returns (found: bool, ghost examined: nat)
    ensures found <==> nodeName in nodes
    ensures examined <= |nodes|
    ensures found ==> 0 < examined && nodes[examined - 1] == nodeName && nodeName !in nodes[..examined - 1]
    ensures !found ==> examined == |nodes|
  {
    var i := 0;
    while i < |nodes|
      invariant 0 <= i <= |nodes|
      invariant nodeName !in nodes[..i]
    {
      if nodeName == nodes[i] {
        return true, i + 1;
      }
      assert nodes[..i + 1] == nodes[..i] + [nodes[i]];
      i := i + 1;
    }
    assert nodes[..i] == nodes;
    return false, |nodes|;
  }
}
