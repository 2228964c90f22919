/** The C heap as far as list nodes are concerned: the set of nodes that malloc
    has handed out and that free has not taken back. Freeing a node that is not
    live is a precondition violation, so a verified caller never frees twice. */
module NodeHeaps {

  class NodeHeap {
    ghost var live: set<object>

    ghost method Malloc(node: object)
      modifies this
      ensures live == old(live) + {node}
    {
      live := live + {node};
    }

    ghost method Free(node: object)
      requires node in live
      modifies this
      ensures live == old(live) - {node}
    {
      live := live - {node};
    }
  }
}
