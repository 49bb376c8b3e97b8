/**
 * The edge-selection state machine of the network window. Adding an edge
 * takes two node selections (source, then target); removing one takes the
 * selected edge's two ends and a confirmation. The calls into the network
 * view and the signals emitted with them are recorded in a ghost log.
 */
module Gui {

  /** A node id as the window receives it: an unsigned 32-bit integer. */
  type NodeId = x: int | 0 <= x < 0x1_0000_0000

  /** The id fields, taken to be signed 32-bit integers, with -1 for "no node". */
  const NoNode: int := -1

  /** Storing an unsigned id in a signed 32-bit field: ids from 2^31 up wrap to negative values. */
  function AsStored(id: NodeId): (r: int)
    ensures -0x8000_0000 <= r < 0x8000_0000
    ensures id < 0x8000_0000 ==> r == id
    ensures r == NoNode <==> id == 0xFFFF_FFFF
  {
    if id < 0x8000_0000 then id else id - 0x1_0000_0000
  }

  /** An edge drawn in (or removed from) the view and announced by a signal. */
  datatype EdgeEvent = EdgeAdded(src: int, tar: int) | EdgeRemoved(src: int, tar: int)

  /** A list of edges as the view reports them, by the ids of their ends. */
  type EdgeList = seq<(NodeId, NodeId)>

  class NetworkInstance {
    var argmax: bool
    /** How many node selections the current edge addition still expects. */
    var remainingNodesForEdgeAddition: int
    var id1: int
    var id2: int
    var selectedNode: NodeId
    /** The edges added to and removed from the view, in order. */
    ghost var edgeLog: seq<EdgeEvent>

    /** A window with no edge addition pending and no node chosen. */
    constructor ()
      ensures !argmax && remainingNodesForEdgeAddition == 0
      ensures id1 == NoNode && id2 == NoNode
      ensures edgeLog == []
    {
      argmax := false;
      remainingNodesForEdgeAddition := 0;
      id1 := NoNode;
      id2 := NoNode;
      edgeLog := [];
    }

    method SetArgMax(flag: bool)
      modifies this`argmax
      ensures argmax == flag
    {
      argmax := flag;
    }

    method IsArgMax() returns (flag: bool)
      ensures flag == argmax
    {
      flag := argmax;
    }

    /** Starts an edge addition: two selections to come, none made. */
    method InitialiseEdgeAddition()
      modifies this`remainingNodesForEdgeAddition, this`id1, this`id2
      ensures remainingNodesForEdgeAddition == 2
      ensures id1 == NoNode && id2 == NoNode
    {
      remainingNodesForEdgeAddition := 2;
      id1 := NoNode;
      id2 := NoNode;
    }

    /** The window is in edge-addition mode while selections remain. */
    method EdgeAddition() returns (active: bool)
      ensures active <==> remainingNodesForEdgeAddition > 0
    {
      active := remainingNodesForEdgeAddition > 0;
    }

    /**
     * Whether the node id may be chosen as the target of the edge being
     * added: never before a source is chosen, otherwise as the network
     * decides given the edges already added and removed in the view.
     */
    method CheckEdgeAddition(id: NodeId, added: EdgeList, removed: EdgeList,
                             isEdgePossible: (int, NodeId, EdgeList, EdgeList) -> bool)
      returns (possible: bool)
      ensures id1 == NoNode ==> !possible
      ensures id1 != NoNode ==> possible == isEdgePossible(id1, id, added, removed)
    {
      if id1 != NoNode {
        return isEdgePossible(id1, id, added, removed);
      }
      return false;
    }

    /**
     * A node chosen during edge addition: the first choice is remembered as
     * the source; the second adds the edge from the source to it and clears
     * both choices. Either way one selection fewer remains.
     */
    method NodeForEdgeAdditionSelected(id: NodeId)
      modifies this`id1, this`id2, this`remainingNodesForEdgeAddition, this`edgeLog
      ensures remainingNodesForEdgeAddition == old(remainingNodesForEdgeAddition) - 1
      ensures old(id1) == NoNode ==> id1 == AsStored(id) && id2 == old(id2) && edgeLog == old(edgeLog)
      ensures old(id1) != NoNode ==>
        id1 == NoNode && id2 == NoNode && edgeLog == old(edgeLog) + [EdgeAdded(old(id1), AsStored(id))]
    {
      if id1 == NoNode {
        id1 := AsStored(id);
      } else {
        id2 := AsStored(id);
        edgeLog := edgeLog + [EdgeAdded(id1, id2)];
        id1 := NoNode;
        id2 := NoNode;
      }
      remainingNodesForEdgeAddition := remainingNodesForEdgeAddition - 1;
    }

    /** Remembers the two ends of the edge the user asked to remove. */
    method AddEdgeRemoval(srcId: NodeId, tarId: NodeId)
      modifies this`id1, this`id2
      ensures id1 == AsStored(srcId) && id2 == AsStored(tarId)
    {
      id1 := AsStored(srcId);
      id2 := AsStored(tarId);
    }

    /** Removes the remembered edge from the view and clears both ends. */
    method RemoveSelectedEdge()
      modifies this`id1, this`id2, this`edgeLog
      ensures edgeLog == old(edgeLog) + [EdgeRemoved(old(id1), old(id2))]
      ensures id1 == NoNode && id2 == NoNode
    {
      edgeLog := edgeLog + [EdgeRemoved(id1, id2)];
      id1 := NoNode;
      id2 := NoNode;
    }

    method SetSelectedNode(id: NodeId)
      modifies this`selectedNode
      ensures selectedNode == id
    {
      selectedNode := id;
    }
  }

  /**
   * After an edge addition starts, selecting a source and a target adds
   * exactly the edge between them, and the second selection ends the mode.
   */
  method AddEdgeBySelectingTwoNodes(w: NetworkInstance, src: NodeId, tar: NodeId)
    requires src < 0x8000_0000
    modifies w
    ensures w.edgeLog == old(w.edgeLog) + [EdgeAdded(src, AsStored(tar))]
    ensures w.id1 == NoNode && w.id2 == NoNode
    ensures w.remainingNodesForEdgeAddition == 0
  {
    w.InitialiseEdgeAddition();
    var active := w.EdgeAddition();
    assert active;
    w.NodeForEdgeAdditionSelected(src);
    active := w.EdgeAddition();
    assert active && w.id1 == src;
    w.NodeForEdgeAdditionSelected(tar);
    active := w.EdgeAddition();
    assert !active;
  }

  /** Choosing an edge for removal and confirming removes exactly that edge. */
  method RemoveChosenEdge(w: NetworkInstance, src: NodeId, tar: NodeId)
    modifies w
    ensures w.edgeLog == old(w.edgeLog) + [EdgeRemoved(AsStored(src), AsStored(tar))]
    ensures src < 0x8000_0000 && tar < 0x8000_0000 ==> w.edgeLog == old(w.edgeLog) + [EdgeRemoved(src, tar)]
    ensures w.id1 == NoNode && w.id2 == NoNode
  {
    w.AddEdgeRemoval(src, tar);
    w.RemoveSelectedEdge();
  }

  /** The flag read back is the flag last set, and no other field changes. */
  method ArgMaxReadsBack(w: NetworkInstance, flag: bool) returns (read: bool)
    modifies w
    ensures read == flag
    ensures w.remainingNodesForEdgeAddition == old(w.remainingNodesForEdgeAddition)
    ensures w.id1 == old(w.id1) && w.id2 == old(w.id2) && w.edgeLog == old(w.edgeLog)
    ensures w.selectedNode == old(w.selectedNode)
  {
    w.SetArgMax(flag);
    read := w.IsArgMax();
  }

  /**
   * Before a source is chosen no target is possible, whatever the network
   * would say.
   */
  method NoTargetBeforeSource(w: NetworkInstance, id: NodeId, added: EdgeList, removed: EdgeList,
                              isEdgePossible: (int, NodeId, EdgeList, EdgeList) -> bool)
    returns (possible: bool)
    modifies w
    ensures !possible
  {
    w.InitialiseEdgeAddition();
    possible := w.CheckEdgeAddition(id, added, removed, isEdgePossible);
  }
}
