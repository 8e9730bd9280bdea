/**
 * `CueNode` of the cue package: a tree node carrying a cue. Only cue nodes
 * may be parents and children; inserting a child writes the child's cue
 * parent and re-synchronises the children's `cue.index` from the insertion
 * point on.
 */
module CueNodes {
  import opened Wrappers
  import opened Lists
  import opened Cues

  /** An argument the node checks with `isinstance(x, CueNode)`: a cue node, or anything else (None included). */
  datatype NodeArg = Node(node: CueNode) | NotCueNode

  class CueNode {
    /** `_cue`. */
    const cue: Cue
    /** `_children`. */
    var children: seq<CueNode>
    /** `_parent`. */
    var parent: CueNode?

    /** `CueNode(cue)`, without a parent. */
    constructor(cue: Cue)
      ensures this.cue == cue && children == [] && parent == null
    {
      this.cue := cue;
      children := [];
      parent := null;
    }

    /** `cues()`: the children's cues, in child order. */
    function Cues(): (r: seq<Cue>)
      reads this
      ensures |r| == |children| && forall i | 0 <= i < |children| :: r[i] == children[i].cue
    {
      var cs := children;
      seq(|cs|, i requires 0 <= i < |cs| => cs[i].cue)
    }

    /** No two children share a cue object. */
    predicate DistinctCues()
      reads this
    {
      forall i, j | 0 <= i < j < |children| :: children[i].cue != children[j].cue
    }

    /** `set_parent(parent)`: TypeError for anything but a cue node; otherwise the cue's parent becomes the parent cue's id. */
    method SetParent(p: NodeArg) returns (r: Outcome)
      modifies this, cue
      ensures p.NotCueNode? ==> r == Fail(TypeError) && parent == old(parent) && cue.parent == old(cue.parent)
      ensures p.Node? ==> r == Pass && parent == p.node && cue.parent == Some(p.node.cue.id)
      ensures children == old(children) && cue.index == old(cue.index)
    {
      if p.NotCueNode? {
        return Fail(TypeError);
      }
      parent := p.node;
      cue.parent := Some(p.node.cue.id);
      r := Pass;
    }

    /**
     * `_sync_cues_indices(start, stop)`: a `stop` outside `0..len` becomes
     * `len`, and each `k` in `start..stop` writes `children[k].cue.index = k`,
     * a negative `k` addressing position `k + len`; a `start` below `-len`
     * raises IndexError before anything is written.
     */
    method SyncCuesIndices(start: int, stop: int) returns (r: Outcome)
      modifies set c | c in children :: c.cue
      ensures var n := |children|; var last := if 0 <= stop <= n then stop else n;
        (r.Fail? <==> start < last && start < -n) && (r.Fail? ==> r.error == IndexError)
      ensures r.Fail? ==> forall j | 0 <= j < |children| :: var x := children[j].cue; x.index == old(x.index)
      ensures forall j | 0 <= j < |children| :: var x := children[j].cue; x.parent == old(x.parent)
      ensures var n := |children|; var last := if 0 <= stop <= n then stop else n;
        r.Pass? && DistinctCues() ==> forall j | 0 <= j < n :: var x := children[j].cue; x.index == Synced(start, last, n, j, old(x.index))
    {
      var n := |children|;
      var last := stop;
      if !(0 <= last <= n) {
        last := n;
      }
      if start < last {
        for index := start to last
          invariant index == start ==> forall j | 0 <= j < n :: var x := children[j].cue; x.index == old(x.index)
          invariant start < -n ==> index == start
          invariant forall j | 0 <= j < n :: var x := children[j].cue; x.parent == old(x.parent)
          invariant DistinctCues() ==> forall j | 0 <= j < n :: var x := children[j].cue; x.index == Synced(start, index, n, j, old(x.index))
        {
          if index < -n {
            // `self._children[index]` is out of range
            return Fail(IndexError);
          }
          children[Position(index, n)].cue.index := index;
        }
      }
      r := Pass;
    }

    /**
     * `insert_child(index, child)`: TypeError for anything but a cue node;
     * otherwise the clamped insertion of the tree node, the child's parent
     * set to this node, and the indices synchronised from `index` (the
     * index as given, not the clamped one).
     */
    method InsertChild(index: int, child: NodeArg) returns (r: Outcome)
      modifies this, (if child.Node? then {child.node, child.node.cue} else {}), set c | c in children :: c.cue
      ensures child.NotCueNode? ==> r == Fail(TypeError) && children == old(children) && parent == old(parent)
      ensures child.NotCueNode? ==> forall c | c in children :: c.cue.index == old(c.cue.index) && c.cue.parent == old(c.cue.parent)
      ensures child.Node? ==> forall c | c in old(children) && c.cue != child.node.cue :: c.cue.parent == old(c.cue.parent)
      ensures child.Node? ==>
        children == Inserted(old(children), Clamp(index, |old(children)|), child.node) &&
        child.node.parent == this && child.node.cue.parent == Some(cue.id)
      ensures child.Node? && child.node != this ==> parent == old(parent) && child.node.children == old(child.node.children)
      ensures child.Node? ==> (r.Fail? <==> index < -|children|) && (r.Fail? ==> r.error == IndexError)
      ensures child.Node? && r.Pass? && DistinctCues() ==>
        forall j | 0 <= j < |children| :: var x := children[j].cue;
          x.index == Synced(index, |children|, |children|, j, old(x.index))
      ensures child.Node? && 0 <= index <= |old(children)| && DistinctCues() ==>
        r == Pass && forall j | index <= j < |children| :: children[j].cue.index == j
    {
      if child.NotCueNode? {
        return Fail(TypeError);
      }
      var c := child.node;
      var i := index;
      if !(0 <= i <= |children|) {
        i := |children|;
      }
      children := children[..i] + [c] + children[i..];
      var s := c.SetParent(Node(this));
      r := SyncCuesIndices(index, -1);
    }

    /**
     * `remove_child(index)`: the tree node's `remove_child` looks the int
     * itself up among the child nodes with `list.remove`, never finds it,
     * and raises ValueError; nothing changes.
     */
    method RemoveChild(index: int) returns (r: Outcome)
      ensures r == Fail(ValueError)
    {
      r := Fail(ValueError);
    }
  }
}
