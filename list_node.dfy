/**
 * The list layout's tree: `Node`, an ordered list of children with a parent
 * link, and `CueNode`, a node carrying a cue whose children's `cue.index`
 * is re-synchronised after every insertion and removal.
 */
module ListLayoutNodes {
  import opened Wrappers
  import opened Lists
  import opened Cues

  class Node {
    /** `_children`. */
    var children: seq<Node>
    /** `_parent`. */
    var parent: Node?

    /** `Node(parent)`: a childless node, appended to `parent`'s children when one is given. */
    constructor(parent: Node?)
      modifies parent
      ensures children == [] && this.parent == parent
      ensures parent != null ==> parent.children == old(parent.children) + [this]
    {
      children := [];
      this.parent := parent;
      new;
      if parent != null {
        parent.AddChild(this);
      }
    }

    method SetParent(p: Node?)
      modifies this
      ensures parent == p && children == old(children)
    {
      parent := p;
    }

    /** `row()`: -1 for the root, else the node's first position among its parent's children. */
    function Row(): (r: Result<int>)
      reads this, parent
      ensures parent == null ==> r == Ok(-1)
      ensures parent != null ==> (r.Ok? <==> this in parent.children)
      ensures r.Err? ==> r.error == ValueError
      ensures parent != null && r.Ok? ==>
        0 <= r.value < |parent.children| && parent.children[r.value] == this && this !in parent.children[..r.value]
    {
      if parent == null then Ok(-1)
      else
        match IndexOf(parent.children, this)
        case Ok(i) => Ok(i as int)
        case Err(e) => Err(e)
    }

    /** `child_index(child)`: the child's first position, ValueError when it is not a child. */
    function ChildIndex(child: Node): (r: Result<nat>)
      reads this
      ensures r.Ok? <==> child in children
      ensures r.Err? ==> r.error == ValueError
      ensures r.Ok? ==> r.value < |children| && children[r.value] == child && child !in children[..r.value]
    {
      IndexOf(children, child)
    }

    /** `add_child(child)`: insert at the end. */
    method AddChild(child: Node)
      modifies this, child
      ensures children == old(children) + [child]
      ensures child.parent == this
      ensures child != this ==> parent == old(parent) && child.children == old(child.children)
    {
      InsertChild(|children|, child);
    }

    /** `insert_child(index, child)`: an index outside `0..len` appends; the child's parent is this node. */
    method InsertChild(index: int, child: Node)
      modifies this, child
      ensures children == Inserted(old(children), Clamp(index, |old(children)|), child)
      ensures child.parent == this
      ensures child != this ==> parent == old(parent) && child.children == old(child.children)
      ensures child !in old(children) ==> ChildIndex(child) == Ok(Clamp(index, |old(children)|))
    {
      var i := index;
      if !(0 <= i <= |children|) {
        i := |children|;
      }
      ghost var c0 := children;
      children := children[..i] + [child] + children[i..];
      child.SetParent(this);
      if child !in c0 {
        IndexOfInserted(c0, i, child);
      }
    }

    /** `remove_child(index)`: True, with the child at `index` popped and parentless, iff `abs(index) < len`; False and no change otherwise. */
    method RemoveChild(index: int) returns (removed: bool)
      modifies this, if -|children| < index < |children| then {children[Position(index, |children|)]} else {}
      ensures removed <==> -|old(children)| < index < |old(children)|
      ensures removed ==>
        var c := old(children)[Position(index, |old(children)|)];
        children == RemovedAt(old(children), Position(index, |old(children)|)) && c.parent == null &&
        (c != this ==> parent == old(parent) && c.children == old(c.children))
      ensures !removed ==> children == old(children) && parent == old(parent)
    {
      if -|children| < index < |children| {
        var j := Position(index, |children|);
        var child := children[j];
        children := children[..j] + children[j + 1..];
        child.SetParent(null);
        return true;
      }
      return false;
    }

    /**
     * `clear()`: `len` calls of `remove_child(-1)`. Once a single child is
     * left, `abs(-1) < 1` fails, so the first child is never removed.
     */
    method Clear()
      modifies this, set c | c in children
      ensures children == old(children)[..if |old(children)| == 0 then 0 else 1]
      ensures forall j | 1 <= j < |old(children)| :: old(children)[j].parent == null
      ensures |old(children)| > 0 && old(children)[0] !in old(children)[1..] ==> old(children)[0].parent == old(children[0].parent)
      ensures forall c | c in old(children) && c != this :: c.children == old(c.children)
      ensures (forall j | 1 <= j < |old(children)| :: old(children)[j] != this) ==> parent == old(parent)
    {
      ghost var c0 := children;
      var n := |children|;
      for k := 0 to n
        invariant |children| == if n == 0 then 0 else if k < n then n - k else 1
        invariant children == c0[..|children|]
        invariant forall j | |children| <= j < n :: c0[j].parent == null
        invariant n > 0 && c0[0] !in c0[1..] ==> c0[0].parent == old(c0[0].parent)
        invariant forall c | c in c0 && c != this :: c.children == old(c.children)
        invariant (forall j | 1 <= j < n :: c0[j] != this) ==> parent == old(parent)
      {
        var _ := RemoveChild(-1);
      }
    }

    /** `remove_child(index)` with the range check `-len <= index < len`, which every existing child passes. */
    method RemoveExistingChild(index: int) returns (removed: bool)
      modifies this, if -|children| <= index < |children| then {children[Position(index, |children|)]} else {}
      ensures removed <==> -|old(children)| <= index < |old(children)|
      ensures removed ==>
        var c := old(children)[Position(index, |old(children)|)];
        children == RemovedAt(old(children), Position(index, |old(children)|)) && c.parent == null &&
        (c != this ==> parent == old(parent) && c.children == old(c.children))
      ensures !removed ==> children == old(children) && parent == old(parent)
    {
      if -|children| <= index < |children| {
        var j := Position(index, |children|);
        var child := children[j];
        children := children[..j] + children[j + 1..];
        child.SetParent(null);
        return true;
      }
      return false;
    }

    /** `clear()` over `RemoveExistingChild(-1)`: no child is left, and each one has lost its parent. */
    method ClearAll()
      modifies this, set c | c in children
      ensures children == []
      ensures forall j | 0 <= j < |old(children)| :: old(children)[j].parent == null
      ensures forall c | c in old(children) && c != this :: c.children == old(c.children)
      ensures this !in old(children) ==> parent == old(parent)
    {
      ghost var c0 := children;
      var n := |children|;
      for k := 0 to n
        invariant |children| == n - k
        invariant children == c0[..|children|]
        invariant forall j | |children| <= j < n :: c0[j].parent == null
        invariant forall c | c in c0 && c != this :: c.children == old(c.children)
        invariant this !in c0 ==> parent == old(parent)
      {
        var _ := RemoveExistingChild(-1);
      }
    }
  }

  /** What `CueNode.set_parent` receives: a cue node, None, or an object of another class. */
  datatype ParentArg = Parent(node: CueNode) | NoParent | OtherParent

  /** What `CueNode.insert_child` receives: a cue node or an object of another class. */
  datatype ChildArg = Child(node: CueNode) | OtherChild

  class CueNode {
    /** `_cue`. */
    const cue: Cue
    /** `_children`. */
    var children: seq<CueNode>
    /** `_parent`. */
    var parent: CueNode?

    /** `CueNode(cue)`, without a parent. */
    constructor(cue: Cue)
      ensures this.cue == cue && children == [] && parent == null
    {
      this.cue := cue;
      children := [];
      parent := null;
    }

    /** `cues()`: the children's cues, in child order. */
    function Cues(): (r: seq<Cue>)
      reads this
      ensures |r| == |children| && forall i | 0 <= i < |children| :: r[i] == children[i].cue
    {
      var cs := children;
      seq(|cs|, i requires 0 <= i < |cs| => cs[i].cue)
    }

    /** No two children share a cue object. */
    predicate DistinctCues()
      reads this
    {
      forall i, j | 0 <= i < j < |children| :: children[i].cue != children[j].cue
    }

    /** `set_parent(parent)`: a cue node or None; the cue's parent becomes the parent cue's id, or None. TypeError otherwise. */
    method SetParent(p: ParentArg) returns (r: Outcome)
      modifies this, cue
      ensures p.OtherParent? ==> r == Fail(TypeError) && parent == old(parent) && cue.parent == old(cue.parent)
      ensures p.Parent? ==> r == Pass && parent == p.node && cue.parent == Some(p.node.cue.id)
      ensures p.NoParent? ==> r == Pass && parent == null && cue.parent == None
      ensures children == old(children) && cue.index == old(cue.index)
    {
      if p.OtherParent? {
        return Fail(TypeError);
      } else if p.Parent? {
        parent := p.node;
        cue.parent := Some(p.node.cue.id);
      } else {
        parent := null;
        cue.parent := None;
      }
      r := Pass;
    }

    /**
     * `_sync_cues_indices(start, stop)`: a `stop` outside `0..len` becomes
     * `len`, and each `k` in `start..stop` writes `children[k].cue.index = k`,
     * a negative `k` addressing position `k + len`; a `start` below `-len`
     * raises IndexError before anything is written.
     */
    method SyncCuesIndices(start: int, stop: int) returns (r: Outcome)
      modifies set c | c in children :: c.cue
      ensures var n := |children|; var last := if 0 <= stop <= n then stop else n;
        (r.Fail? <==> start < last && start < -n) && (r.Fail? ==> r.error == IndexError)
      ensures r.Fail? ==> forall j | 0 <= j < |children| :: var x := children[j].cue; x.index == old(x.index)
      ensures forall j | 0 <= j < |children| :: var x := children[j].cue; x.parent == old(x.parent)
      ensures var n := |children|; var last := if 0 <= stop <= n then stop else n;
        r.Pass? && DistinctCues() ==> forall j | 0 <= j < n :: var x := children[j].cue; x.index == Synced(start, last, n, j, old(x.index))
    {
      var n := |children|;
      var last := stop;
      if !(0 <= last <= n) {
        last := n;
      }
      if start < last {
        for index := start to last
          invariant index == start ==> forall j | 0 <= j < n :: var x := children[j].cue; x.index == old(x.index)
          invariant start < -n ==> index == start
          invariant forall j | 0 <= j < n :: var x := children[j].cue; x.parent == old(x.parent)
          invariant DistinctCues() ==> forall j | 0 <= j < n :: var x := children[j].cue; x.index == Synced(start, index, n, j, old(x.index))
        {
          if index < -n {
            // `self._children[index]` is out of range
            return Fail(IndexError);
          }
          children[Position(index, n)].cue.index := index;
        }
      }
      r := Pass;
    }

    /**
     * `insert_child(index, child)`: TypeError for anything but a cue node;
     * otherwise the clamped insertion of `Node`, the child's parent set to
     * this node, and the indices synchronised from `index` as given.
     */
    method InsertChild(index: int, child: ChildArg) returns (r: Outcome)
      modifies this, (if child.Child? then {child.node, child.node.cue} else {}), set c | c in children :: c.cue
      ensures child.OtherChild? ==> r == Fail(TypeError) && children == old(children) && parent == old(parent)
      ensures child.OtherChild? ==> forall c | c in children :: c.cue.index == old(c.cue.index) && c.cue.parent == old(c.cue.parent)
      ensures child.Child? ==>
        children == Inserted(old(children), Clamp(index, |old(children)|), child.node) &&
        child.node.parent == this && child.node.cue.parent == Some(cue.id)
      ensures child.Child? && child.node != this ==> parent == old(parent) && child.node.children == old(child.node.children)
      ensures child.Child? ==> (r.Fail? <==> index < -|children|) && (r.Fail? ==> r.error == IndexError)
      ensures child.Child? && r.Pass? && DistinctCues() ==>
        forall j | 0 <= j < |children| :: var x := children[j].cue;
          x.index == Synced(index, |children|, |children|, j, old(x.index))
      ensures child.Child? && 0 <= index <= |old(children)| && DistinctCues() ==>
        r == Pass && forall j | index <= j < |children| :: children[j].cue.index == j
      ensures child.Child? ==> forall c | c in old(children) && c.cue != child.node.cue :: c.cue.parent == old(c.cue.parent)
    {
      if child.OtherChild? {
        return Fail(TypeError);
      }
      var c := child.node;
      var i := index;
      if !(0 <= i <= |children|) {
        i := |children|;
      }
      children := children[..i] + [c] + children[i..];
      var s := c.SetParent(Parent(this));
      r := SyncCuesIndices(index, -1);
    }

    /**
     * `remove_child(index)`: when `abs(index) < len` the child at `index` is
     * popped, loses its parent (and its cue's parent), and the indices are
     * synchronised from `index`; from position `max(index, 0)` on every cue
     * then holds its position. Otherwise nothing changes.
     */
    method RemoveChild(index: int)
      modifies this, set c | c in children :: c.cue
      modifies if -|children| < index < |children| then {children[Position(index, |children|)]} else {}
      ensures var n := |old(children)|;
        if -n < index < n then
          var c := old(children)[Position(index, n)];
          children == RemovedAt(old(children), Position(index, n)) && c.parent == null && c.cue.parent == None &&
          (c != this ==> parent == old(parent) && c.children == old(c.children)) &&
          (forall d | d in children && d.cue != c.cue :: d.cue.parent == old(d.cue.parent)) &&
          ((forall d | d in children :: d.cue != c.cue) ==> c.cue.index == old(c.cue.index))
        else
          children == old(children) && parent == old(parent) &&
          forall d | d in children :: d.cue.index == old(d.cue.index) && d.cue.parent == old(d.cue.parent)
      ensures -|old(children)| < index < |old(children)| && DistinctCues() ==>
        forall j | 0 <= j < |children| :: var x := children[j].cue;
          x.index == if j < index then old(x.index) else j
    {
      if -|children| < index < |children| {
        var j := Position(index, |children|);
        var child := children[j];
        children := children[..j] + children[j + 1..];
        var p := child.SetParent(NoParent);
        var s := SyncCuesIndices(index, -1);
      }
    }
  }
}
