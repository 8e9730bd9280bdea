/**
 * `TreeNode`: a node holding an ordered list of children and a link to its
 * parent. Inserting clamps the index, removing by index accepts only
 * `abs(index) < len`, and `index_path` reads the rows up to the root.
 */
module Trees {
  import opened Wrappers
  import opened Lists

  class TreeNode {
    /** `_children`. */
    var children: seq<TreeNode>
    /** `_parent`. */
    var parent: TreeNode?

    /** `TreeNode(parent)`: a childless node, appended to `parent`'s children when one is given. */
    constructor(parent: TreeNode?)
      modifies parent
      ensures children == [] && this.parent == parent
      ensures parent != null ==> parent.children == old(parent.children) + [this]
    {
      children := [];
      this.parent := parent;
      new;
      if parent != null {
        parent.AddChild(this);
      }
    }

    method SetParent(p: TreeNode?)
      modifies this
      ensures parent == p && children == old(children)
    {
      parent := p;
    }

    /** `row()`: -1 for a parentless node, else its first position among the parent's children. */
    function Row(): (r: Result<int>)
      reads this, parent
      ensures parent == null ==> r == Ok(-1)
      ensures parent != null ==> (r.Ok? <==> this in parent.children)
      ensures r.Err? ==> r.error == ValueError
      ensures parent != null && r.Ok? ==>
        0 <= r.value < |parent.children| && parent.children[r.value] == this && this !in parent.children[..r.value]
    {
      if parent == null then Ok(-1)
      else
        match IndexOf(parent.children, this)
        case Ok(i) => Ok(i as int)
        case Err(e) => Err(e)
    }

    /** `add_child(child)`: insert at the end. */
    method AddChild(child: TreeNode)
      modifies this, child
      ensures children == old(children) + [child]
      ensures child.parent == this
      ensures child != this ==> parent == old(parent) && child.children == old(child.children)
    {
      InsertChild(|children|, child);
    }

    /**
     * `insert_child(index, child)`: an index outside `0..len` appends; the
     * child then sits at the clamped position, the others keep their order,
     * and the child's parent is this node.
     */
    method InsertChild(index: int, child: TreeNode)
      modifies this, child
      ensures children == Inserted(old(children), Clamp(index, |old(children)|), child)
      ensures child.parent == this
      ensures child != this ==> parent == old(parent) && child.children == old(child.children)
      ensures child !in old(children) ==> child.Row() == Ok(Clamp(index, |old(children)|))
    {
      var i := index;
      if !(0 <= i <= |children|) {
        i := |children|;
      }
      ghost var c0 := children;
      children := children[..i] + [child] + children[i..];
      child.SetParent(this);
      if child !in c0 {
        IndexOfInserted(c0, i, child);
      }
    }

    /** `remove(index)`: pop the child at `index` (negative counts from the end) iff `abs(index) < len`, and clear its parent. */
    method Remove(index: int)
      modifies this, if -|children| < index < |children| then {children[Position(index, |children|)]} else {}
      ensures var n := |old(children)|;
        if -n < index < n then
          var c := old(children)[Position(index, n)];
          children == RemovedAt(old(children), Position(index, n)) && c.parent == null &&
          (c != this ==> parent == old(parent) && c.children == old(c.children))
        else
          children == old(children) && parent == old(parent)
    {
      if -|children| < index < |children| {
        var j := Position(index, |children|);
        var child := children[j];
        children := children[..j] + children[j + 1..];
        child.SetParent(null);
      }
    }

    /** `remove_child(child)`: drop the first occurrence of `child` and clear its parent; ValueError when it is not a child. */
    method RemoveChild(child: TreeNode) returns (r: Outcome)
      modifies this, child
      ensures r.Pass? <==> child in old(children)
      ensures r.Fail? ==> r.error == ValueError && children == old(children) && parent == old(parent) && child.parent == old(child.parent)
      ensures r.Pass? ==> children == RemovedAt(old(children), IndexOf(old(children), child).value) && child.parent == null
      ensures child != this ==> parent == old(parent) && child.children == old(child.children)
    {
      var i := IndexOf(children, child);
      if i.Err? {
        return Fail(ValueError);
      }
      children := children[..i.value] + children[i.value + 1..];
      child.SetParent(null);
      r := Pass;
    }

    /**
     * `clear()`: `len` calls of `remove(-1)`. Once a single child is left,
     * `abs(-1) < 1` fails, so the first child is never removed.
     */
    method Clear()
      modifies this, set c | c in children
      ensures children == old(children)[..if |old(children)| == 0 then 0 else 1]
      ensures forall j | 1 <= j < |old(children)| :: old(children)[j].parent == null
      ensures |old(children)| > 0 && old(children)[0] !in old(children)[1..] ==> old(children)[0].parent == old(children[0].parent)
      ensures forall c | c in old(children) && c != this :: c.children == old(c.children)
      ensures (forall j | 1 <= j < |old(children)| :: old(children)[j] != this) ==> parent == old(parent)
    {
      ghost var c0 := children;
      var n := |children|;
      for k := 0 to n
        invariant |children| == if n == 0 then 0 else if k < n then n - k else 1
        invariant children == c0[..|children|]
        invariant forall j | |children| <= j < n :: c0[j].parent == null
        invariant n > 0 && c0[0] !in c0[1..] ==> c0[0].parent == old(c0[0].parent)
        invariant forall c | c in c0 && c != this :: c.children == old(c.children)
        invariant (forall j | 1 <= j < n :: c0[j] != this) ==> parent == old(parent)
      {
        Remove(-1);
      }
    }

    /** `remove(index)` with the range check `-len <= index < len`, which every existing child passes. */
    method RemoveExisting(index: int)
      modifies this, if -|children| <= index < |children| then {children[Position(index, |children|)]} else {}
      ensures var n := |old(children)|;
        if -n <= index < n then
          var c := old(children)[Position(index, n)];
          children == RemovedAt(old(children), Position(index, n)) && c.parent == null &&
          (c != this ==> parent == old(parent) && c.children == old(c.children))
        else
          children == old(children) && parent == old(parent)
    {
      if -|children| <= index < |children| {
        var j := Position(index, |children|);
        var child := children[j];
        children := children[..j] + children[j + 1..];
        child.SetParent(null);
      }
    }

    /** `clear()` over `RemoveExisting(-1)`: no child is left, and each one has lost its parent. */
    method ClearAll()
      modifies this, set c | c in children
      ensures children == []
      ensures forall j | 0 <= j < |old(children)| :: old(children)[j].parent == null
      ensures forall c | c in old(children) && c != this :: c.children == old(c.children)
      ensures this !in old(children) ==> parent == old(parent)
    {
      ghost var c0 := children;
      var n := |children|;
      for k := 0 to n
        invariant |children| == n - k
        invariant children == c0[..|children|]
        invariant forall j | |children| <= j < n :: c0[j].parent == null
        invariant forall c | c in c0 && c != this :: c.children == old(c.children)
        invariant this !in c0 ==> parent == old(parent)
      {
        RemoveExisting(-1);
      }
    }

    /**
     * `index_path()`: the rows from the root down to this node. `chain`
     * lists this node and its ancestors up to the root; each row is a
     * ValueError when a parent does not hold its child.
     */
    function IndexPath(chain: seq<TreeNode>): (r: Result<seq<int>>)
      requires |chain| > 0 && chain[0] == this && Ancestry(chain)
      reads set c | c in chain
      ensures r.Ok? <==> forall i | 0 <= i < |chain| - 1 :: chain[i] in chain[i + 1].children
      ensures r.Err? ==> r.error == ValueError
      ensures r.Ok? ==> |r.value| == |chain| - 1
      ensures r.Ok? ==>
        forall j | 0 <= j < |r.value| ::
          0 <= r.value[j] < |chain[|chain| - 1 - j].children| && chain[|chain| - 1 - j].children[r.value[j]] == chain[|chain| - 2 - j]
      decreases |chain|
    {
      if parent == null then
        AncestryLinks(chain);
        Ok([])
      else
        assert Ancestry(chain[1..]);
        match chain[1].IndexPath(chain[1..])
        case Err(e) => Err(e)
        case Ok(p) =>
          match Row()
          case Err(e) => Err(e)
          case Ok(k) =>
            assert parent == chain[1];
            Ok(p + [k])
    }
  }

  /** `chain` runs from a node up its parent links to a parentless root. */
  predicate Ancestry(chain: seq<TreeNode>)
    reads set c | c in chain
  {
    |chain| > 0 && chain[|chain| - 1].parent == null &&
    forall i | 0 <= i < |chain| - 1 :: chain[i].parent == chain[i + 1]
  }

  lemma AncestryLinks(chain: seq<TreeNode>)
    requires Ancestry(chain)
    ensures |chain| > 1 ==> chain[0].parent == chain[1]
  {
  }
}
