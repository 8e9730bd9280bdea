/**
 * The global controller's MessageDispatcher: a dictionary from message ids
 * to either a command stored without mask, or a tree of nested dictionaries
 * keyed by mask cells whose leaves are weak sets of commands.
 */
module MessageDispatch {
  import opened Wrappers
  import opened Mask

  /** A value stored under a mask cell: a nested dict, or the weak set of a leaf. */
  datatype Node<H(==)> = Dict(children: map<Cell, Node<H>>) | Leaf(handlers: set<H>)

  /** What a message id maps to: a command stored without mask, or a mask tree. */
  datatype Entry<H(==)> = Raw(cmd: H) | Tree(root: map<Cell, Node<H>>)

  /** The value part of an `item` answer. */
  datatype Value<H(==)> = Cmd(cmd: H) | Handlers(handlers: set<H>)

  /** What `item` returns: a bare None, or a pair (value, mask) whose parts may be None. */
  datatype Found<H(==)> = Bare | Pair(value: Option<Value<H>>, mask: Option<seq<Cell>>)

  /** What `remove` returns: None, the popped message entry, or the popped subtree. */
  datatype Removed<H(==)> = Nothing | RemovedEntry(entry: Entry<H>) | RemovedNode(node: Node<H>)

  type Level<H(==)> = map<Cell, Node<H>>
  type Keys<H(==)> = map<string, Entry<H>>

  /** The node reached from `d` by following exactly the cells of `p`, if any. */
  function At<H(==)>(d: Level<H>, p: seq<Cell>): Option<Node<H>>
    decreases |p|
  {
    if p == [] then Some(Dict(d))
    else if p[0] !in d then None
    else match d[p[0]]
      case Leaf(s) => if |p| == 1 then Some(Leaf(s)) else None
      case Dict(c) => At(c, p[1..])
  }

  predicate HoldsLeaf<H(==)>(d: Level<H>) {
    exists k | k in d :: d[k].Leaf?
  }

  /** `x` is not a key of the dict that `n` is. */
  predicate Misses<H(==)>(n: Option<Node<H>>, x: Cell) {
    n.Some? && n.value.Dict? && x !in n.value.children
  }

  /** The handlers of a leaf, or nothing for any other lookup. */
  function LeafSet<H(==)>(n: Option<Node<H>>): set<H> {
    if n.Some? && n.value.Leaf? then n.value.handlers else {}
  }

  // ---------------------------------------------------------------------
  // add

  /**
   * `__set_mask(d, cmd, m)`: walk `m`, creating dicts level by level, and
   * add `h` to the weak set at its last cell. It fails when a level on the
   * way already holds a leaf, when the last cell holds a dict, or for an
   * empty mask.
   */
  function SetMask<H(==)>(d: Level<H>, h: H, m: seq<Cell>): (r: (bool, Level<H>))
    decreases |m|
  {
    if |m| > 1 then
      if HoldsLeaf(d) then (false, d)
      else
        var child := if m[0] in d && d[m[0]].Dict? then d[m[0]].children else map[];
        var (ok, child') := SetMask(child, h, m[1..]);
        (ok, d[m[0] := Dict(child')])
    else if |m| == 1 then
      if m[0] in d && d[m[0]].Dict? then (false, d)
      else if m[0] in d then (true, d[m[0] := Leaf(d[m[0]].handlers + {h})])
      else (true, d[m[0] := Leaf({h})])
    else (false, d)
  }

  /**
   * `add(message_id, cmd, mask)`: an empty mask stores the command itself
   * (replacing whatever was there); otherwise the mask goes into the id's
   * tree, created empty when the id is new. A mask under an id that holds
   * a bare command makes `__set_mask` fail on a non-dict.
   */
  function AddTo<H(==)>(keys: Keys<H>, id: string, h: H, m: seq<Cell>): (Result<bool>, Keys<H>) {
    var keys1 := if id in keys then keys else keys[id := Tree(map[])];
    if m == [] then (Ok(true), keys1[id := Raw(h)])
    else match keys1[id]
      case Raw(_) => (Err(if |m| > 1 then AttributeError else TypeError), keys1)
      case Tree(root) =>
        var (ok, root') := SetMask(root, h, m);
        (Ok(ok), keys1[id := Tree(root')])
  }

  // ---------------------------------------------------------------------
  // item and size

  /**
   * The `__item` loop from the current level `d` with the remaining cells
   * `m`, `acc` being the mask built so far: at each level take the exact
   * cell if present, else the None cell, and stop at the first leaf.
   */
  function Walk<H(==)>(d: Level<H>, m: seq<Cell>, acc: seq<Cell>): (r: Found<H>)
    ensures r.Pair? && (r.value.None? <==> r.mask.None?)
    ensures r.mask.Some? ==> acc < r.mask.value
    ensures r.value.Some? ==> r.value.value.Handlers? && |acc| < |r.mask.value| <= |acc| + |m|
    decreases |m|
  {
    if m == [] then Pair(None, None)
    else
      var c := if m[0] in d then m[0] else Wild;
      if c in d then
        match d[c]
        case Leaf(s) => Pair(Some(Handlers(s)), Some(acc + [c]))
        case Dict(ch) => Walk(ch, m[1..], acc + [c])
      else Pair(None, None)
  }

  /** `item(message_id, mask)`; using a mask on an id holding a bare command raises TypeError. */
  function ItemOf<H(==)>(keys: Keys<H>, id: string, m: seq<Cell>): Result<Found<H>> {
    if id !in keys then Ok(Pair(None, Some(m)))
    else if m == [] then
      match keys[id]
      case Raw(c) => Ok(Pair(Some(Cmd(c)), Some(m)))
      case Tree(_) => Ok(Pair(None, Some(m)))
    else match keys[id]
      case Raw(_) => Err(TypeError)
      case Tree(root) => if |root| == 0 then Ok(Bare) else Ok(Walk(root, m, []))
  }

  /** The `__size` loop: exact cells only; the size of the first leaf, of the last dict, or 0 off the tree. */
  function SizeWalk<H(==)>(d: Level<H>, m: seq<Cell>): nat
    decreases |m|
  {
    if m == [] then |d|
    else if m[0] !in d then 0
    else match d[m[0]]
      case Leaf(s) => |s|
      case Dict(c) => SizeWalk(c, m[1..])
  }

  /** `size(message_id, mask)`: `None` stands for the bare None of an empty tree. */
  function SizeOf<H(==)>(keys: Keys<H>, id: string, m: seq<Cell>): Result<Option<nat>> {
    if id !in keys then Ok(Some(0))
    else if m == [] then
      match keys[id]
      case Raw(_) => Ok(Some(1))
      case Tree(root) => Ok(Some(|root|))
    else match keys[id]
      case Raw(_) => Err(TypeError)
      case Tree(root) => if |root| == 0 then Ok(None) else Ok(Some(SizeWalk(root, m)))
  }

  // ---------------------------------------------------------------------
  // remove and weak-reference eviction

  /** `__remove_mask(d, m)` for a non-empty mask: pop the last cell if the exact path is there. */
  function RemoveIn<H(==)>(d: Level<H>, m: seq<Cell>): (Removed<H>, Level<H>)
    requires |m| > 0
    decreases |m|
  {
    if |m| > 1 then
      if m[0] in d && d[m[0]].Dict? then
        var (r, c') := RemoveIn(d[m[0]].children, m[1..]);
        (r, d[m[0] := Dict(c')])
      else (Nothing, d)
    else if m[0] in d then (RemovedNode(d[m[0]]), d - {m[0]})
    else (Nothing, d)
  }

  /** `remove(message_id, mask)`: no mask pops the whole entry; a bare command ignores a mask. */
  function RemoveFrom<H(==)>(keys: Keys<H>, id: string, m: seq<Cell>): (Removed<H>, Keys<H>) {
    if id !in keys then (Nothing, keys)
    else if m == [] then (RemovedEntry(keys[id]), keys - {id})
    else match keys[id]
      case Raw(_) => (Nothing, keys)
      case Tree(root) =>
        var (r, root') := RemoveIn(root, m);
        (r, keys[id := Tree(root')])
  }

  /** A tree after the garbage collector has dropped `h` from every weak set. */
  function EvictNode<H(==)>(n: Node<H>, h: H): Node<H> {
    match n
    case Leaf(s) => Leaf(s - {h})
    case Dict(c) => Dict(map k | k in c :: EvictNode(c[k], h))
  }

  function EvictLevel<H(==)>(d: Level<H>, h: H): Level<H> {
    map k | k in d :: EvictNode(d[k], h)
  }

  /** Bare commands are strong references and stay. */
  function Evicted<H(==)>(keys: Keys<H>, h: H): Keys<H> {
    map id | id in keys :: match keys[id] case Raw(c) => Raw(c) case Tree(root) => Tree(EvictLevel(root, h))
  }

  // ---------------------------------------------------------------------
  // The dispatcher object

  class MessageDispatcher<H(==)> {
    /** `__keys__`, exposed by the `dict` property. */
    var keys: Keys<H>

    constructor()
      ensures keys == map[]
    {
      keys := map[];
    }

    method Add(id: string, h: H, m: seq<Cell>) returns (r: Result<bool>)
      modifies this
      ensures (r, keys) == AddTo(old(keys), id, h, m)
    {
      r, keys := AddTo(keys, id, h, m).0, AddTo(keys, id, h, m).1;
    }

    /** `item`, with the `__item` loop. */
    method Item(id: string, m: seq<Cell>) returns (r: Result<Found<H>>)
      ensures r == ItemOf(keys, id, m)
    {
      if id !in keys {
        return Ok(Pair(None, Some(m)));
      }
      match keys[id]
      case Raw(c) =>
        r := if m == [] then Ok(Pair(Some(Cmd(c)), Some(m))) else Err(TypeError);
      case Tree(root) =>
        if m == [] {
          return Ok(Pair(None, Some(m)));
        }
        if |root| == 0 {
          return Ok(Bare);
        }
        var d := root;
        var mask: seq<Cell> := [];
        var i := 0;
        while i < |m|
          invariant 0 <= i <= |m|
          invariant Walk(root, m, []) == Walk(d, m[i..], mask)
        {
          assert m[i..][0] == m[i] && m[i..][1..] == m[i + 1..];
          var c := if m[i] in d then m[i] else Wild;
          if c !in d {
            return Ok(Pair(None, None));
          }
          mask := mask + [c];
          match d[c]
          case Leaf(s) =>
            return Ok(Pair(Some(Handlers(s)), Some(mask)));
          case Dict(ch) =>
            d := ch;
          i := i + 1;
        }
        r := Ok(Pair(None, None));
    }

    /** `size`, with the `__size` loop. */
    method Size(id: string, m: seq<Cell>) returns (r: Result<Option<nat>>)
      ensures r == SizeOf(keys, id, m)
    {
      if id !in keys {
        return Ok(Some(0));
      }
      match keys[id]
      case Raw(_) =>
        r := if m == [] then Ok(Some(1)) else Err(TypeError);
      case Tree(root) =>
        if m == [] {
          return Ok(Some(|root|));
        }
        if |root| == 0 {
          return Ok(None);
        }
        var d := root;
        var i := 0;
        while i < |m|
          invariant 0 <= i <= |m|
          invariant SizeWalk(root, m) == SizeWalk(d, m[i..])
        {
          assert m[i..][0] == m[i] && m[i..][1..] == m[i + 1..];
          if m[i] !in d {
            return Ok(Some(0));
          }
          match d[m[i]]
          case Leaf(s) =>
            return Ok(Some(|s|));
          case Dict(c) =>
            d := c;
          i := i + 1;
        }
        r := Ok(Some(|d|));
    }

    method Remove(id: string, m: seq<Cell>) returns (r: Removed<H>)
      modifies this
      ensures (r, keys) == RemoveFrom(old(keys), id, m)
    {
      r, keys := RemoveFrom(keys, id, m).0, RemoveFrom(keys, id, m).1;
    }

    method Clear()
      modifies this
      ensures keys == map[]
    {
      keys := map[];
    }

    /** The garbage collector reclaiming the command `h`: its weak references vanish. */
    method Collect(h: H)
      modifies this
      ensures keys == Evicted(old(keys), h)
    {
      keys := Evicted(keys, h);
    }
  }

  // ---------------------------------------------------------------------
  // Properties of add

  /** Inserting into a fresh dict never fails. */
  lemma {:induction false} SetMaskFresh<H>(h: H, m: seq<Cell>)
    requires |m| > 0
    ensures SetMask(map[], h, m).0
    decreases |m|
  {
    if |m| > 1 {
      SetMaskFresh(h, m[1..]);
    }
  }

  /** A failed `__set_mask` leaves the tree as it was: nothing is created on a failing path. */
  lemma {:induction false} SetMaskFailUnchanged<H>(d: Level<H>, h: H, m: seq<Cell>)
    requires !SetMask(d, h, m).0
    ensures SetMask(d, h, m).1 == d
    decreases |m|
  {
    if |m| > 1 && !HoldsLeaf(d) {
      if m[0] in d {
        assert d[m[0]].Dict?;
        SetMaskFailUnchanged(d[m[0]].children, h, m[1..]);
        assert d[m[0] := Dict(d[m[0]].children)] == d;
      } else {
        SetMaskFresh(h, m[1..]);
      }
    }
  }

  /** After a successful `__set_mask`, the exact path `m` ends in a leaf holding the old handlers and `h`. */
  lemma {:induction false} SetMaskReaches<H>(d: Level<H>, h: H, m: seq<Cell>)
    requires SetMask(d, h, m).0
    ensures At(SetMask(d, h, m).1, m) == Some(Leaf(LeafSet(At(d, m)) + {h}))
    decreases |m|
  {
    if |m| > 1 {
      var child := if m[0] in d && d[m[0]].Dict? then d[m[0]].children else map[];
      SetMaskReaches(child, h, m[1..]);
      var d' := SetMask(d, h, m).1;
      assert At(d', m) == At(SetMask(child, h, m[1..]).1, m[1..]);
      if m[0] in d {
        assert d[m[0]].Dict? by { assert !HoldsLeaf(d); }
        assert At(d, m) == At(child, m[1..]);
      } else {
        assert At(d, m) == None;
        assert At(child, m[1..]) == None by {
          assert m[1..] != [] && m[1..][0] !in child;
        }
      }
    } else {
      var d' := SetMask(d, h, m).1;
      assert m == [m[0]];
      assert d'[m[0]] == Leaf(LeafSet(At(d, m)) + {h});
    }
  }

  /** A successful `__set_mask` keeps every other leaf exactly as it was. */
  lemma {:induction false} SetMaskKeepsOthers<H>(d: Level<H>, h: H, m: seq<Cell>, p: seq<Cell>)
    requires SetMask(d, h, m).0
    requires p != m && At(d, p).Some? && At(d, p).value.Leaf?
    ensures At(SetMask(d, h, m).1, p) == At(d, p)
    decreases |m|
  {
    var d' := SetMask(d, h, m).1;
    assert p != [];
    if |m| > 1 {
      assert d[p[0]].Dict? by { assert !HoldsLeaf(d); }
      if p[0] == m[0] {
        assert m[1..] != p[1..] by {
          assert m == [m[0]] + m[1..] && p == [p[0]] + p[1..];
        }
        SetMaskKeepsOthers(d[m[0]].children, h, m[1..], p[1..]);
      }
    }
  }

  /** Adding the same command under the same mask twice changes nothing the second time. */
  lemma {:induction false} SetMaskIdempotent<H>(d: Level<H>, h: H, m: seq<Cell>)
    requires SetMask(d, h, m).0
    ensures SetMask(SetMask(d, h, m).1, h, m) == (true, SetMask(d, h, m).1)
    decreases |m|
  {
    var d1 := SetMask(d, h, m).1;
    if |m| == 1 {
      assert d1[m[0]].handlers + {h} == d1[m[0]].handlers;
      assert d1[m[0] := Leaf(d1[m[0]].handlers)] == d1;
    } else {
      var child := if m[0] in d && d[m[0]].Dict? then d[m[0]].children else map[];
      SetMaskIdempotent(child, h, m[1..]);
      assert !HoldsLeaf(d1) by {
        forall k | k in d1 ensures d1[k].Dict? {
          if k != m[0] { assert k in d; }
        }
      }
      assert d1[m[0] := d1[m[0]]] == d1;
    }
  }

  /** A level holding a leaf blocks every longer mask through it: the "already found cmd" rule. */
  lemma {:induction false} SetMaskBlockedByLeaf<H>(d: Level<H>, h: H, m: seq<Cell>, j: nat)
    requires j + 1 < |m|
    requires At(d, m[..j]).Some? && At(d, m[..j]).value.Dict? && HoldsLeaf(At(d, m[..j]).value.children)
    ensures SetMask(d, h, m) == (false, d)
    decreases j
  {
    if j > 0 {
      assert m[..j][0] == m[0] && m[..j][1..] == m[1..][..j - 1];
      assert d[m[0]].Dict?;
      assert HoldsLeaf(d) ==> SetMask(d, h, m) == (false, d);
      if !HoldsLeaf(d) {
        SetMaskBlockedByLeaf(d[m[0]].children, h, m[1..], j - 1);
        assert d[m[0] := Dict(d[m[0]].children)] == d;
      }
    }
  }

  /** A mask whose exact path already ends in a dict cannot be stored: the "deeper level" rule. */
  lemma {:induction false} SetMaskBlockedByDict<H>(d: Level<H>, h: H, m: seq<Cell>)
    requires |m| > 0 && At(d, m).Some? && At(d, m).value.Dict?
    ensures SetMask(d, h, m) == (false, d)
    decreases |m|
  {
    if |m| > 1 && !HoldsLeaf(d) {
      SetMaskBlockedByDict(d[m[0]].children, h, m[1..]);
      assert d[m[0] := Dict(d[m[0]].children)] == d;
    }
  }

  // ---------------------------------------------------------------------
  // Properties of item and size

  /** A leaf on the exact path of the query is found, with the exact path as its mask. */
  lemma {:induction false} WalkExact<H>(d: Level<H>, m: seq<Cell>, acc: seq<Cell>, p: seq<Cell>)
    requires 0 < |p| <= |m| && p == m[..|p|]
    requires At(d, p).Some? && At(d, p).value.Leaf?
    ensures Walk(d, m, acc) == Pair(Some(Handlers(At(d, p).value.handlers)), Some(acc + p))
    decreases |p|
  {
    assert p[0] == m[0];
    if |p| > 1 {
      WalkExact(d[p[0]].children, m[1..], acc + [p[0]], p[1..]);
      assert acc + [p[0]] + p[1..] == acc + p;
    } else {
      assert acc + p == acc + [p[0]];
    }
  }

  /**
   * What `__item` finds is a leaf: its mask is the path to that leaf, each
   * cell is the query's own value or None, and None is taken only where the
   * query's value is missing at that level.
   */
  lemma {:induction false} WalkSound<H>(d: Level<H>, m: seq<Cell>, acc: seq<Cell>, p: seq<Cell>)
    requires Walk(d, m, acc).mask == Some(acc + p)
    ensures 0 < |p| <= |m|
    ensures At(d, p) == Some(Leaf(Walk(d, m, acc).value.value.handlers))
    ensures forall i | 0 <= i < |p| :: p[i] == m[i] || (p[i] == Wild && Misses(At(d, p[..i]), m[i]))
    decreases |m|
  {
    var c := if m[0] in d then m[0] else Wild;
    match d[c]
    case Leaf(s) =>
      assert acc + p == acc + [c];
      assert p == (acc + p)[|acc|..] == [c];
    case Dict(ch) =>
      assert acc + [c] <= acc + p;
      assert p != [] && p[0] == c by { assert (acc + p)[|acc|] == c; }
      assert (acc + [c]) + p[1..] == acc + p;
      WalkSound(ch, m[1..], acc + [c], p[1..]);
      forall i | 0 <= i < |p|
        ensures p[i] == m[i] || (p[i] == Wild && Misses(At(d, p[..i]), m[i]))
      {
        if i > 0 {
          assert p[..i][0] == c && p[..i][1..] == p[1..][..i - 1];
          assert p[1..][i - 1] == p[i] && m[1..][i - 1] == m[i];
        }
      }
  }

  /** `item` after a successful `add`: the exact mask finds a weak set holding the command. */
  lemma ItemAfterAdd<H>(keys: Keys<H>, id: string, h: H, m: seq<Cell>)
    requires AddTo(keys, id, h, m).0 == Ok(true)
    ensures m == [] ==> ItemOf(AddTo(keys, id, h, m).1, id, m) == Ok(Pair(Some(Cmd(h)), Some(m)))
    ensures m != [] ==> exists s: set<H> :: h in s && ItemOf(AddTo(keys, id, h, m).1, id, m) == Ok(Pair(Some(Handlers(s)), Some(m)))
  {
    if m != [] {
      var root := if id in keys then keys[id].root else map[];
      var root' := SetMask(root, h, m).1;
      SetMaskReaches(root, h, m);
      WalkExact(root', m, [], m);
      assert m[0] in root';
      assert [] + m == m;
    }
  }

  /** A leaf on the exact path of the query gives its size. */
  lemma {:induction false} SizeAtLeaf<H>(d: Level<H>, m: seq<Cell>, p: seq<Cell>)
    requires 0 < |p| <= |m| && p == m[..|p|]
    requires At(d, p).Some? && At(d, p).value.Leaf?
    ensures SizeWalk(d, m) == |At(d, p).value.handlers|
    decreases |p|
  {
    assert p[0] == m[0];
    if |p| > 1 {
      SizeAtLeaf(d[p[0]].children, m[1..], p[1..]);
    }
  }

  /** A dict at the end of the exact path gives its number of keys. */
  lemma {:induction false} SizeAtDict<H>(d: Level<H>, m: seq<Cell>)
    requires At(d, m).Some? && At(d, m).value.Dict?
    ensures SizeWalk(d, m) == |At(d, m).value.children|
    decreases |m|
  {
    if m != [] {
      SizeAtDict(d[m[0]].children, m[1..]);
    }
  }

  /** `size` never follows None cells: off the exact path it is 0. */
  lemma {:induction false} SizeOffPath<H>(d: Level<H>, m: seq<Cell>)
    requires At(d, m).None?
    requires forall k | 0 < k <= |m| :: !(At(d, m[..k]).Some? && At(d, m[..k]).value.Leaf?)
    ensures SizeWalk(d, m) == 0
    decreases |m|
  {
    assert m != [];
    if m[0] in d {
      assert d[m[0]].Dict? by { assert m[..1] == [m[0]]; }
      forall k | 0 < k <= |m[1..]|
        ensures !(At(d[m[0]].children, m[1..][..k]).Some? && At(d[m[0]].children, m[1..][..k]).value.Leaf?)
      {
        assert m[..k + 1][0] == m[0] && m[..k + 1][1..] == m[1..][..k];
        assert !(At(d, m[..k + 1]).Some? && At(d, m[..k + 1]).value.Leaf?);
      }
      SizeOffPath(d[m[0]].children, m[1..]);
    }
  }

  /** `size` after a successful `add` under a mask counts the new leaf's weak set, which is never empty. */
  lemma SizeAfterAdd<H>(keys: Keys<H>, id: string, h: H, m: seq<Cell>)
    requires m != [] && AddTo(keys, id, h, m).0 == Ok(true)
    ensures exists s: set<H> :: h in s && SizeOf(AddTo(keys, id, h, m).1, id, m) == Ok(Some(|s|))
  {
    var root := if id in keys then keys[id].root else map[];
    var root' := SetMask(root, h, m).1;
    SetMaskReaches(root, h, m);
    SizeAtLeaf(root', m, m);
    assert m[0] in root';
  }

  /** Repeating a successful `add` changes nothing. */
  lemma AddIdempotent<H>(keys: Keys<H>, id: string, h: H, m: seq<Cell>)
    requires AddTo(keys, id, h, m).0 == Ok(true)
    ensures AddTo(AddTo(keys, id, h, m).1, id, h, m) == (Ok(true), AddTo(keys, id, h, m).1)
  {
    var keys' := AddTo(keys, id, h, m).1;
    if m != [] {
      var root := if id in keys then keys[id].root else map[];
      SetMaskIdempotent(root, h, m);
      assert keys'[id := Tree(keys'[id].root)] == keys';
    } else {
      assert keys'[id := Raw(h)] == keys';
    }
  }

  /** A failed `add` leaves the dispatcher as it was, apart from an empty tree for a new id. */
  lemma AddFailUnchanged<H>(keys: Keys<H>, id: string, h: H, m: seq<Cell>)
    requires AddTo(keys, id, h, m).0 != Ok(true)
    ensures id in keys ==> AddTo(keys, id, h, m).1 == keys
    ensures id !in keys ==> AddTo(keys, id, h, m).1 == keys[id := Tree(map[])]
  {
    if id in keys && keys[id].Tree? {
      SetMaskFailUnchanged(keys[id].root, h, m);
      assert keys[id := Tree(keys[id].root)] == keys;
    } else if id !in keys && m != [] {
      SetMaskFresh(h, m);
    }
  }

  // ---------------------------------------------------------------------
  // Properties of remove and eviction

  /** Removing an existing exact path pops its last node and keeps every ancestor, even an emptied one. */
  lemma {:induction false} RemoveFound<H>(d: Level<H>, m: seq<Cell>)
    requires |m| > 0 && At(d, m).Some?
    ensures RemoveIn(d, m).0 == RemovedNode(At(d, m).value)
    ensures At(RemoveIn(d, m).1, m).None?
    ensures At(d, m[..|m| - 1]).Some? && At(d, m[..|m| - 1]).value.Dict?
    ensures At(RemoveIn(d, m).1, m[..|m| - 1]) == Some(Dict(At(d, m[..|m| - 1]).value.children - {m[|m| - 1]}))
    ensures forall p | !(p <= m) && !(m <= p) :: At(RemoveIn(d, m).1, p) == At(d, p)
    decreases |m|
  {
    if |m| > 1 {
      var c := d[m[0]].children;
      RemoveFound(c, m[1..]);
      assert m[..|m| - 1][0] == m[0] && m[..|m| - 1][1..] == m[1..][..|m[1..]| - 1];
    } else {
      assert m[..0] == [];
    }
    forall p | !(p <= m) && !(m <= p) ensures At(RemoveIn(d, m).1, p) == At(d, p) {
      RemoveKeepsOthers(d, m, p);
    }
  }

  /** A path that neither leads to nor passes through the removed node reaches what it reached before. */
  lemma {:induction false} RemoveKeepsOthers<H>(d: Level<H>, m: seq<Cell>, p: seq<Cell>)
    requires |m| > 0 && At(d, m).Some? && !(p <= m) && !(m <= p)
    ensures At(RemoveIn(d, m).1, p) == At(d, p)
    decreases |m|
  {
    assert p != [];
    if p[0] == m[0] {
      assert |m| > 1;
      assert !(p[1..] <= m[1..]) && !(m[1..] <= p[1..]) by {
        assert p == [p[0]] + p[1..] && m == [m[0]] + m[1..];
      }
      RemoveKeepsOthers(d[m[0]].children, m[1..], p[1..]);
    }
  }

  /** Removing a path that is not there changes nothing and returns None. */
  lemma {:induction false} RemoveMissing<H>(d: Level<H>, m: seq<Cell>)
    requires |m| > 0 && At(d, m).None?
    ensures RemoveIn(d, m) == (Nothing, d)
    decreases |m|
  {
    if |m| > 1 && m[0] in d && d[m[0]].Dict? {
      RemoveMissing(d[m[0]].children, m[1..]);
      assert d[m[0] := Dict(d[m[0]].children)] == d;
    }
  }

  /** Eviction keeps the shape of the tree and drops `h` from every leaf. */
  lemma {:induction false} EvictAt<H>(d: Level<H>, h: H, p: seq<Cell>)
    ensures At(EvictLevel(d, h), p).Some? <==> At(d, p).Some?
    ensures At(d, p).Some? && At(d, p).value.Leaf? ==> At(EvictLevel(d, h), p) == Some(Leaf(At(d, p).value.handlers - {h}))
    ensures At(d, p).Some? && At(d, p).value.Dict? ==> At(EvictLevel(d, h), p).value.Dict?
    decreases |p|
  {
    if p != [] && p[0] in d && d[p[0]].Dict? {
      EvictAt(d[p[0]].children, h, p[1..]);
    }
  }
}
