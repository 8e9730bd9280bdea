/**
 * The controller plugin's DispatchDict: a tree whose root is keyed by
 * message ids and whose lower levels are keyed by mask cells; every node
 * holds its own weak set of handlers as well as its children.
 */
module Dispatch {
  import opened Wrappers
  import opened Mask

  /** A dict key: a message id at the top level, a mask cell below it. */
  datatype Key = IdKey(id: string) | CellKey(cell: Cell)

  /** A DispatchDict node: its handler weak set and its children. */
  datatype DNode<H> = DNode(handlers: set<H>, children: map<Key, DNode<H>>)

  /** An argument passed where a Handler is expected: a Handler, or another object that is falsy or truthy. */
  datatype Arg<H> = Handler(h: H) | Falsy | Other

  /** The `parent` argument of the constructor. */
  datatype ParentArg = NoParent | DictParent | OtherParent

  /** A `finalize(handler, self.__finalize, msg_id, mask)` registration. */
  datatype Finalizer<H> = Finalizer(handler: H, id: string, mask: seq<Cell>)

  /** `DispatchDict(value, parent)`: a parent must be a DispatchDict, and a truthy value must be a Handler. */
  function Construct<H(==)>(value: Option<Arg<H>>, parent: ParentArg): (r: Result<DNode<H>>)
    ensures r.Err? <==> parent == OtherParent || value == Some(Other)
    ensures r.Err? ==> r.error == TypeError
    ensures r.Ok? ==> r.value.children == map[]
    ensures r.Ok? ==> r.value.handlers == (if value.Some? && value.value.Handler? then {value.value.h} else {})
  {
    if parent == OtherParent then Err(TypeError)
    else match value
      case Some(Handler(h)) => Ok(DNode({h}, map[]))
      case Some(Other) => Err(TypeError)
      case _ => Ok(DNode({}, map[]))
  }

  /**
   * `child(index, value)`: the existing child, untouched, or a new one built
   * with `self` as parent; answers the updated node and the child.
   */
  function Child<H(==)>(n: DNode<H>, idx: Key, value: Option<Arg<H>>): (r: Result<(DNode<H>, DNode<H>)>)
    ensures idx in n.children ==> r == Ok((n, n.children[idx]))
    ensures idx !in n.children ==> (r.Ok? <==> value != Some(Other))
    ensures r.Ok? && idx !in n.children ==>
      r.value.0 == DNode(n.handlers, n.children[idx := r.value.1]) && r.value.1.children == map[]
    ensures r.Ok? && idx !in n.children ==>
      r.value.1.handlers == (if value.Some? && value.value.Handler? then {value.value.h} else {})
  {
    if idx in n.children then Ok((n, n.children[idx]))
    else match Construct(value, DictParent)
      case Err(e) => Err(e)
      case Ok(c) => Ok((DNode(n.handlers, n.children[idx := c]), c))
  }

  function CellKeys(mask: seq<Cell>): (p: seq<Key>)
    ensures |p| == |mask| && forall i | 0 <= i < |mask| :: p[i] == CellKey(mask[i])
  {
    seq(|mask|, i requires 0 <= i < |mask| => CellKey(mask[i]))
  }

  /** The key path `(msg_id, *mask)`. */
  function PathOf(id: string, mask: seq<Cell>): seq<Key> {
    [IdKey(id)] + CellKeys(mask)
  }

  /** The node at exactly the keys `p` below `n`. */
  function Find<H>(n: DNode<H>, p: seq<Key>): Option<DNode<H>>
    decreases |p|
  {
    if p == [] then Some(n)
    else if p[0] in n.children then Find(n.children[p[0]], p[1..])
    else None
  }

  predicate Holds<H>(n: DNode<H>, p: seq<Key>, h: H) {
    Find(n, p).Some? && h in Find(n, p).value.handlers
  }

  function HandlersAt<H>(o: Option<DNode<H>>): set<H> {
    if o.Some? then o.value.handlers else {}
  }

  function ChildrenAt<H>(o: Option<DNode<H>>): map<Key, DNode<H>> {
    if o.Some? then o.value.children else map[]
  }

  /** The `add` walk: `child(idx)` for each key of the path, then the handler goes into the last node. */
  function AddAt<H(==)>(n: DNode<H>, p: seq<Key>, h: H): DNode<H>
    decreases |p|
  {
    if p == [] then DNode(n.handlers + {h}, n.children)
    else
      var (n', c) := Child(n, p[0], None).value;
      DNode(n'.handlers, n'.children[p[0] := AddAt(c, p[1..], h)])
  }

  /**
   * The generator of `get_handler` below the first level: at each level
   * take the exact cell, else the None cell, else stop; yield every node on
   * the way whose handler set is non-empty, with its mask.
   */
  function Hits<H>(n: DNode<H>, args: seq<Cell>, acc: seq<Cell>): (r: seq<(set<H>, seq<Cell>)>)
    decreases |args|
  {
    if args == [] then []
    else
      var c := Choice(n, args[0]);
      if CellKey(c) !in n.children then []
      else
        var child := n.children[CellKey(c)];
        (if |child.handlers| > 0 then [(child.handlers, acc + [c])] else []) + Hits(child, args[1..], acc + [c])
  }

  /** The cell `get_handler` takes at a node for argument `a`: `a` itself when the node has it, else the wildcard. */
  function Choice<H>(x: DNode<H>, a: Cell): Cell {
    if CellKey(a) in x.children then a else Wild
  }

  /**
   * `q` is a path the `get_handler` walk follows from `n` for `args`: it
   * exists below `n`, and at each level its cell is that level's choice
   * for the argument at the same position.
   */
  ghost predicate Chosen<H>(n: DNode<H>, args: seq<Cell>, q: seq<Cell>) {
    |q| <= |args| && Find(n, CellKeys(q)).Some? &&
    forall j | 0 <= j < |q| :: Find(n, CellKeys(q[..j])).Some? && q[j] == Choice(Find(n, CellKeys(q[..j])).value, args[j])
  }

  /** `get_handler(msg_id, *args)`, collected into a sequence. */
  function HandlersOf<H>(root: DNode<H>, id: string, args: seq<Cell>): seq<(set<H>, seq<Cell>)> {
    var k := if IdKey(id) in root.children then IdKey(id) else CellKey(Wild);
    if k !in root.children then []
    else
      var n := root.children[k];
      (if |n.handlers| > 0 then [(n.handlers, [])] else []) + Hits(n, args, [])
  }

  /** `size(msg_id, mask)`. */
  function SizeOf<H>(root: DNode<H>, id: string, mask: seq<Cell>): (r: int)
    ensures r == -1 <==> Find(root, PathOf(id, mask)).None?
    ensures r >= 0 ==> r == |Find(root, PathOf(id, mask)).value.handlers|
  {
    match Find(root, PathOf(id, mask))
    case None => -1
    case Some(n) => |n.handlers|
  }

  /** `n` with the node at the end of `p` popped from its parent. */
  function Prune<H>(n: DNode<H>, p: seq<Key>): DNode<H>
    requires |p| > 0 && Find(n, p).Some?
    decreases |p|
  {
    if |p| == 1 then DNode(n.handlers, n.children - {p[0]})
    else DNode(n.handlers, n.children[p[0] := Prune(n.children[p[0]], p[1..])])
  }

  /** `__cleanup_mask`: False off the tree; otherwise pop the final node if it is empty, and answer True. */
  function CleanupAt<H>(n: DNode<H>, p: seq<Key>): (r: (bool, DNode<H>))
    requires |p| > 0
    ensures !r.0 <==> Find(n, p).None?
  {
    match Find(n, p)
    case None => (false, n)
    case Some(x) => (true, if x.handlers == {} && x.children == map[] then Prune(n, p) else n)
  }

  /** The weak sets after the garbage collector has reclaimed `h`. */
  function Evict<H(==)>(n: DNode<H>, h: H): DNode<H> {
    DNode(n.handlers - {h}, map k | k in n.children :: Evict(n.children[k], h))
  }

  /** The cleanups of finalizers `fs`, run in order. */
  function CleanupAll<H>(n: DNode<H>, fs: seq<Finalizer<H>>): DNode<H>
    decreases |fs|
  {
    if fs == [] then n
    else
      var last := fs[|fs| - 1];
      CleanupAt(CleanupAll(n, fs[..|fs| - 1]), PathOf(last.id, last.mask)).1
  }

  /** The registrations for handler `h`, and the others, in order. */
  function FinalizersOf<H(==)>(fs: seq<Finalizer<H>>, h: H): (r: seq<Finalizer<H>>)
    ensures forall f | f in r :: f in fs && f.handler == h
  {
    if fs == [] then []
    else (if fs[0].handler == h then [fs[0]] else []) + FinalizersOf(fs[1..], h)
  }

  function FinalizersNotOf<H(==)>(fs: seq<Finalizer<H>>, h: H): (r: seq<Finalizer<H>>)
    ensures forall f | f in r :: f in fs && f.handler != h
  {
    if fs == [] then []
    else (if fs[0].handler != h then [fs[0]] else []) + FinalizersNotOf(fs[1..], h)
  }

  class DispatchDict<H(==)> {
    /** The top-level dict; its own handler set is never used. */
    var root: DNode<H>
    /** The live finalizer registrations. */
    var finalizers: seq<Finalizer<H>>

    /** `DispatchDict()` with neither value nor parent. */
    constructor()
      ensures root == DNode({}, map[]) && finalizers == []
    {
      root := DNode({}, map[]);
      finalizers := [];
    }

    /** `add(msg_id, handler, mask)`; a finalizer is registered only when the node did not hold the handler yet. */
    method Add(id: string, handler: Arg<H>, mask: seq<Cell>) returns (r: Outcome)
      modifies this
      ensures !handler.Handler? ==> r == Fail(TypeError) && root == old(root) && finalizers == old(finalizers)
      ensures handler.Handler? ==> r == Pass && root == AddAt(old(root), PathOf(id, mask), handler.h)
      ensures handler.Handler? ==>
        finalizers == old(finalizers) + (if Holds(old(root), PathOf(id, mask), handler.h) then [] else [Finalizer(handler.h, id, mask)])
    {
      if !handler.Handler? {
        return Fail(TypeError);
      }
      var p := PathOf(id, mask);
      if !Holds(root, p, handler.h) {
        finalizers := finalizers + [Finalizer(handler.h, id, mask)];
      }
      root := AddAt(root, p, handler.h);
      r := Pass;
    }

    /** `get_handler`, with its loop over the arguments and the growing path. */
    method GetHandler(id: string, args: seq<Cell>) returns (r: seq<(set<H>, seq<Cell>)>)
      ensures r == HandlersOf(root, id, args)
    {
      var k := if IdKey(id) in root.children then IdKey(id) else CellKey(Wild);
      if k !in root.children {
        return [];
      }
      var n := root.children[k];
      r := if |n.handlers| > 0 then [(n.handlers, [])] else [];
      var path: seq<Cell> := [];
      var i := 0;
      while i < |args|
        invariant 0 <= i <= |args|
        invariant HandlersOf(root, id, args) == r + Hits(n, args[i..], path)
      {
        HitsStep(n, args, i, path);
        var c := if CellKey(args[i]) in n.children then args[i] else Wild;
        if CellKey(c) !in n.children {
          return;
        }
        var child := n.children[CellKey(c)];
        var hit := if |child.handlers| > 0 then [(child.handlers, path + [c])] else [];
        ConcatAssoc(r, hit, Hits(child, args[i + 1..], path + [c]));
        r := r + hit;
        n := child;
        path := path + [c];
        i := i + 1;
      }
      assert r + [] == r;
    }

    /** `size`, with its loop along the exact path. */
    method Size(id: string, mask: seq<Cell>) returns (r: int)
      ensures r == SizeOf(root, id, mask)
    {
      var p := PathOf(id, mask);
      var n := root;
      for i := 0 to |p|
        invariant Find(root, p) == Find(n, p[i..])
      {
        assert p[i..][0] == p[i] && p[i..][1..] == p[i + 1..];
        if p[i] !in n.children {
          return -1;
        }
        n := n.children[p[i]];
      }
      assert p[|p|..] == [];
      r := |n.handlers|;
    }

    /** `__cleanup_mask(msg_id, mask)`: find the node with a loop, then pop it from its parent if empty. */
    method CleanupMask(id: string, mask: seq<Cell>) returns (r: bool)
      modifies this
      ensures (r, root) == CleanupAt(old(root), PathOf(id, mask))
      ensures finalizers == old(finalizers)
    {
      var p := PathOf(id, mask);
      var n := root;
      for i := 0 to |p|
        invariant Find(root, p) == Find(n, p[i..])
      {
        assert p[i..][0] == p[i] && p[i..][1..] == p[i + 1..];
        if p[i] !in n.children {
          return false;
        }
        n := n.children[p[i]];
      }
      assert p[|p|..] == [];
      if n.handlers == {} && n.children == map[] {
        root := Prune(root, p);
      }
      r := true;
    }

    /**
     * The garbage collector reclaiming handler `h`: every weak set loses it,
     * then its finalizers run once each, in the order the collector picks.
     */
    method Collect(h: H, order: seq<Finalizer<H>>)
      requires multiset(order) == multiset(FinalizersOf(finalizers, h))
      modifies this
      ensures root == CleanupAll(Evict(old(root), h), order)
      ensures finalizers == FinalizersNotOf(old(finalizers), h)
    {
      finalizers := FinalizersNotOf(finalizers, h);
      root := Evict(root, h);
      ghost var evicted := root;
      for i := 0 to |order|
        invariant root == CleanupAll(evicted, order[..i])
        invariant finalizers == FinalizersNotOf(old(finalizers), h)
      {
        assert order[..i + 1][..i] == order[..i];
        var f := order[i];
        root := CleanupAt(root, PathOf(f.id, f.mask)).1;
      }
      assert order[..|order|] == order;
    }
  }

  lemma ConcatAssoc<T>(a: seq<T>, b: seq<T>, c: seq<T>)
    ensures a + (b + c) == (a + b) + c
  {
  }

  /** One step of the `get_handler` loop: `Hits` unfolded at position `i`. */
  lemma HitsStep<H>(n: DNode<H>, args: seq<Cell>, i: nat, path: seq<Cell>)
    requires i < |args|
    ensures Hits(n, args[i..], path) ==
      var c := Choice(n, args[i]);
      if CellKey(c) !in n.children then []
      else
        var child := n.children[CellKey(c)];
        (if |child.handlers| > 0 then [(child.handlers, path + [c])] else []) + Hits(child, args[i + 1..], path + [c])
  {
    assert args[i..][0] == args[i] && args[i..][1..] == args[i + 1..];
  }

  // ---------------------------------------------------------------------
  // Properties of add

  lemma FindCons<H>(n: DNode<H>, k: Key, q: seq<Key>)
    ensures Find(n, [k] + q) == if k in n.children then Find(n.children[k], q) else None
  {
    assert ([k] + q)[1..] == q;
  }

  /** After `add`, the final node holds its old handlers and `h`, and keeps its children. */
  lemma {:induction false} AddAtFind<H>(n: DNode<H>, p: seq<Key>, h: H)
    ensures Find(AddAt(n, p, h), p) == Some(DNode(HandlersAt(Find(n, p)) + {h}, ChildrenAt(Find(n, p))))
    decreases |p|
  {
    if p != [] {
      var (n', c) := Child(n, p[0], None).value;
      AddAtFind(c, p[1..], h);
      if p[0] !in n.children {
        assert Find(c, p[1..]) == (if p[1..] == [] then Some(c) else None);
      }
    }
  }

  /** `add` creates every node along the path. */
  lemma {:induction false} AddAtCreatesPath<H>(n: DNode<H>, p: seq<Key>, h: H, k: nat)
    requires k <= |p|
    ensures Find(AddAt(n, p, h), p[..k]).Some?
    decreases |p|
  {
    if k > 0 {
      var (n', c) := Child(n, p[0], None).value;
      AddAtCreatesPath(c, p[1..], h, k - 1);
      assert p[..k] == [p[0]] + p[1..][..k - 1];
      FindCons(AddAt(n, p, h), p[0], p[1..][..k - 1]);
    }
  }

  /** `add` changes the handlers of no other node, and removes no node. */
  lemma {:induction false} AddAtOthers<H>(n: DNode<H>, p: seq<Key>, h: H, q: seq<Key>)
    requires q != p
    ensures Find(n, q).Some? ==> Find(AddAt(n, p, h), q).Some?
    ensures Find(AddAt(n, p, h), q).Some? ==> Find(AddAt(n, p, h), q).value.handlers == HandlersAt(Find(n, q))
    decreases |p|
  {
    var n2 := AddAt(n, p, h);
    if p == [] {
      assert q != [];
      if q[0] in n.children {
        assert Find(n2, q) == Find(n.children[q[0]], q[1..]);
      }
    } else if q != [] {
      var (n', c) := Child(n, p[0], None).value;
      if q[0] == p[0] {
        assert q[1..] != p[1..] by { assert p == [p[0]] + p[1..] && q == [q[0]] + q[1..]; }
        AddAtOthers(c, p[1..], h, q[1..]);
        if p[0] !in n.children {
          FreshFind(c, q[1..]);
        }
      }
    }
  }

  lemma {:induction false} FreshFind<H>(c: DNode<H>, q: seq<Key>)
    requires c.children == map[]
    ensures Find(c, q).Some? <==> q == []
    ensures HandlersAt(Find(c, q)) == if q == [] then c.handlers else {}
  {
  }

  /** Adding the same handler under the same path twice changes nothing the second time. */
  lemma {:induction false} AddAtIdempotent<H>(n: DNode<H>, p: seq<Key>, h: H)
    ensures AddAt(AddAt(n, p, h), p, h) == AddAt(n, p, h)
    decreases |p|
  {
    var n1 := AddAt(n, p, h);
    if p == [] {
      assert n1.handlers + {h} == n1.handlers;
    } else {
      var (n', c) := Child(n, p[0], None).value;
      AddAtIdempotent(c, p[1..], h);
      assert n1.children[p[0] := n1.children[p[0]]] == n1.children;
    }
  }

  /** `add` then `size` under the same mask counts `h` among the final node's handlers. */
  lemma SizeAfterAdd<H>(root: DNode<H>, id: string, h: H, mask: seq<Cell>)
    ensures SizeOf(AddAt(root, PathOf(id, mask), h), id, mask) == |HandlersAt(Find(root, PathOf(id, mask))) + {h}|
    ensures SizeOf(AddAt(root, PathOf(id, mask), h), id, mask) >= 1
  {
    AddAtFind(root, PathOf(id, mask), h);
  }

  /** A second `add` of a handler already in the node registers no finalizer. */
  lemma AddRegistersOnce<H>(root: DNode<H>, id: string, h: H, mask: seq<Cell>)
    ensures Holds(AddAt(root, PathOf(id, mask), h), PathOf(id, mask), h)
  {
    AddAtFind(root, PathOf(id, mask), h);
  }

  // ---------------------------------------------------------------------
  // Properties of get_handler

  /**
   * Every yielded set is non-empty, the masks grow strictly, each
   * extending the previous one, and none is longer than the arguments.
   */
  lemma {:induction false} HitsShape<H>(n: DNode<H>, args: seq<Cell>, acc: seq<Cell>)
    ensures forall i | 0 <= i < |Hits(n, args, acc)| ::
      Hits(n, args, acc)[i].0 != {} && acc < Hits(n, args, acc)[i].1 && |Hits(n, args, acc)[i].1| <= |acc| + |args|
    ensures forall i, j | 0 <= i < j < |Hits(n, args, acc)| :: Hits(n, args, acc)[i].1 < Hits(n, args, acc)[j].1
    decreases |args|
  {
    if args != [] {
      var c := Choice(n, args[0]);
      if CellKey(c) in n.children {
        var child := n.children[CellKey(c)];
        HitsShape(child, args[1..], acc + [c]);
        var head: seq<(set<H>, seq<Cell>)> := if |child.handlers| > 0 then [(child.handlers, acc + [c])] else [];
        var tail := Hits(child, args[1..], acc + [c]);
        assert Hits(n, args, acc) == head + tail;
        forall i | 0 <= i < |tail| ensures acc < tail[i].1 {
          assert acc < acc + [c] <= tail[i].1;
        }
      }
    }
  }

  /** A node with handlers at the exact path of the arguments is the last one yielded, with the arguments as its mask. */
  lemma {:induction false} HitsExact<H>(n: DNode<H>, args: seq<Cell>, acc: seq<Cell>)
    requires Find(n, CellKeys(args)).Some? && args != []
    requires Find(n, CellKeys(args)).value.handlers != {}
    ensures |Hits(n, args, acc)| > 0
    ensures Hits(n, args, acc)[|Hits(n, args, acc)| - 1] == (Find(n, CellKeys(args)).value.handlers, acc + args)
    decreases |args|
  {
    assert CellKeys(args) == [CellKey(args[0])] + CellKeys(args[1..]);
    FindCons(n, CellKey(args[0]), CellKeys(args[1..]));
    var child := n.children[CellKey(args[0])];
    if |args| == 1 {
      assert args == [args[0]] && CellKeys(args[1..]) == [];
      assert Hits(child, args[1..], acc + [args[0]]) == [];
    } else {
      HitsExact(child, args[1..], acc + [args[0]]);
      assert acc + [args[0]] + args[1..] == acc + args;
    }
  }

  lemma CellKeysCons(c: Cell, q: seq<Cell>)
    ensures CellKeys([c] + q) == [CellKey(c)] + CellKeys(q)
  {
  }

  /** A prefix of a path through a child of `n`, looked up from `n` or from that child. */
  lemma PrefixFind<H>(n: DNode<H>, q: seq<Cell>, j: nat)
    requires |q| > 0 && CellKey(q[0]) in n.children && j < |q|
    ensures Find(n, CellKeys(q[..j + 1])) == Find(n.children[CellKey(q[0])], CellKeys(q[1..][..j]))
  {
    assert q[..j + 1] == [q[0]] + q[1..][..j];
    CellKeysCons(q[0], q[1..][..j]);
    FindCons(n, CellKey(q[0]), CellKeys(q[1..][..j]));
  }

  /** `Hits` unfolded once at a node that has the chosen child. */
  lemma HitsUnfold<H>(n: DNode<H>, args: seq<Cell>, acc: seq<Cell>)
    requires args != [] && CellKey(Choice(n, args[0])) in n.children
    ensures var c := Choice(n, args[0]); var child := n.children[CellKey(c)];
      Hits(n, args, acc) == (if |child.handlers| > 0 then [(child.handlers, acc + [c])] else []) + Hits(child, args[1..], acc + [c])
  {
  }

  /** The first step of a walk path, and the rest of it from the child reached. */
  lemma ChosenHead<H>(n: DNode<H>, args: seq<Cell>, q: seq<Cell>)
    requires q != [] && Chosen(n, args, q)
    ensures args != [] && q[0] == Choice(n, args[0]) && CellKey(q[0]) in n.children
    ensures Chosen(n.children[CellKey(q[0])], args[1..], q[1..])
    ensures Find(n, CellKeys(q)) == Find(n.children[CellKey(q[0])], CellKeys(q[1..]))
  {
    var t := q[1..];
    assert q == [q[0]] + t;
    assert CellKeys(q[..0]) == [];
    CellKeysCons(q[0], t);
    FindCons(n, CellKey(q[0]), CellKeys(t));
    var child := n.children[CellKey(q[0])];
    forall j | 0 <= j < |t|
      ensures Find(child, CellKeys(t[..j])).Some? && t[j] == Choice(Find(child, CellKeys(t[..j])).value, args[1..][j])
    {
      PrefixFind(n, q, j);
      assert q[j + 1] == t[j] && args[1..][j] == args[j + 1];
    }
  }

  /** A walk path from the chosen child, preceded by the chosen step, is a walk path from `n`. */
  lemma ChosenStep<H>(n: DNode<H>, args: seq<Cell>, t: seq<Cell>)
    requires args != [] && CellKey(Choice(n, args[0])) in n.children
    requires Chosen(n.children[CellKey(Choice(n, args[0]))], args[1..], t)
    ensures Chosen(n, args, [Choice(n, args[0])] + t)
    ensures Find(n, CellKeys([Choice(n, args[0])] + t)) == Find(n.children[CellKey(Choice(n, args[0]))], CellKeys(t))
  {
    var c := Choice(n, args[0]);
    var q := [c] + t;
    var child := n.children[CellKey(c)];
    assert q[0] == c && q[1..] == t;
    assert CellKeys(q[..0]) == [];
    CellKeysCons(c, t);
    FindCons(n, CellKey(c), CellKeys(t));
    forall j | 0 <= j < |q|
      ensures Find(n, CellKeys(q[..j])).Some? && q[j] == Choice(Find(n, CellKeys(q[..j])).value, args[j])
    {
      if j > 0 {
        PrefixFind(n, q, j - 1);
        assert q[j] == t[j - 1] && args[j] == args[1..][j - 1];
      }
    }
  }

  /**
   * Soundness of the `get_handler` walk: every yield is the handler set of
   * the node at its mask, and its mask is a walk path for the arguments.
   */
  lemma {:induction false} HitsSound<H>(n: DNode<H>, args: seq<Cell>, acc: seq<Cell>)
    ensures forall i | 0 <= i < |Hits(n, args, acc)| ::
      var e := Hits(n, args, acc)[i];
      |acc| <= |e.1| && e.1[..|acc|] == acc && Chosen(n, args, e.1[|acc|..]) &&
      Find(n, CellKeys(e.1[|acc|..])).value.handlers == e.0
    decreases |args|
  {
    if args != [] && CellKey(Choice(n, args[0])) in n.children {
      var c := Choice(n, args[0]);
      var child := n.children[CellKey(c)];
      var acc' := acc + [c];
      HitsSound(child, args[1..], acc');
      HitsUnfold(n, args, acc);
      var head: seq<(set<H>, seq<Cell>)> := if |child.handlers| > 0 then [(child.handlers, acc')] else [];
      var tail := Hits(child, args[1..], acc');
      assert Hits(n, args, acc) == head + tail;
      forall i | 0 <= i < |head + tail|
        ensures var e := (head + tail)[i];
          |acc| <= |e.1| && e.1[..|acc|] == acc && Chosen(n, args, e.1[|acc|..]) &&
          Find(n, CellKeys(e.1[|acc|..])).value.handlers == e.0
      {
        if i < |head| {
          HitsSoundHead(n, args, acc);
        } else {
          var e := tail[i - |head|];
          assert (head + tail)[i] == e;
          HitsSoundTail(n, args, acc, e);
        }
      }
    }
  }

  /** The child the walk steps to is itself a sound yield. */
  lemma HitsSoundHead<H>(n: DNode<H>, args: seq<Cell>, acc: seq<Cell>)
    requires args != [] && CellKey(Choice(n, args[0])) in n.children
    ensures var c := Choice(n, args[0]); var e := acc + [c];
      |acc| <= |e| && e[..|acc|] == acc && Chosen(n, args, e[|acc|..]) &&
      Find(n, CellKeys(e[|acc|..])).value.handlers == n.children[CellKey(c)].handlers
  {
    var c := Choice(n, args[0]);
    var e := acc + [c];
    assert e[..|acc|] == acc && e[|acc|..] == [c] + [];
    assert CellKeys([]) == [];
    ChosenStep(n, args, []);
  }

  /** A sound yield below the chosen child is a sound yield from `n`. */
  lemma HitsSoundTail<H>(n: DNode<H>, args: seq<Cell>, acc: seq<Cell>, e: (set<H>, seq<Cell>))
    requires args != [] && CellKey(Choice(n, args[0])) in n.children
    requires var c := Choice(n, args[0]); var child := n.children[CellKey(c)]; var acc' := acc + [c];
      |acc'| <= |e.1| && e.1[..|acc'|] == acc' && Chosen(child, args[1..], e.1[|acc'|..]) &&
      Find(child, CellKeys(e.1[|acc'|..])).value.handlers == e.0
    ensures |acc| <= |e.1| && e.1[..|acc|] == acc && Chosen(n, args, e.1[|acc|..]) &&
      Find(n, CellKeys(e.1[|acc|..])).value.handlers == e.0
  {
    var c := Choice(n, args[0]);
    var q' := e.1[|acc| + 1..];
    assert e.1[..|acc|] == e.1[..|acc| + 1][..|acc|];
    assert e.1[|acc|..] == [c] + q' by {
      assert e.1[|acc|] == e.1[..|acc| + 1][|acc|];
    }
    ChosenStep(n, args, q');
  }

  /**
   * Completeness of the `get_handler` walk: every non-empty walk path that
   * ends at a node with handlers is yielded, with that node's handlers.
   */
  lemma {:induction false} HitsComplete<H>(n: DNode<H>, args: seq<Cell>, acc: seq<Cell>, q: seq<Cell>)
    requires q != [] && Chosen(n, args, q) && Find(n, CellKeys(q)).value.handlers != {}
    ensures (Find(n, CellKeys(q)).value.handlers, acc + q) in Hits(n, args, acc)
    decreases |args|
  {
    ChosenHead(n, args, q);
    var c := q[0];
    var child := n.children[CellKey(c)];
    var acc' := acc + [c];
    HitsUnfold(n, args, acc);
    var head: seq<(set<H>, seq<Cell>)> := if |child.handlers| > 0 then [(child.handlers, acc')] else [];
    var tail := Hits(child, args[1..], acc');
    assert acc + q == acc' + q[1..];
    if |q| == 1 {
      assert q[1..] == [] && CellKeys(q[1..]) == [] && acc' + q[1..] == acc';
      assert head[0] in head + tail;
    } else {
      HitsComplete(child, args[1..], acc', q[1..]);
      assert (Find(child, CellKeys(q[1..])).value.handlers, acc' + q[1..]) in tail;
    }
  }

  /** The first-level key `get_handler` takes: the message id when present, else the wildcard. */
  function TopKey<H>(root: DNode<H>, id: string): Key {
    if IdKey(id) in root.children then IdKey(id) else CellKey(Wild)
  }

  /**
   * `get_handler(msg_id, *args)` yields exactly the handler sets found along
   * the walk: each yield is the non-empty handler set under the first-level
   * key and a walk path, and each such set is yielded.
   */
  lemma GetHandlerSound<H>(root: DNode<H>, id: string, args: seq<Cell>)
    ensures forall e | e in HandlersOf(root, id, args) ::
      TopKey(root, id) in root.children && Chosen(root.children[TopKey(root, id)], args, e.1) &&
      Find(root, [TopKey(root, id)] + CellKeys(e.1)).Some? &&
      Find(root, [TopKey(root, id)] + CellKeys(e.1)).value.handlers == e.0 && e.0 != {}
  {
    var k := TopKey(root, id);
    if k in root.children {
      var n := root.children[k];
      var head: seq<(set<H>, seq<Cell>)> := if |n.handlers| > 0 then [(n.handlers, [])] else [];
      assert HandlersOf(root, id, args) == head + Hits(n, args, []);
      HitsSound(n, args, []);
      HitsShape(n, args, []);
      forall e | e in HandlersOf(root, id, args)
        ensures Chosen(n, args, e.1) && Find(root, [k] + CellKeys(e.1)) == Find(n, CellKeys(e.1)) &&
          Find(n, CellKeys(e.1)).Some? && Find(n, CellKeys(e.1)).value.handlers == e.0 && e.0 != {}
      {
        FindCons(root, k, CellKeys(e.1));
        if e in head {
          assert CellKeys(e.1) == [];
        } else {
          var i :| 0 <= i < |Hits(n, args, [])| && Hits(n, args, [])[i] == e;
          assert e.1[0..] == e.1;
        }
      }
    }
  }

  lemma GetHandlerComplete<H>(root: DNode<H>, id: string, args: seq<Cell>, q: seq<Cell>)
    requires TopKey(root, id) in root.children && Chosen(root.children[TopKey(root, id)], args, q)
    requires Find(root, [TopKey(root, id)] + CellKeys(q)).Some?
    requires Find(root, [TopKey(root, id)] + CellKeys(q)).value.handlers != {}
    ensures (Find(root, [TopKey(root, id)] + CellKeys(q)).value.handlers, q) in HandlersOf(root, id, args)
  {
    var k := TopKey(root, id);
    var n := root.children[k];
    FindCons(root, k, CellKeys(q));
    var head: seq<(set<H>, seq<Cell>)> := if |n.handlers| > 0 then [(n.handlers, [])] else [];
    assert HandlersOf(root, id, args) == head + Hits(n, args, []);
    if q == [] {
      assert CellKeys(q) == [];
      assert head[0] in head + Hits(n, args, []);
    } else {
      HitsComplete(n, args, [], q);
      assert [] + q == q;
    }
  }

  /** After `add(msg_id, h, mask)`, `get_handler(msg_id, *mask)` ends with a set holding `h` under `mask`. */
  lemma GetHandlerAfterAdd<H>(root: DNode<H>, id: string, h: H, mask: seq<Cell>)
    ensures var r := HandlersOf(AddAt(root, PathOf(id, mask), h), id, mask);
      |r| > 0 && h in r[|r| - 1].0 && r[|r| - 1].1 == mask
  {
    var root' := AddAt(root, PathOf(id, mask), h);
    var p := PathOf(id, mask);
    AddAtFind(root, p, h);
    FindCons(root', IdKey(id), CellKeys(mask));
    AddAtCreatesPath(root, p, h, 1);
    assert p[..1] == [IdKey(id)];
    FindCons(root', IdKey(id), []);
    var n := root'.children[IdKey(id)];
    if mask == [] {
      assert CellKeys(mask) == [];
      assert Hits(n, mask, []) == [];
    } else {
      HitsExact(n, mask, []);
      assert [] + mask == mask;
    }
  }

  // ---------------------------------------------------------------------
  // Properties of cleanup and collection

  /** Pruning removes the final node and nothing else: every remaining node keeps its handlers. */
  lemma {:induction false} PruneKeeps<H>(n: DNode<H>, p: seq<Key>, q: seq<Key>)
    requires |p| > 0 && Find(n, p).Some?
    ensures Find(Prune(n, p), p).None?
    ensures Find(Prune(n, p), q).Some? ==> Find(n, q).Some? && Find(Prune(n, p), q).value.handlers == Find(n, q).value.handlers
    decreases |p|
  {
    if |p| > 1 {
      PruneKeeps(n.children[p[0]], p[1..], if q != [] then q[1..] else q);
      if q != [] && q[0] != p[0] {
        assert Find(Prune(n, p), q) == Find(n, q);
      }
    }
  }

  /** Pruning leaves the parent of the final node in place with one child less. */
  lemma {:induction false} PruneParent<H>(n: DNode<H>, p: seq<Key>)
    requires |p| > 0 && Find(n, p).Some?
    ensures Find(n, p[..|p| - 1]).Some?
    ensures Find(Prune(n, p), p[..|p| - 1]) ==
      Some(DNode(Find(n, p[..|p| - 1]).value.handlers, Find(n, p[..|p| - 1]).value.children - {p[|p| - 1]}))
    decreases |p|
  {
    if |p| > 1 {
      PruneParent(n.children[p[0]], p[1..]);
      assert p[..|p| - 1] == [p[0]] + p[1..][..|p[1..]| - 1];
      FindCons(n, p[0], p[1..][..|p[1..]| - 1]);
      FindCons(Prune(n, p), p[0], p[1..][..|p[1..]| - 1]);
    }
  }

  /** After eviction, no node holds `h`; other handlers stay. */
  lemma {:induction false} EvictFind<H>(n: DNode<H>, h: H, q: seq<Key>)
    ensures Find(Evict(n, h), q).Some? <==> Find(n, q).Some?
    ensures Find(n, q).Some? ==> Find(Evict(n, h), q).value.handlers == Find(n, q).value.handlers - {h}
    decreases |q|
  {
    if q != [] && q[0] in n.children {
      EvictFind(n.children[q[0]], h, q[1..]);
    }
  }

  /** Once the collector has reclaimed `h` and run its finalizers, no node holds `h`. */
  lemma {:induction false} CollectForgets<H>(n: DNode<H>, h: H, order: seq<Finalizer<H>>, q: seq<Key>)
    ensures Find(CleanupAll(Evict(n, h), order), q).Some? ==> h !in Find(CleanupAll(Evict(n, h), order), q).value.handlers
    decreases |order|
  {
    if order == [] {
      EvictFind(n, h, q);
    } else {
      var before := CleanupAll(Evict(n, h), order[..|order| - 1]);
      CollectForgets(n, h, order[..|order| - 1], q);
      var last := order[|order| - 1];
      var p := PathOf(last.id, last.mask);
      var x := Find(before, p);
      if x.Some? && x.value.handlers == {} && x.value.children == map[] {
        PruneKeeps(before, p, q);
      }
    }
  }
}
