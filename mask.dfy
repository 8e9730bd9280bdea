/**
 * Value masks shared by both dispatchers: a cell is a concrete value or the
 * wildcard (Python None), and `filter` computes the arguments handed to a
 * handler once a mask has matched.
 */
module Mask {
  import opened Wrappers

  datatype Cell = Wild | Val(v: int)

  /** The number of concrete (non-None) cells of a mask. */
  function Concrete(mask: seq<Cell>): (k: nat)
    ensures k <= |mask|
    ensures k == 0 <==> forall i | 0 <= i < |mask| :: mask[i] == Wild
  {
    if mask == [] then 0
    else Concrete(mask[..|mask| - 1]) + (if mask[|mask| - 1].Val? then 1 else 0)
  }

  /**
   * What `filter(mask, *args)` returns: it pops the FIRST argument once per
   * concrete cell, whatever the cell's position, and raises IndexError when
   * the arguments run out first.
   */
  function Filtered<A>(mask: seq<Cell>, args: seq<A>): (r: Result<seq<A>>)
    ensures r.Ok? <==> Concrete(mask) <= |args|
    ensures r.Err? ==> r.error == IndexError
    ensures r.Ok? ==> |r.value| == |args| - Concrete(mask) && r.value <= args[|args| - |r.value|..]
  {
    var k := Concrete(mask);
    if k <= |args| then Ok(args[k..]) else Err(IndexError)
  }

  /** The `filter(mask, *args)` loop: one `pop(0)` per concrete cell. */
  method Filter<A>(mask: seq<Cell>, args: seq<A>) returns (r: Result<seq<A>>)
    ensures r == Filtered(mask, args)
  {
    var flt := args;
    for i := 0 to |mask|
      invariant Concrete(mask[..i]) <= |args|
      invariant flt == args[Concrete(mask[..i])..]
    {
      assert mask[..i + 1][..i] == mask[..i];
      if mask[i].Val? {
        if |flt| == 0 {
          assert Concrete(mask) > |args| by {
            assert mask == mask[..i + 1] + mask[i + 1..];
            ConcreteAppend(mask[..i + 1], mask[i + 1..]);
          }
          return Err(IndexError);
        }
        flt := flt[1..];
      }
    }
    assert mask[..|mask|] == mask;
    r := Ok(flt);
  }

  /**
   * Positional filtering: keep the arguments sitting under wildcard cells,
   * and every argument beyond the mask, in order.
   */
  function Positional<A>(mask: seq<Cell>, args: seq<A>): (r: seq<A>)
    ensures |args| >= |mask| ==> |r| == |args| - Concrete(mask)
  {
    if mask == [] || args == [] then args
    else
      var rest := Positional(mask[1..], args[1..]);
      ConcreteCons(mask);
      if mask[0] == Wild then [args[0]] + rest else rest
  }

  lemma {:induction false} ConcreteAppend(a: seq<Cell>, b: seq<Cell>)
    ensures Concrete(a + b) == Concrete(a) + Concrete(b)
    decreases |b|
  {
    if b == [] {
      assert a + b == a;
    } else {
      var b' := b[..|b| - 1];
      assert (a + b)[..|a + b| - 1] == a + b';
      ConcreteAppend(a, b');
    }
  }

  lemma ConcreteCons(mask: seq<Cell>)
    requires mask != []
    ensures Concrete(mask) == (if mask[0].Val? then 1 else 0) + Concrete(mask[1..])
  {
    assert mask == [mask[0]] + mask[1..];
    ConcreteAppend([mask[0]], mask[1..]);
  }

  /** Masks whose wildcards all come after their concrete cells, as the MIDI codecs produce them. */
  predicate TrailingWildcards(mask: seq<Cell>) {
    forall i, j | 0 <= i < j < |mask| :: mask[i] == Wild ==> mask[j] == Wild
  }

  // ---------------------------------------------------------------------
  // Properties

  /**
   * With wildcards only at the end and at least as many arguments as cells,
   * dropping the first k arguments is the same as dropping the concrete
   * positions.
   */
  lemma {:induction false} TrailingFilterIsPositional<A>(mask: seq<Cell>, args: seq<A>)
    requires TrailingWildcards(mask) && |args| >= |mask|
    ensures Filtered(mask, args) == Ok(Positional(mask, args))
  {
    if mask != [] {
      ConcreteCons(mask);
      assert TrailingWildcards(mask[1..]) by {
        forall i, j | 0 <= i < j < |mask[1..]| && mask[1..][i] == Wild
          ensures mask[1..][j] == Wild
        {
          assert mask[i + 1] == Wild;
        }
      }
      TrailingFilterIsPositional(mask[1..], args[1..]);
      if mask[0] == Wild {
        assert Concrete(mask) == 0 by {
          forall i | 0 <= i < |mask| ensures mask[i] == Wild {
            if i > 0 { assert mask[0] == Wild; }
          }
        }
        assert Positional(mask[1..], args[1..]) == args[1..];
        assert [args[0]] + args[1..] == args;
      } else {
        assert args[1..][Concrete(mask[1..])..] == args[Concrete(mask)..];
      }
    }
  }

  /** The mask (0, None, 1) against (0, 42, 1): filter returns [1], positional filtering [42]. */
  lemma FilterDropsFirstArguments()
    ensures Filtered([Val(0), Wild, Val(1)], [0, 42, 1]) == Ok([1])
    ensures Positional([Val(0), Wild, Val(1)], [0, 42, 1]) == [42]
  {
    var mask := [Val(0), Wild, Val(1)];
    assert mask[..2] == [Val(0), Wild] && mask[..2][..1] == [Val(0)];
    assert Concrete([Val(0)]) == 1 by { assert [Val(0)][..0] == []; }
    assert Concrete(mask) == 2;
    assert mask[1..] == [Wild, Val(1)] && mask[1..][1..] == [Val(1)];
  }
}
