/**
 * The Python list operations the tree nodes build on, as functions on
 * sequences: the clamped insertion position of `insert_child`, negative
 * indices, `list.insert`, `list.pop(i)`, `list.index(x)`, and the index a
 * cue ends with after `_sync_cues_indices`.
 */
module Lists {
  import opened Wrappers

  /** The position `insert_child(index, ...)` inserts at: an index outside `0..n` appends. */
  function Clamp(index: int, n: nat): nat {
    if 0 <= index <= n then index else n
  }

  /** The list position Python's `pop(index)` addresses: a negative index counts from the end. */
  function Position(index: int, n: nat): int {
    if index < 0 then index + n else index
  }

  /** `list.insert(i, x)` for an in-range position. */
  function Inserted<T>(s: seq<T>, i: nat, x: T): (r: seq<T>)
    requires i <= |s|
    ensures |r| == |s| + 1 && r[i] == x
    ensures r[..i] == s[..i] && r[i + 1..] == s[i..]
  {
    s[..i] + [x] + s[i..]
  }

  /** The list once the element at position `j` is popped. */
  function RemovedAt<T>(s: seq<T>, j: nat): (r: seq<T>)
    requires j < |s|
    ensures |r| == |s| - 1
    ensures r[..j] == s[..j] && r[j..] == s[j + 1..]
  {
    s[..j] + s[j + 1..]
  }

  /** `list.index(x)`: the first position holding `x`, or ValueError. */
  function IndexOf<T(==)>(s: seq<T>, x: T): (r: Result<nat>)
    ensures r.Ok? <==> x in s
    ensures r.Err? ==> r.error == ValueError
    ensures r.Ok? ==> r.value < |s| && s[r.value] == x && x !in s[..r.value]
  {
    if s == [] then Err(ValueError)
    else if s[0] == x then Ok(0)
    else
      match IndexOf(s[1..], x)
      case Ok(i) =>
        assert s[..i + 1] == [s[0]] + s[1..][..i];
        Ok(i + 1)
      case Err(e) => Err(e)
  }

  /**
   * The index of the cue at position `j` of an `n`-element list once
   * `_sync_cues_indices` has written `children[k].cue.index = k` for each
   * `k` in `start..stop`, the cues being distinct: a non-negative `k`
   * writes position `k`, a negative one position `k + n`, and the later
   * write wins; `v` is the index the cue had before.
   */
  function Synced(start: int, stop: int, n: nat, j: nat, v: int): int {
    if start <= j < stop then j
    else if start <= j - n < stop then j - n
    else v
  }

  // ---------------------------------------------------------------------
  // Properties

  /** Popping the position just inserted at gives the list back. */
  lemma RemoveInserted<T>(s: seq<T>, i: nat, x: T)
    requires i <= |s|
    ensures RemovedAt(Inserted(s, i, x), i) == s
  {
    assert Inserted(s, i, x)[..i] + Inserted(s, i, x)[i + 1..] == s[..i] + s[i..];
    assert s[..i] + s[i..] == s;
  }

  /** An element new to the list is found exactly where it was inserted. */
  lemma IndexOfInserted<T>(s: seq<T>, i: nat, x: T)
    requires i <= |s| && x !in s
    ensures IndexOf(Inserted(s, i, x), x) == Ok(i)
  {
    var r := Inserted(s, i, x);
    assert x !in r[..i] by {
      assert r[..i] == s[..i];
      assert forall y | y in s[..i] :: y in s;
    }
  }

  /**
   * A full synchronisation (`stop` the length) from a start no lower than
   * `-n` leaves every position from `start` on holding its own index and
   * the positions before it untouched.
   */
  lemma SyncedToEnd(start: int, n: nat, j: nat, v: int)
    requires start + n >= 0 && j < n
    ensures Synced(start, n, n, j, v) == if start <= j then j else v
  {
  }
}
