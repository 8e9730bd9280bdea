/**
 * The static key codec of the controller plugin's MIDI protocol: a message
 * string is the message type followed by space-separated integers, and the
 * value -1 is a trailing wildcard that is left out of the string.
 */
module ControllerMidi {
  import opened Wrappers
  import opened Text

  /** An incoming MIDI message, of which the codec reads only the type. */
  datatype Message = Message(msgType: string, channel: int, data: seq<int>)

  /** A Python tuple `(type, *ints)`, or the empty tuple `()`. */
  datatype Fields = NoFields | Fields(msgType: string, values: seq<int>)

  /** `id_from_message(*args)`: the type of the first message, or None without one. */
  function IdFromMessage(args: seq<Message>): (r: Option<string>)
    ensures r.None? <==> |args| == 0
    ensures r.Some? ==> r.value == args[0].msgType
  {
    if |args| > 0 then Some(args[0].msgType) else None
  }

  /** Position of the first `x` in `s`, as Python `s.index(x)`. */
  function IndexOf(s: seq<int>, x: int): (k: nat)
    requires x in s
    ensures k < |s| && s[k] == x && x !in s[..k]
  {
    if s[0] == x then 0 else 1 + IndexOf(s[1..], x)
  }

  /** The values greater than -1, in order (`i for i in vs if i > -1`). */
  function NonNegative(vs: seq<int>): (r: seq<int>)
    ensures forall v | v in r :: v > -1
    ensures forall v :: multiset(r)[v] == if v > -1 then multiset(vs)[v] else 0
    ensures |r| <= |vs|
  {
    if vs == [] then []
    else
      assert vs == [vs[0]] + vs[1..];
      if vs[0] > -1 then [vs[0]] + NonNegative(vs[1..])
      else NonNegative(vs[1..])
  }

  /** Every value from the first -1 onwards is negative: the wildcards only trail. */
  predicate WildcardsTrail(vs: seq<int>)
    requires -1 in vs
  {
    var k := IndexOf(vs, -1);
    forall j | k <= j < |vs| :: vs[j] < 0
  }

  /**
   * `str_from_values(t, *vs)`. Without -1 this is the space-join of the
   * type and the values; with trailing wildcards the type, a space and the
   * join of the non-negative values; a non-negative value after a -1 gives ''.
   */
  function StrFromValues(t: string, vs: seq<int>): (r: string)
    ensures -1 in vs && !WildcardsTrail(vs) ==> r == ""
    ensures -1 !in vs ==> r == Join(" ", [t] + IntStrings(vs))
  {
    if -1 in vs then
      if WildcardsTrail(vs) then t + " " + Join(" ", IntStrings(NonNegative(vs)))
      else ""
    else Join(" ", [t] + IntStrings(vs))
  }

  /** `values_from_str(s)`: `()` for '', else the first token and the ints of the rest. */
  function ValuesFromStr(s: string): (r: Result<Fields>)
    ensures s == "" <==> r == Ok(NoFields)
    ensures r.Ok? && r.value.Fields? ==> Split(s) != [] && r.value.msgType == Split(s)[0]
    ensures r.Ok? && r.value.Fields? ==>
      |r.value.values| == |Split(s)| - 1 &&
      forall i | 1 <= i < |Split(s)| :: ParseInt(Split(s)[i]) == Ok(r.value.values[i - 1])
    ensures r.Err? <==> s != "" && (Split(s) == [] || exists i | 1 <= i < |Split(s)| :: ParseInt(Split(s)[i]).Err?)
    ensures r.Err? ==> r.error == if Split(s) == [] then IndexError else ValueError
  {
    if s != "" then
      var tokens := Split(s);
      if |tokens| == 0 then Err(IndexError)
      else
        ParseIntsTail(tokens);
        match ParseInts(tokens[1..])
        case Ok(vs) => Ok(Fields(tokens[0], vs))
        case Err(e) => Err(e)
    else Ok(NoFields)
  }

  /** `parse_id(s)`: the first token, or '' for ''; a blank string raises IndexError. */
  function ParseId(s: string): (r: Result<string>)
    ensures s == "" ==> r == Ok("")
    ensures r.Err? <==> s != "" && Split(s) == []
    ensures r.Err? ==> r.error == IndexError
    ensures s != "" && r.Ok? ==> r.value == Split(s)[0] && IsToken(r.value)
  {
    if s != "" then
      var tokens := Split(s);
      if |tokens| == 0 then Err(IndexError) else Ok(tokens[0])
    else Ok("")
  }

  /** `parse_mask(s)`: the ints of every token after the first, or () for ''. */
  function ParseMask(s: string): (r: Result<seq<int>>)
    ensures s == "" || Split(s) == [] ==> r == Ok([])
    ensures r.Ok? && s != "" && Split(s) != [] ==>
      |r.value| == |Split(s)| - 1 &&
      forall i | 1 <= i < |Split(s)| :: ParseInt(Split(s)[i]) == Ok(r.value[i - 1])
    ensures r.Err? <==> s != "" && Split(s) != [] && exists i | 1 <= i < |Split(s)| :: ParseInt(Split(s)[i]).Err?
    ensures r.Err? ==> r.error == ValueError
  {
    if s != "" then
      var tokens := Split(s);
      if |tokens| == 0 then Ok([])
      else
        ParseIntsTail(tokens);
        ParseInts(tokens[1..])
    else Ok([])
  }

  // ---------------------------------------------------------------------
  // Properties

  /** For a non-empty string that parses, `parse_id` and `parse_mask` are the two parts of `values_from_str`. */
  lemma ParseIdMaskAgree(s: string)
    requires s != "" && ValuesFromStr(s).Ok?
    ensures ValuesFromStr(s).value.Fields?
    ensures ParseId(s) == Ok(ValuesFromStr(s).value.msgType)
    ensures ParseMask(s) == Ok(ValuesFromStr(s).value.values)
  {
  }

  /** The values kept keep their order: filtering a concatenation filters each part. */
  lemma {:induction false} NonNegativeAppend(a: seq<int>, b: seq<int>)
    ensures NonNegative(a + b) == NonNegative(a) + NonNegative(b)
    decreases |a|
  {
    if a == [] {
      assert a + b == b;
    } else {
      assert (a + b)[0] == a[0] && (a + b)[1..] == a[1..] + b;
      NonNegativeAppend(a[1..], b);
      var head := if a[0] > -1 then [a[0]] else [];
      assert NonNegative(a) == head + NonNegative(a[1..]);
      assert NonNegative(a + b) == head + NonNegative(a[1..] + b);
    }
  }

  /** Without wildcards, decoding the encoded values gives back the type and every value. */
  lemma RoundTrip(t: string, vs: seq<int>)
    requires IsToken(t) && -1 !in vs
    ensures ValuesFromStr(StrFromValues(t, vs)) == Ok(Fields(t, vs))
  {
    var ts := [t] + IntStrings(vs);
    assert forall i | 0 <= i < |ts| :: IsToken(ts[i]);
    SplitJoin(ts);
    assert ts[1..] == IntStrings(vs);
    ParseIntsOfStrings(vs);
  }

  /** With trailing wildcards, decoding gives back the type and the non-negative values: the -1 cells are dropped. */
  lemma RoundTripTrailingWildcards(t: string, vs: seq<int>)
    requires IsToken(t) && -1 in vs && WildcardsTrail(vs)
    ensures ValuesFromStr(StrFromValues(t, vs)) == Ok(Fields(t, NonNegative(vs)))
  {
    var kept := NonNegative(vs);
    var strs := IntStrings(kept);
    var s := t + " " + Join(" ", strs);
    assert StrFromValues(t, vs) == s;
    SplitHeadJoin(t, strs);
    assert ([t] + strs)[1..] == strs;
    ParseIntsOfStrings(kept);
  }

  lemma SplitHeadJoin(t: string, strs: seq<string>)
    requires IsToken(t) && forall i | 0 <= i < |strs| :: IsToken(strs[i])
    ensures Split(t + " " + Join(" ", strs)) == [t] + strs
  {
    if |strs| == 0 {
      SplitHeadOnly(t, strs);
    } else {
      SplitJoin(strs);
      SplitCons(t, Join(" ", strs));
    }
  }

  lemma SplitHeadOnly(t: string, strs: seq<string>)
    requires IsToken(t) && strs == []
    ensures Split(t + " " + Join(" ", strs)) == [t]
  {
    assert t + " " + Join(" ", strs) == t + " ";
    SplitTokenSpace(t);
  }

  /** A non-negative value after a -1 cannot be encoded: the string is '' and decodes to (). */
  lemma MisplacedWildcard(t: string, vs: seq<int>, j: nat)
    requires j < |vs| && -1 in vs[..j] && vs[j] >= 0
    ensures StrFromValues(t, vs) == ""
    ensures ValuesFromStr(StrFromValues(t, vs)) == Ok(NoFields)
  {
    assert -1 in vs by { assert vs[..j] <= vs; }
    var k := IndexOf(vs, -1);
    assert k < j by {
      var i :| 0 <= i < j && vs[..j][i] == -1;
      assert vs[i] == -1;
    }
  }
}
