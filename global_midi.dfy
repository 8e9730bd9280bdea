/**
 * The key codec of the global controller module's MIDI protocol: a key is
 * the message type and its integer attributes joined by spaces, and the
 * last attribute of a long key can be replaced by the wildcard '-1'.
 */
module GlobalMidi {
  import opened Wrappers
  import opened Text

  /** A Python tuple `(type, *ints)`, or the empty tuple `()`. */
  datatype Fields = NoFields | Fields(msgType: string, values: seq<int>)

  /** `key_from_values(t, *vs)`: the type and the values, joined by single spaces. */
  function KeyFromValues(t: string, vs: seq<int>): (r: string)
    ensures IsToken(t) ==> |r| > 0
  {
    Join(" ", [t] + IntStrings(vs))
  }

  /** `values_from_key(s)`: `()` for '', else the first token and the ints of the rest. */
  function ValuesFromKey(s: string): (r: Result<Fields>)
    ensures s == "" <==> r == Ok(NoFields)
    ensures r.Ok? && r.value.Fields? ==> Split(s) != [] && r.value.msgType == Split(s)[0]
    ensures r.Ok? && r.value.Fields? ==>
      |r.value.values| == |Split(s)| - 1 &&
      forall i | 1 <= i < |Split(s)| :: ParseInt(Split(s)[i]) == Ok(r.value.values[i - 1])
    ensures r.Err? <==> s != "" && (Split(s) == [] || exists i | 1 <= i < |Split(s)| :: ParseInt(Split(s)[i]).Err?)
    ensures r.Err? ==> r.error == if Split(s) == [] then IndexError else ValueError
  {
    if s != "" then
      var tokens := Split(s);
      if |tokens| == 0 then Err(IndexError)
      else
        ParseIntsTail(tokens);
        match ParseInts(tokens[1..])
        case Ok(vs) => Ok(Fields(tokens[0], vs))
        case Err(e) => Err(e)
    else Ok(NoFields)
  }

  /**
   * `wildcard_keys(key)`. The guard `spl_msg[0] is not 'sysex'` compares
   * object identity, which the string's contents do not decide; whether the
   * first token is that very object is the parameter `firstIsSysexObject`,
   * which can only hold when the token reads "sysex".
   */
  function WildcardKeys(key: string, firstIsSysexObject: bool): (r: seq<string>)
    requires firstIsSysexObject ==> Split(key) != [] && Split(key)[0] == "sysex"
    ensures |Split(key)| <= 3 ==> r == []
    ensures |r| <= 1
  {
    var tokens := Split(key);
    if |tokens| > 3 && !firstIsSysexObject then
      [Join(" ", tokens[..|tokens| - 1] + ["-1"])]
    else []
  }

  // ---------------------------------------------------------------------
  // Properties

  /** Decoding an encoded key gives back the type and every value. */
  lemma RoundTrip(t: string, vs: seq<int>)
    requires IsToken(t)
    ensures ValuesFromKey(KeyFromValues(t, vs)) == Ok(Fields(t, vs))
  {
    var ts := [t] + IntStrings(vs);
    assert forall i | 0 <= i < |ts| :: IsToken(ts[i]);
    SplitJoin(ts);
    assert ts[1..] == IntStrings(vs);
    ParseIntsOfStrings(vs);
  }

  /**
   * A key of more than three tokens whose first token is not the 'sysex'
   * object has exactly one wildcard key: the same tokens with the last
   * one replaced by '-1'.
   */
  lemma WildcardKeyShape(key: string)
    requires |Split(key)| > 3
    ensures |WildcardKeys(key, false)| == 1
    ensures var w := Split(WildcardKeys(key, false)[0]);
      |w| == |Split(key)| &&
      w[..|w| - 1] == Split(key)[..|w| - 1] &&
      w[|w| - 1] == "-1"
  {
    var tokens := Split(key);
    var ts := tokens[..|tokens| - 1] + ["-1"];
    WildcardKeysOf(key, tokens);
    SplitReplacedLast(tokens, ts);
  }

  lemma WildcardKeysOf(key: string, tokens: seq<string>)
    requires Split(key) == tokens && |tokens| > 3
    ensures WildcardKeys(key, false) == [Join(" ", tokens[..|tokens| - 1] + ["-1"])]
  {
  }

  lemma SplitReplacedLast(tokens: seq<string>, ts: seq<string>)
    requires |tokens| > 0 && forall t | t in tokens :: IsToken(t)
    requires ts == tokens[..|tokens| - 1] + ["-1"]
    ensures Split(Join(" ", ts)) == ts
  {
    forall i | 0 <= i < |ts| ensures IsToken(ts[i]) {
      if i < |tokens| - 1 {
        assert ts[i] == tokens[i] && tokens[i] in tokens;
      }
    }
    SplitJoin(ts);
  }

  lemma SplitKey(t: string, vs: seq<int>)
    requires IsToken(t)
    ensures Split(KeyFromValues(t, vs)) == [t] + IntStrings(vs)
  {
    var ts := [t] + IntStrings(vs);
    assert forall i | 0 <= i < |ts| :: IsToken(ts[i]);
    SplitJoin(ts);
  }

  lemma IntStringsLastWildcard(vs: seq<int>)
    requires |vs| > 0
    ensures IntStrings(vs)[..|vs| - 1] + ["-1"] == IntStrings(vs[..|vs| - 1] + [-1])
  {
    var n := |vs| - 1;
    calc {
      IntStrings(vs[..n] + [-1]);
      == { IntStringsAppend(vs[..n], -1); }
      IntStrings(vs[..n]) + [IntToString(-1)];
      == { IntStringsPrefix(vs, n); MinusOneString(); }
      IntStrings(vs)[..n] + ["-1"];
    }
  }

  lemma IntStringsAppend(vs: seq<int>, v: int)
    ensures IntStrings(vs + [v]) == IntStrings(vs) + [IntToString(v)]
  {
    var a := IntStrings(vs + [v]);
    var b := IntStrings(vs) + [IntToString(v)];
    assert |a| == |b|;
    forall i | 0 <= i < |a| ensures a[i] == b[i] {
      if i < |vs| {
        assert (vs + [v])[i] == vs[i];
      }
    }
  }

  lemma IntStringsPrefix(vs: seq<int>, n: nat)
    requires n <= |vs|
    ensures IntStrings(vs)[..n] == IntStrings(vs[..n])
  {
    var a := IntStrings(vs)[..n];
    var b := IntStrings(vs[..n]);
    assert |a| == |b|;
    forall i | 0 <= i < n ensures a[i] == b[i] {
      assert vs[..n][i] == vs[i];
    }
  }

  lemma MinusOneString()
    ensures IntToString(-1) == "-1"
  {
    assert NatToString(1) == ['1'];
  }

  /** Encoding the wildcard of a key built from values gives the key of the values with the last one set to -1. */
  lemma WildcardOfEncodedKey(t: string, vs: seq<int>)
    requires IsToken(t) && |vs| > 2
    ensures WildcardKeys(KeyFromValues(t, vs), false) == [KeyFromValues(t, vs[..|vs| - 1] + [-1])]
  {
    var key := KeyFromValues(t, vs);
    var tokens := [t] + IntStrings(vs);
    calc {
      WildcardKeys(key, false);
      == { SplitKey(t, vs); WildcardKeysOf(key, tokens); }
      [Join(" ", tokens[..|tokens| - 1] + ["-1"])];
      == { ReplaceLastCons(t, IntStrings(vs), "-1"); }
      [Join(" ", [t] + (IntStrings(vs)[..|vs| - 1] + ["-1"]))];
      == { IntStringsLastWildcard(vs); }
      [Join(" ", [t] + IntStrings(vs[..|vs| - 1] + [-1]))];
    }
  }

  lemma ReplaceLastCons<T>(x: T, s: seq<T>, y: T)
    requires |s| > 0
    ensures ([x] + s)[..|s|] + [y] == [x] + (s[..|s| - 1] + [y])
  {
    var a := ([x] + s)[..|s|] + [y];
    var b := [x] + (s[..|s| - 1] + [y]);
    assert |a| == |b|;
    forall i | 0 <= i < |a| ensures a[i] == b[i] {
      if 0 < i < |s| {
        assert a[i] == s[i - 1];
      }
    }
  }
}
