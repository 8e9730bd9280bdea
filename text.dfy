/**
 * The parts of Python's string handling that the MIDI key codecs use:
 * `str.split()` with no separator, `' '.join(...)`, `str(i)` of an int and
 * `int(token)`.
 */
module Text {
  import opened Wrappers

  /** Python's whitespace, restricted to the ASCII range. */
  predicate IsSpace(c: char) {
    // '\t', '\n', '\x0b', '\x0c', '\r', then '\x1c' to '\x1f' and ' '
    9 <= c as int <= 13 || 28 <= c as int <= 32
  }

  /** A token as `str.split()` produces it: non-empty, no whitespace. */
  predicate IsToken(t: string) {
    |t| > 0 && forall i | 0 <= i < |t| :: !IsSpace(t[i])
  }

  /** Drops the leading whitespace of `s`. */
  function DropSpaces(s: string): (r: string)
    ensures |r| <= |s| && r == s[|s| - |r|..]
    ensures r == [] || !IsSpace(r[0])
  {
    if s == [] || !IsSpace(s[0]) then s else DropSpaces(s[1..])
  }

  /** The longest prefix of `s` without whitespace. */
  function TakeToken(s: string): (r: string)
    ensures r <= s
    ensures forall i | 0 <= i < |r| :: !IsSpace(r[i])
    ensures |r| == |s| || IsSpace(s[|r|])
  {
    if s == [] || IsSpace(s[0]) then [] else [s[0]] + TakeToken(s[1..])
  }

  /** Python `s.split()`: the maximal runs of non-whitespace, in order. */
  function Split(s: string): (r: seq<string>)
    ensures forall t | t in r :: IsToken(t)
    decreases |s|
  {
    var s' := DropSpaces(s);
    if s' == [] then []
    else
      var t := TakeToken(s');
      assert |t| > 0 by { assert !IsSpace(s'[0]); }
      assert IsToken(t);
      var rest := Split(s'[|t|..]);
      [t] + rest
  }

  /** Python `sep.join(ts)`. */
  function Join(sep: string, ts: seq<string>): string {
    if |ts| == 0 then ""
    else if |ts| == 1 then ts[0]
    else ts[0] + sep + Join(sep, ts[1..])
  }

  function DigitChar(d: nat): char
    requires d < 10
  {
    ('0' as int + d) as char
  }

  predicate IsDigit(c: char) {
    '0' <= c <= '9'
  }

  function DigitValue(c: char): nat
    requires IsDigit(c)
  {
    (c as int - '0' as int) as nat
  }

  /** Decimal digits of a natural number, most significant first, no leading zeros. */
  function NatToString(n: nat): (r: string)
    ensures |r| > 0 && forall i | 0 <= i < |r| :: IsDigit(r[i])
  {
    if n < 10 then [DigitChar(n)] else NatToString(n / 10) + [DigitChar(n % 10)]
  }

  /** Python `str(i)` for an int. */
  function IntToString(i: int): (r: string)
    ensures IsToken(r)
  {
    if i < 0 then "-" + NatToString(-i) else NatToString(i)
  }

  /** The value of a string of decimal digits. */
  function DigitsValue(s: string): nat
    requires forall i | 0 <= i < |s| :: IsDigit(s[i])
  {
    if s == [] then 0 else 10 * DigitsValue(s[..|s| - 1]) + DigitValue(s[|s| - 1])
  }

  predicate AllDigits(s: string) {
    |s| > 0 && forall i | 0 <= i < |s| :: IsDigit(s[i])
  }

  /**
   * Python `int(t)` for a token: an optional sign followed by decimal digits;
   * anything else raises ValueError.
   */
  function ParseInt(t: string): (r: Result<int>)
    ensures r.Ok? ==> |t| > 0
    ensures r.Err? ==> r.error == ValueError
  {
    if |t| > 0 && (t[0] == '-' || t[0] == '+') then
      if AllDigits(t[1..]) then
        var magnitude: int := DigitsValue(t[1..]);
        Ok(if t[0] == '-' then -magnitude else magnitude)
      else Err(ValueError)
    else if AllDigits(t) then Ok(DigitsValue(t))
    else Err(ValueError)
  }

  /** `int(i) for i in ts`, evaluated in full: the first bad token raises. */
  function ParseInts(ts: seq<string>): (r: Result<seq<int>>)
    ensures r.Ok? ==> |r.value| == |ts|
    ensures r.Ok? ==> forall i | 0 <= i < |ts| :: ParseInt(ts[i]) == Ok(r.value[i])
    ensures r.Err? ==> exists i | 0 <= i < |ts| :: ParseInt(ts[i]).Err?
    ensures r.Err? ==> r.error == ValueError
  {
    if ts == [] then Ok([])
    else match ParseInt(ts[0])
      case Err(e) => Err(e)
      case Ok(v) =>
        match ParseInts(ts[1..])
        case Err(e) => Err(e)
        case Ok(vs) => Ok([v] + vs)
  }

  /** `int(i) for i in ts[1:]`, stated over the positions of `ts`. */
  lemma ParseIntsTail(ts: seq<string>)
    requires |ts| > 0
    ensures ParseInts(ts[1..]).Err? <==> exists i | 1 <= i < |ts| :: ParseInt(ts[i]).Err?
    ensures ParseInts(ts[1..]).Ok? ==> forall i | 1 <= i < |ts| :: ParseInt(ts[i]) == Ok(ParseInts(ts[1..]).value[i - 1])
  {
    var tail := ts[1..];
    assert forall i | 1 <= i < |ts| :: ts[i] == tail[i - 1];
    if ParseInts(tail).Err? {
      var j :| 0 <= j < |tail| && ParseInt(tail[j]).Err?;
      assert ParseInt(ts[j + 1]).Err?;
    }
  }

  /** `str(i) for i in vs`. */
  function IntStrings(vs: seq<int>): (r: seq<string>)
    ensures |r| == |vs| && forall i | 0 <= i < |vs| :: r[i] == IntToString(vs[i])
  {
    if vs == [] then [] else [IntToString(vs[0])] + IntStrings(vs[1..])
  }

  // ---------------------------------------------------------------------
  // Round trips

  lemma {:induction false} DigitsOfNat(n: nat)
    ensures DigitsValue(NatToString(n)) == n
  {
    if n >= 10 {
      var s := NatToString(n / 10);
      var full := s + [DigitChar(n % 10)];
      assert full[..|full| - 1] == s;
      DigitsOfNat(n / 10);
    }
  }

  /** `int(str(i)) == i`. */
  lemma ParseIntToString(i: int)
    ensures ParseInt(IntToString(i)) == Ok(i)
  {
    var t := IntToString(i);
    if i < 0 {
      var digits := NatToString(-i);
      assert t == "-" + digits;
      assert t[0] == '-' && t[1..] == digits;
      assert AllDigits(digits);
      DigitsOfNat(-i);
    } else {
      assert t == NatToString(i);
      assert t[0] != '-' && t[0] != '+' by { assert IsDigit(t[0]); }
      DigitsOfNat(i);
    }
  }

  lemma {:induction false} ParseIntsOfStrings(vs: seq<int>)
    ensures ParseInts(IntStrings(vs)) == Ok(vs)
  {
    if vs != [] {
      var ts := IntStrings(vs);
      ParseIntToString(vs[0]);
      ParseIntsOfStrings(vs[1..]);
      assert ts[0] == IntToString(vs[0]);
      assert ts[1..] == IntStrings(vs[1..]);
      assert [vs[0]] + vs[1..] == vs;
    }
  }

  lemma {:induction false} DropSpacesAfterSpace(c: char, s: string)
    requires IsSpace(c)
    ensures DropSpaces([c] + s) == DropSpaces(s)
  {
    assert ([c] + s)[1..] == s;
  }

  lemma {:induction false} TakeTokenOfToken(t: string, rest: string)
    requires forall i | 0 <= i < |t| :: !IsSpace(t[i])
    requires rest == [] || IsSpace(rest[0])
    ensures TakeToken(t + rest) == t
    decreases |t|
  {
    if t != [] {
      assert (t + rest)[1..] == t[1..] + rest;
      TakeTokenOfToken(t[1..], rest);
    }
  }

  /** Splitting a token followed by whitespace and `rest` gives the token, then the split of `rest`. */
  lemma SplitCons(t: string, rest: string)
    requires IsToken(t)
    ensures Split(t + " " + rest) == [t] + Split(rest)
  {
    var s := t + " " + rest;
    assert DropSpaces(s) == s;
    assert s == t + (" " + rest);
    TakeTokenOfToken(t, " " + rest);
    assert s[|t|..] == [' '] + rest;
    DropSpacesAfterSpace(' ', rest);
  }

  lemma SplitToken(t: string)
    requires IsToken(t)
    ensures Split(t) == [t]
  {
    assert DropSpaces(t) == t;
    assert t == t + [];
    TakeTokenOfToken(t, []);
    assert t[|t|..] == [];
  }

  /** `(t + ' ').split() == [t]`. */
  lemma SplitTokenSpace(t: string)
    requires IsToken(t)
    ensures Split(t + " ") == [t]
  {
    SplitCons(t, "");
    assert t + " " + "" == t + " ";
  }

  /** `' '.join(ts).split() == ts` when every element is a token. */
  lemma {:induction false} SplitJoin(ts: seq<string>)
    requires forall i | 0 <= i < |ts| :: IsToken(ts[i])
    ensures Split(Join(" ", ts)) == ts
  {
    if |ts| == 0 {
    } else if |ts| == 1 {
      SplitToken(ts[0]);
    } else {
      SplitJoin(ts[1..]);
      SplitCons(ts[0], Join(" ", ts[1..]));
    }
  }

  /** `' '.join(ts)` is empty only for no tokens. */
  lemma JoinNonEmpty(ts: seq<string>)
    requires |ts| > 0 && IsToken(ts[0])
    ensures |Join(" ", ts)| > 0
  {
  }
}
