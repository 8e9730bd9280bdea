/**
 * The controller plugin's common definitions: the session actions, the
 * per-layout callback tables with the parameter types each callback takes,
 * and the registry of protocols looked up by case-insensitive name.
 */
module ControllerCommon {
  import opened Wrappers

  datatype SessionAction =
    | Go | PauseAll | ResumeAll | StopAll | InterruptAll | SelectNext | SelectPrev | Reset
    | PauseSelected | ResumeSelected | StopSelected | InterruptSelected
    | GoNum | PauseNum | ResumeNum | StopNum | InterruptNum | SelectNum | Page

  /** A parameter type of a callback; the tables only use Python's `int`. */
  datatype ParamType = IntType

  /** A table entry: the layout method's name and its parameter types. */
  datatype Callback = Callback(name: string, params: seq<ParamType>)

  /** The layout class handed to `parameter`, compared by identity. */
  datatype Layout = ListLayout | CartLayout | OtherLayout

  /** `__CMD_LIST`. */
  function ListTable(): map<SessionAction, Callback> {
    map[
      Go := Callback("go", []),
      PauseAll := Callback("pause_all", []),
      ResumeAll := Callback("restart_all", []),
      StopAll := Callback("stop_all", []),
      InterruptAll := Callback("interrupt_all", []),
      SelectNext := Callback("select_next", []),
      SelectPrev := Callback("select_prev", []),
      Reset := Callback("reset", []),
      PauseSelected := Callback("pause_selected", []),
      ResumeSelected := Callback("resume_selected", []),
      StopSelected := Callback("stop_selected", []),
      InterruptSelected := Callback("interrupt_selected", []),
      GoNum := Callback("go_num", [IntType]),
      PauseNum := Callback("pause_at_index", [IntType]),
      ResumeNum := Callback("restart_at_index", [IntType]),
      StopNum := Callback("stop_at_index", [IntType]),
      InterruptNum := Callback("interrupt_at_index", [IntType]),
      SelectNum := Callback("set_current_index", [IntType])
    ]
  }

  /** `__CMD_CART`. */
  function CartTable(): map<SessionAction, Callback> {
    map[Page := Callback("setCurrentIndex", [IntType])]
  }

  /** The actions that address a cue or page by index. */
  predicate TakesIndex(a: SessionAction) {
    a in {GoNum, PauseNum, ResumeNum, StopNum, InterruptNum, SelectNum, Page}
  }

  /** `SessionCallbacks.parameter(layout, action)`: the parameter types of the layout's callback for the action. */
  function Parameter(layout: Layout, a: SessionAction): (r: Result<seq<ParamType>>)
    ensures r.Err? ==> r.error == TypeError
    ensures layout == ListLayout ==> (r.Ok? <==> a in ListTable()) && (r.Ok? ==> r.value == ListTable()[a].params)
    ensures layout == CartLayout ==> (r.Ok? <==> a in CartTable()) && (r.Ok? ==> r.value == CartTable()[a].params)
    ensures layout == OtherLayout ==> r.Err?
  {
    match layout
    case ListLayout => if a in ListTable() then Ok(ListTable()[a].params) else Err(TypeError)
    case CartLayout => if a in CartTable() then Ok(CartTable()[a].params) else Err(TypeError)
    case OtherLayout => Err(TypeError)
  }

  /** The list layout handles every action but `Page`; the index actions take one int, the others nothing. */
  lemma ListParameters(a: SessionAction)
    ensures Parameter(ListLayout, a) == if a == Page then Err(TypeError) else Ok(if TakesIndex(a) then [IntType] else [])
  {
    match a
    case Go =>
    case PauseAll =>
    case ResumeAll =>
    case StopAll =>
    case InterruptAll =>
    case SelectNext =>
    case SelectPrev =>
    case Reset =>
    case PauseSelected =>
    case ResumeSelected =>
    case StopSelected =>
    case InterruptSelected =>
    case GoNum =>
    case PauseNum =>
    case ResumeNum =>
    case StopNum =>
    case InterruptNum =>
    case SelectNum =>
    case Page =>
  }

  /** The cart layout handles `Page` alone, with one int. */
  lemma CartParameters(a: SessionAction)
    ensures Parameter(CartLayout, a) == if a == Page then Ok([IntType]) else Err(TypeError)
  {
  }

  // ---------------------------------------------------------------------
  // The protocol registry

  /** `str.lower()` restricted to ASCII letters. */
  function LowerChar(c: char): char {
    if 'A' <= c <= 'Z' then (c as int - 'A' as int + 'a' as int) as char else c
  }

  function Lower(s: string): (r: string)
    ensures |r| == |s| && forall i | 0 <= i < |s| :: r[i] == LowerChar(s[i])
  {
    seq(|s|, i requires 0 <= i < |s| => LowerChar(s[i]))
  }

  /** `populate_protocol(name, p)` on the registry's dict. */
  function Populated<P>(protocols: map<string, P>, name: string, p: P): map<string, P> {
    protocols[Lower(name) := p]
  }

  /** `get_protocol(name)`: KeyError for an unknown name. */
  function Lookup<P>(protocols: map<string, P>, name: string): (r: Result<P>)
    ensures r.Err? <==> Lower(name) !in protocols
    ensures r.Err? ==> r.error == KeyError
    ensures r.Ok? ==> r.value == protocols[Lower(name)]
  {
    if Lower(name) in protocols then Ok(protocols[Lower(name)]) else Err(KeyError)
  }

  /** A registered protocol is found under any name that lowers to the same string; other names are unaffected. */
  lemma LookupPopulated<P>(protocols: map<string, P>, name: string, p: P, query: string)
    ensures Lower(query) == Lower(name) ==> Lookup(Populated(protocols, name, p), query) == Ok(p)
    ensures Lower(query) != Lower(name) ==> Lookup(Populated(protocols, name, p), query) == Lookup(protocols, query)
  {
  }

  /** Names that differ only in ASCII case denote the same protocol. */
  lemma {:induction false} LowerIdempotent(s: string)
    ensures Lower(Lower(s)) == Lower(s)
  {
    assert forall i | 0 <= i < |s| :: LowerChar(LowerChar(s[i])) == LowerChar(s[i]);
  }

  /** `ControllerCommon`'s protocol dict. */
  class ProtocolRegistry<P> {
    var protocols: map<string, P>

    constructor()
      ensures protocols == map[]
    {
      protocols := map[];
    }

    method PopulateProtocol(name: string, p: P)
      modifies this
      ensures protocols == Populated(old(protocols), name, p)
    {
      protocols := protocols[Lower(name) := p];
    }

    method GetProtocol(name: string) returns (r: Result<P>)
      ensures r == Lookup(protocols, name)
    {
      var key := Lower(name);
      if key !in protocols {
        return Err(KeyError);
      }
      r := Ok(protocols[key]);
    }
  }
}
