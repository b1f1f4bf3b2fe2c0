/**
  The freezer state of one cgroup, the tokens that name the states in the
  `freezer.state` control file, and the parsing of a token written to it.
 */
module FreezerStates {
  import opened Options

  /** The three states of a cgroup's freezer, in the order of the C enumeration
      (RUNNING = 0, FREEZING = 1, FROZEN = 2). */
  datatype FreezerState = Running | Freezing | Frozen

  /** The enumeration value of a state, used to index the token table. */
  function Ordinal(s: FreezerState): (n: nat)
    ensures n < |StateStrs|
  {
    match s
    case Running => 0
    case Freezing => 1
    case Frozen => 2
  }

  /** The token table, indexed by enumeration value. */
  const StateStrs: seq<string> := ["RUNNING", "FREEZING", "FROZEN"]

  /** The token that names a state. */
  function StateStr(s: FreezerState): (tok: string)
    ensures tok == "RUNNING" <==> s == Running
    ensures tok == "FREEZING" <==> s == Freezing
    ensures tok == "FROZEN" <==> s == Frozen
  {
    StateStrs[Ordinal(s)]
  }

  /** Distinct states have distinct tokens, so a token read back names exactly one state. */
  lemma StateStrInjective(s: FreezerState, t: FreezerState)
    ensures StateStr(s) == StateStr(t) <==> s == t
  {
    if s != t {
      // The tokens already differ in their second or fourth character.
      assert StateStr(s)[1] != StateStr(t)[1] || StateStr(s)[3] != StateStr(t)[3];
    }
  }

  /** The C string held in a written buffer: its characters up to, and not
      including, the first NUL. This is all that `strcmp` looks at. */
  function CString(buf: string): (str: string)
    ensures str <= buf
    ensures '\0' !in str
    ensures |str| < |buf| ==> buf[|str|] == '\0'
    ensures '\0' !in buf ==> str == buf
  {
    if |buf| == 0 || buf[0] == '\0' then []
    else [buf[0]] + CString(buf[1..])
  }

  /** Turns the buffer written to the control file into a goal state. Only
      the tokens of RUNNING and FROZEN are accepted, compared as C strings;
      FREEZING is not a goal. */
  function ParseGoal(buf: string): (goal: Option<FreezerState>)
    ensures goal.Some? <==> CString(buf) == "RUNNING" || CString(buf) == "FROZEN"
    ensures goal.Some? ==> goal.value != Freezing && StateStr(goal.value) == CString(buf)
  {
    var str := CString(buf);
    if str == StateStrs[Ordinal(Running)] then Some(Running)
    else if str == StateStrs[Ordinal(Frozen)] then Some(Frozen)
    else None
  }

  /** Characters after a NUL do not take part in the comparison, so a goal
      token followed by a NUL and anything else is accepted. */
  lemma ParseGoalStopsAtNul(s: FreezerState, rest: string)
    requires s != Freezing
    ensures ParseGoal(StateStr(s) + "\0" + rest) == Some(s)
  {
    var buf := StateStr(s) + "\0" + rest;
    var tok := StateStr(s);
    assert buf[..|tok|] == tok && buf[|tok|] == '\0';
    CStringPrefix(tok, "\0" + rest);
  }

  /** Appending to a NUL-free buffer text that starts with a NUL leaves its C string unchanged. */
  lemma {:induction false} CStringPrefix(str: string, tail: string)
    requires '\0' !in str
    requires |tail| > 0 && tail[0] == '\0'
    ensures CString(str + tail) == str
  {
    if |str| > 0 {
      assert (str + tail)[1..] == str[1..] + tail;
      CStringPrefix(str[1..], tail);
    } else {
      assert str + tail == tail;
    }
  }

  /** Parsing is the inverse of naming on the two goal states, and rejects the
      token of the intermediate state. */
  lemma ParseGoalRoundTrip(s: FreezerState)
    ensures ParseGoal(StateStr(s)) == (if s == Freezing then None else Some(s))
  {
    if s == Freezing {
      StateStrInjective(Freezing, Running);
      StateStrInjective(Freezing, Frozen);
    }
  }
}
