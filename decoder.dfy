/** Power states, the table that names them, and the conversion of a
    sysevent value string into a power state (source/pwrMgr.c:89-124). */
module Decoder {

  /** PWRMGR_STATE_NONE, PWRMGR_STATE_AC and PWRMGR_STATE_BATT. */
  datatype PowerState = None | AC | Batt

  /** One entry of powerStateArr: a state and the sysevent string naming it. */
  datatype PowerStateItem = PowerStateItem(state: PowerState, text: string)

  /** powerStateArr, in the source's order. */
  const PowerStateTable: seq<PowerStateItem> := [
    PowerStateItem(None, "NONE"),
    PowerStateItem(AC, "POWER_TRANS_AC"),
    PowerStateItem(Batt, "POWER_TRANS_BATTERY")
  ]

  /** The string a C function such as strcmp sees in a character buffer:
      everything before the first NUL, or the whole buffer when it has none. */
  function CString(buf: seq<char>): (r: string)
    ensures r <= buf
    ensures '\0' !in r
    ensures |r| < |buf| ==> buf[|r|] == '\0'
  {
    if buf == [] || buf[0] == '\0' then [] else [buf[0]] + CString(buf[1..])
  }

  /** A NUL-terminated buffer holding s reads back as s, whatever follows the NUL. */
  lemma {:induction false} CStringOfTerminated(s: string, rest: seq<char>)
    requires '\0' !in s
    ensures CString(s + ['\0'] + rest) == s
  {
    if s != [] {
      assert (s + ['\0'] + rest)[1..] == s[1..] + ['\0'] + rest;
      CStringOfTerminated(s[1..], rest);
    }
  }

  /** The state of the first entry of tbl whose text equals s, or None when
      no entry does: the specification of the search loop. */
  function FirstMatch(tbl: seq<PowerStateItem>, s: string): PowerState
  {
    if tbl == [] then None
    else if tbl[0].text == s then tbl[0].state
    else FirstMatch(tbl[1..], s)
  }

  /** The search returns the state of the first matching entry. */
  lemma {:induction false} FirstMatchAt(tbl: seq<PowerStateItem>, s: string, i: nat)
    requires i < |tbl| && tbl[i].text == s
    requires forall j :: 0 <= j < i ==> tbl[j].text != s
    ensures FirstMatch(tbl, s) == tbl[i].state
  {
    if i > 0 {
      FirstMatchAt(tbl[1..], s, i - 1);
    }
  }

  /** The search finds None when no entry matches. */
  lemma {:induction false} FirstMatchAbsent(tbl: seq<PowerStateItem>, s: string)
    requires forall j :: 0 <= j < |tbl| ==> tbl[j].text != s
    ensures FirstMatch(tbl, s) == None
  {
    if tbl != [] {
      FirstMatchAbsent(tbl[1..], s);
    }
  }

  /** The power state a sysevent value converts to. */
  function Decode(s: string): PowerState
  {
    FirstMatch(PowerStateTable, s)
  }

  /** The conversion is exact and case-sensitive: only the two transition
      strings name a transition, and every other string, "NONE" included,
      converts to None. */
  lemma DecodeExact(s: string)
    ensures Decode(s) == AC <==> s == "POWER_TRANS_AC"
    ensures Decode(s) == Batt <==> s == "POWER_TRANS_BATTERY"
    ensures Decode(s) == None <==> s != "POWER_TRANS_AC" && s != "POWER_TRANS_BATTERY"
  {
    var t := PowerStateTable;
    if s == t[0].text {
      FirstMatchAt(t, s, 0);
    } else if s == t[1].text {
      FirstMatchAt(t, s, 1);
    } else if s == t[2].text {
      FirstMatchAt(t, s, 2);
    } else {
      FirstMatchAbsent(t, s);
    }
  }

  /** The text of the table entry for a state: the argument handed to the
      power manager script for that state. */
  function StateText(st: PowerState): string
  {
    match st
    case None => PowerStateTable[0].text
    case AC => PowerStateTable[1].text
    case Batt => PowerStateTable[2].text
  }

  /** Every state's table text converts back to that state ("NONE" included,
      since it matches no transition). */
  lemma StateTextRoundTrip(st: PowerState)
    ensures Decode(StateText(st)) == st
  {
    DecodeExact(StateText(st));
  }

  /** The lookup loop of PwrMgr_StateTranstion: a linear scan of the table,
      bounded by its three entries, that stops at the first exact match. */
  method LookupState(cState: string) returns (newState: PowerState)
    ensures newState == Decode(cState)
  {
    newState := None;
    var i := 0;
    while i < |PowerStateTable|
      invariant 0 <= i <= |PowerStateTable|
      invariant Decode(cState) == FirstMatch(PowerStateTable[i..], cState)
    {
      if PowerStateTable[i].text == cState {
        newState := PowerStateTable[i].state;
        break;
      }
      assert PowerStateTable[i..][1..] == PowerStateTable[i + 1..];
      i := i + 1;
    }
  }
}
