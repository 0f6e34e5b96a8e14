/** The power manager of source/pwrMgr.c: the current power state, the
    transition step, the notification dispatch of the sysevent handler,
    the bounded registration retry and the status of the initialisation. */
module Manager {
  import opened Decoder

  /** The only event the handler acts on. */
  const PowerTransitionEvent: string := "rdkb-power-transition"

  /** The retry budget of PwrMgr_Register_sysevent: after the first attempt,
      up to six more. */
  const MaxRetries: nat := 6

  /** A shell launch through system(): the power manager script with its one
      argument, or a (re)start of the sysevent daemon. */
  datatype Launch = PowerScript(arg: string) | StartSyseventd

  /** What one sysevent_getnotification call hands back: its error code, the
      name and value buffers, and the value length it reports. */
  datatype Notification = Notification(err: int, name: seq<char>, val: seq<char>, vallen: int)

  /** The three tests a notification must pass before it reaches the
      transition step, written as the handler writes them. An empty value
      buffer is read as one whose first character is NUL. */
  predicate Accepts(n: Notification)
  {
    n.err == 0 && CString(n.name) == PowerTransitionEvent &&
    n.vallen > 0 && n.val != [] && n.val[0] != '\0'
  }

  /** The handler's test on the first character of the value buffer holds
      exactly when the value string strcmp later compares is not empty. */
  lemma ValueTestIff(val: seq<char>)
    ensures (val != [] && val[0] != '\0') <==> CString(val) != ""
  {
    if val != [] && val[0] != '\0' {
      assert CString(val)[0] == val[0];
    }
  }

  /** The value string the transition step receives. */
  function Value(n: Notification): string
  {
    CString(n.val)
  }

  /** The launches the transition step makes for a value: exactly one, with
      the table text as argument, for AC or Batt, and none otherwise. */
  function ScriptFor(req: PowerState): seq<Launch>
  {
    if req == None then [] else [PowerScript(StateText(req))]
  }

  /** The state after the transition step: the requested one for AC or
      Batt, whatever the current state is, and the current one otherwise. */
  function NextState(cur: PowerState, req: PowerState): PowerState
  {
    if req == None then cur else req
  }

  /** The transition step on a value: "POWER_TRANS_AC" and
      "POWER_TRANS_BATTERY" each launch the script once with that argument
      and move to their state, whatever the current state is (a repeated
      state is not suppressed); every other value leaves the state alone
      and launches nothing. */
  lemma TransitionPolicy(cur: PowerState, v: string)
    ensures v == "POWER_TRANS_AC" ==>
      NextState(cur, Decode(v)) == AC && ScriptFor(Decode(v)) == [PowerScript("POWER_TRANS_AC")]
    ensures v == "POWER_TRANS_BATTERY" ==>
      NextState(cur, Decode(v)) == Batt && ScriptFor(Decode(v)) == [PowerScript("POWER_TRANS_BATTERY")]
    ensures v != "POWER_TRANS_AC" && v != "POWER_TRANS_BATTERY" ==>
      NextState(cur, Decode(v)) == cur && ScriptFor(Decode(v)) == []
  {
    DecodeExact(v);
  }

  /** The values named in the file's header comment, the table's own "NONE",
      the empty string and a lower-case spelling all fall through to the
      default branch. */
  lemma UnlistedValuesIgnored(cur: PowerState)
    ensures forall v :: v in ["ACTIVE_ON_AC", "ACTIVE_ON_BATTERY", "NONE", "", "power_trans_ac"] ==>
      NextState(cur, Decode(v)) == cur && ScriptFor(Decode(v)) == []
  {
    forall v | v in ["ACTIVE_ON_AC", "ACTIVE_ON_BATTERY", "NONE", "", "power_trans_ac"]
      ensures NextState(cur, Decode(v)) == cur && ScriptFor(Decode(v)) == []
    {
      TransitionPolicy(cur, v);
    }
  }

  /** One notification: its effect on the state and the launches it makes. */
  function HandleState(cur: PowerState, n: Notification): PowerState
  {
    if Accepts(n) then NextState(cur, Decode(Value(n))) else cur
  }

  function HandleLaunches(n: Notification): seq<Launch>
  {
    if Accepts(n) then ScriptFor(Decode(Value(n))) else []
  }

  /** A run of the receive loop over the notifications it receives, one at a
      time: the final state and the launches in order. */
  function RunState(cur: PowerState, ns: seq<Notification>): PowerState
    decreases |ns|
  {
    if ns == [] then cur else RunState(HandleState(cur, ns[0]), ns[1..])
  }

  function RunLaunches(ns: seq<Notification>): seq<Launch>
  {
    if ns == [] then [] else HandleLaunches(ns[0]) + RunLaunches(ns[1..])
  }

  /** The transitions a run requests, in order: the decoded values of the
      accepted notifications that name AC or Batt. */
  function Requests(ns: seq<Notification>): (r: seq<PowerState>)
    ensures forall k :: 0 <= k < |r| ==> r[k] != None
  {
    if ns == [] then []
    else (if Accepts(ns[0]) && Decode(Value(ns[0])) != None then [Decode(Value(ns[0]))] else [])
         + Requests(ns[1..])
  }

  /** The launches of a run are one power script per requested transition,
      in the order requested, with that transition's table text. */
  lemma {:induction false} RunLaunchesFollowRequests(ns: seq<Notification>)
    ensures |RunLaunches(ns)| == |Requests(ns)|
    ensures forall k :: 0 <= k < |Requests(ns)| ==>
      RunLaunches(ns)[k] == PowerScript(StateText(Requests(ns)[k]))
  {
    if ns != [] {
      RunLaunchesFollowRequests(ns[1..]);
    }
  }

  /** The final state of a run is the last requested transition, or the
      state the run started in when nothing was requested. */
  lemma {:induction false} RunStateIsLastRequest(cur: PowerState, ns: seq<Notification>)
    ensures RunState(cur, ns) == if Requests(ns) == [] then cur else Requests(ns)[|Requests(ns)| - 1]
    decreases |ns|
  {
    if ns != [] {
      RunStateIsLastRequest(HandleState(cur, ns[0]), ns[1..]);
    }
  }

  /** The transition step launches the script with the very value it
      received, whenever that value names a transition. */
  lemma LaunchArgumentIsValue(n: Notification)
    requires Accepts(n) && Decode(Value(n)) != None
    ensures HandleLaunches(n) == [PowerScript(Value(n))]
  {
    DecodeExact(Value(n));
  }

  /** Every launch of a run is the power script, and its argument converts
      back to the transition requested at that position, so the script
      receives exactly the transitions requested, in order. */
  lemma LaunchArgumentsDecode(ns: seq<Notification>)
    ensures |RunLaunches(ns)| == |Requests(ns)|
    ensures forall k :: 0 <= k < |RunLaunches(ns)| ==>
      RunLaunches(ns)[k].PowerScript? && Decode(RunLaunches(ns)[k].arg) == Requests(ns)[k]
  {
    RunLaunchesFollowRequests(ns);
    forall k | 0 <= k < |RunLaunches(ns)|
      ensures RunLaunches(ns)[k].PowerScript? && Decode(RunLaunches(ns)[k].arg) == Requests(ns)[k]
    {
      StateTextRoundTrip(Requests(ns)[k]);
    }
  }

  /** A NUL-terminated notification buffer holding s. */
  function Buffer(s: string): seq<char>
  {
    s + ['\0']
  }

  lemma CStringOfBuffer(s: string)
    requires '\0' !in s
    ensures CString(Buffer(s)) == s
  {
    assert Buffer(s) == s + ['\0'] + [];
    CStringOfTerminated(s, []);
  }

  /** A power transition notification carrying v, as the bus delivers it. */
  function TransitionNotification(v: string): Notification
  {
    Notification(0, Buffer(PowerTransitionEvent), Buffer(v), |v| + 1)
  }

  /** Such a notification passes the handler's tests whenever v is not
      empty, and the transition step receives v. */
  lemma TransitionNotificationAccepted(v: string)
    requires '\0' !in v && v != ""
    ensures Accepts(TransitionNotification(v)) && Value(TransitionNotification(v)) == v
  {
    CStringOfBuffer(PowerTransitionEvent);
    CStringOfBuffer(v);
  }

  /** A battery notification, then any notification the handler ignores,
      then an AC notification, run from the default state: two launches,
      battery first, and the device ends on AC. */
  lemma BatteryOtherAcScenario(a: Notification, other: Notification, c: Notification)
    requires Accepts(a) && Value(a) == "POWER_TRANS_BATTERY"
    requires !Accepts(other)
    requires Accepts(c) && Value(c) == "POWER_TRANS_AC"
    ensures RunLaunches([a, other, c]) == [PowerScript("POWER_TRANS_BATTERY"), PowerScript("POWER_TRANS_AC")]
    ensures RunState(AC, [a, other, c]) == AC
  {
    TransitionPolicy(AC, Value(a));
    TransitionPolicy(Batt, Value(c));
    assert [a, other, c][1..] == [other, c] && [other, c][1..] == [c] && [c][1..] == [];
    assert RunLaunches([c]) == HandleLaunches(c);
    assert RunState(AC, [a, other, c]) == RunState(Batt, [c]);
  }

  /** A notification repeated for the state the device is already in
      launches the script again each time. */
  lemma {:induction false} RepeatsNotSuppressed(n: Notification)
    requires Accepts(n) && Value(n) == "POWER_TRANS_BATTERY"
    ensures RunState(Batt, [n, n]) == Batt
    ensures RunLaunches([n, n]) == [PowerScript("POWER_TRANS_BATTERY"), PowerScript("POWER_TRANS_BATTERY")]
  {
    DecodeExact(Value(n));
    assert HandleState(Batt, n) == Batt;
    assert HandleLaunches(n) == [PowerScript("POWER_TRANS_BATTERY")];
    assert [n, n][1..] == [n] && [n][1..] == [];
    assert RunState(Batt, [n]) == Batt;
    assert RunLaunches([n]) == HandleLaunches(n);
  }

  /** The index of the last sysevent_open attempt made, counting from k,
      when attempt k is made: the first successful one, or the last one the
      retry budget allows. */
  function LastAttempt(open: nat -> int, k: nat): (n: nat)
    requires k <= MaxRetries
    ensures k <= n <= MaxRetries
    ensures forall j :: k <= j < n ==> open(j) < 0
    ensures n < MaxRetries ==> open(n) >= 0
    decreases MaxRetries - k
  {
    if open(k) >= 0 || k == MaxRetries then k else LastAttempt(open, k + 1)
  }

  /** Counting from attempt k, the last attempt is n when n succeeds, or is
      the last one the budget allows, and attempts k to n - 1 all failed. */
  lemma {:induction false} LastAttemptIs(open: nat -> int, k: nat, n: nat)
    requires k <= n <= MaxRetries && (open(n) >= 0 || n == MaxRetries)
    requires forall j :: k <= j < n ==> open(j) < 0
    ensures LastAttempt(open, k) == n
    decreases n - k
  {
    if k < n {
      LastAttemptIs(open, k + 1, n);
    }
  }

  /** The number of sysevent_open attempts registration makes. */
  function Attempts(open: nat -> int): nat
  {
    LastAttempt(open, 0) + 1
  }

  /** Whether registration succeeds: its last attempt returned a valid descriptor. */
  predicate Registered(open: nat -> int)
  {
    open(LastAttempt(open, 0)) >= 0
  }

  /** Registration makes between one and seven attempts, stops at the first
      success, and succeeds exactly when one of the seven attempts would. */
  lemma RegistrationBounded(open: nat -> int)
    ensures 1 <= Attempts(open) <= MaxRetries + 1
    ensures forall j :: 0 <= j < Attempts(open) - 1 ==> open(j) < 0
    ensures Registered(open) <==> exists k :: 0 <= k <= MaxRetries && open(k) >= 0
  {
    var n := LastAttempt(open, 0);
    if !Registered(open) {
      assert n == MaxRetries;
      forall k | 0 <= k <= MaxRetries ensures open(k) < 0 {
        if k < n {
          assert open(k) < 0;
        }
      }
    }
  }

  /** n launches of the sysevent daemon. */
  function Restarts(n: nat): (r: seq<Launch>)
    ensures |r| == n && forall l :: l in r ==> l == StartSyseventd
  {
    if n == 0 then [] else Restarts(n - 1) + [StartSyseventd]
  }

  /** The power manager's state: gCurPowerState, and the shell launches made
      so far, in order, standing for the calls to system(). */
  class PowerManager {
    var cur: PowerState
    var actions: seq<Launch>

    /** The static state before anything runs, and nothing launched. The
        static is zero-initialised; that zero is taken to be
        PWRMGR_STATE_NONE, the state of the table's first entry, since the
        source indexes the table by state. */
    constructor ()
      ensures cur == None && actions == []
    {
      cur := None;
      actions := [];
    }

    /** PwrMgr_SetDefaults: the device is assumed to start on AC. */
    method SetDefaults()
      modifies this`cur
      ensures cur == AC
    {
      cur := AC;
    }

    /** PwrMgr_StateTranstion: launch the script for a recognised value and
        record the new state, with no suppression of a repeated state;
        log and change nothing for any other value. Always returns 0. */
    method StateTransition(cState: string) returns (rc: int)
      modifies this
      ensures rc == 0
      ensures cur == NextState(old(cur), Decode(cState))
      ensures actions == old(actions) + ScriptFor(Decode(cState))
    {
      var newState := LookupState(cState);
      match newState {
        case AC =>
          actions := actions + [PowerScript("POWER_TRANS_AC")];
          cur := newState;
        case Batt =>
          actions := actions + [PowerScript("POWER_TRANS_BATTERY")];
          cur := newState;
        case None =>
      }
      rc := 0;
    }

    /** One iteration of the receive loop of PwrMgr_sysevent_handler. */
    method HandleNotification(n: Notification)
      modifies this
      ensures cur == HandleState(old(cur), n)
      ensures actions == old(actions) + HandleLaunches(n)
    {
      if n.err != 0 {
        // the failure is only logged
      } else if CString(n.name) == PowerTransitionEvent {
        if n.vallen > 0 && n.val != [] && n.val[0] != '\0' {
          var _ := StateTransition(CString(n.val));
        }
      } else {
        // an undefined event is only logged
      }
    }

    /** The receive loop of PwrMgr_sysevent_handler over the notifications
        it receives. */
    method SyseventHandler(ns: seq<Notification>)
      modifies this
      ensures cur == RunState(old(cur), ns)
      ensures actions == old(actions) + RunLaunches(ns)
    {
      for i := 0 to |ns|
        invariant RunState(old(cur), ns) == RunState(cur, ns[i..])
        invariant old(actions) + RunLaunches(ns) == actions + RunLaunches(ns[i..])
      {
        assert ns[i..][1..] == ns[i + 1..];
        HandleNotification(ns[i]);
      }
    }

    /** PwrMgr_Register_sysevent: try sysevent_open, restarting the sysevent
        daemon after each failure, until one succeeds or the retries run
        out; set the defaults only on success. open(k) is the descriptor
        the k-th attempt returns. */
    method RegisterSysevent(open: nat -> int) returns (status: bool, ghost attempts: nat)
      modifies this
      ensures status == Registered(open) && attempts == Attempts(open)
      ensures cur == if status then AC else old(cur)
      ensures actions == old(actions) + Restarts(if status then attempts - 1 else attempts)
    {
      status := false;
      var retry: nat := 0;
      while true
        invariant retry <= MaxRetries && !status
        invariant forall j :: 0 <= j < retry ==> open(j) < 0
        invariant actions == old(actions) + Restarts(retry)
        invariant cur == old(cur)
        decreases MaxRetries - retry
      {
        // open(retry) stands for the descriptor sysevent_open returns
        var fd := open(retry);
        status := fd >= 0;
        if !status {
          actions := actions + [StartSyseventd];
        }
        if status {
          break;
        }
        // a failed attempt always counts one more retry, the last one
        // included, and the loop goes on only while fewer than MaxRetries
        // retries had been made before it
        var more := retry < MaxRetries;
        retry := retry + 1;
        if !more {
          break;
        }
      }
      attempts := if status then retry + 1 else retry;
      LastAttemptIs(open, 0, attempts - 1);
      if status {
        SetDefaults();
      }
    }

    /** PwrMgr_Init: register, then start the handler thread; the status is
        -1 when registration fails or the thread cannot be created and 0
        otherwise. threadStatus is what pthread_create returns. */
    method Init(open: nat -> int, threadStatus: int) returns (status: int)
      modifies this
      ensures status == if Registered(open) && threadStatus == 0 then 0 else -1
      ensures cur == if Registered(open) then AC else old(cur)
      ensures actions == old(actions) + Restarts(if Registered(open) then Attempts(open) - 1 else Attempts(open))
    {
      var registered, _ := RegisterSysevent(open);
      if !registered {
        status := -1;
      } else if threadStatus == 0 {
        status := 0;
      } else {
        status := -1;
      }
    }
  }
}
