/**
  The notification loop of src/main.rs: each iteration takes the probe's
  verdict and decides whether to post the "Plex is down!" message, under
  the reminder interval. Time is whole seconds on a monotonic clock,
  supplied with each tick: the reading taken by the guard, and the one
  taken after the message has been posted, which becomes the reminder time.
  The sleep between iterations is not modelled.
 */
module PingLoop {
  import opened Wrappers
  import opened Decimal
  import opened Config

  const PlexDownMessage: string := "Plex is down!"

  /**
    The message text: `"<mention>, Plex is down!"` when a user is to be
    pinged, `"Plex is down!"` alone otherwise. The mention is the text the
    chat library renders for the configured user id.
   */
  function AlertText(mention: Option<string>): (text: string)
    ensures |text| >= |PlexDownMessage| && text[|text| - |PlexDownMessage|..] == PlexDownMessage
    ensures text == PlexDownMessage <==> mention.None?
    ensures mention.Some? ==> |text| == |mention.value| + 2 + |PlexDownMessage|
    ensures mention.Some? ==>
              text[..|mention.value|] == mention.value
              && text[|mention.value|..|mention.value| + 2] == ", "
  {
    match mention
    case None => PlexDownMessage
    case Some(m) =>
      var text := m + ", " + PlexDownMessage;
      assert |text| > |PlexDownMessage|;
      text
  }

  /** The loop's two mutable locals, `last_plex_state_up` and `last_reminder_time`. */
  datatype AlertState = AlertState(lastPlexStateUp: bool, lastReminderTime: Option<nat>)

  /** The values before the first iteration. */
  const StartState: AlertState := AlertState(true, None)

  /** Up exactly when no reminder time is held. */
  predicate Consistent(s: AlertState) {
    s.lastPlexStateUp <==> s.lastReminderTime.None?
  }

  /** `Instant::elapsed().as_secs()`, which is zero rather than negative. */
  function Elapsed(since: nat, now: nat): nat {
    if now < since then 0 else now - since
  }

  /**
    The guard of the alert: the verdict is down, and either the previous
    state was up, or no reminder time is held, or more than the reminder
    interval has passed since it.
   */
  predicate ShouldAlert(s: AlertState, plexUp: bool, now: nat, reminderSeconds: U64) {
    !plexUp
    && (s.lastPlexStateUp || s.lastReminderTime.None?
        || Elapsed(s.lastReminderTime.value, now) > reminderSeconds)
  }

  /**
    The state after one iteration whose guard read the clock at `now`; when
    it alerts, the clock is read again at `sentAt`, once posting is over.
   */
  function NextState(s: AlertState, plexUp: bool, now: nat, sentAt: nat, reminderSeconds: U64): (r: AlertState)
    ensures Consistent(r)
    ensures plexUp ==> r == StartState
    ensures !plexUp ==> !r.lastPlexStateUp
    ensures ShouldAlert(s, plexUp, now, reminderSeconds) ==> r.lastReminderTime == Some(sentAt)
    ensures !plexUp && !ShouldAlert(s, plexUp, now, reminderSeconds) ==> r == s
  {
    if plexUp then AlertState(true, None)
    else AlertState(false, if ShouldAlert(s, plexUp, now, reminderSeconds) then Some(sentAt) else s.lastReminderTime)
  }

  /** The loop's state, updated in place once per iteration. */
  class Pinger {
    var lastPlexStateUp: bool
    var lastReminderTime: Option<nat>
    const pingerReminderSeconds: U64

    function State(): AlertState
      reads this
    {
      AlertState(lastPlexStateUp, lastReminderTime)
    }

    predicate Valid()
      reads this
    {
      Consistent(State())
    }

    constructor (config: PingerConfig)
      ensures State() == StartState && Valid()
      ensures pingerReminderSeconds == config.pingerReminderSeconds
    {
      lastPlexStateUp := true;
      lastReminderTime := None;
      pingerReminderSeconds := config.pingerReminderSeconds;
    }

    /**
      One iteration with verdict `plexUp`, the guard reading the clock at
      `now`. When it alerts, `sentAt` is the clock once posting is over.
      Whether posting succeeded only decides whether an error line is
      printed, so it is not an input: the new state is the same either way.
     */
    method Tick(plexUp: bool, now: nat, sentAt: nat) returns (alert: bool)
      modifies this
      ensures alert == ShouldAlert(old(State()), plexUp, now, pingerReminderSeconds)
      ensures State() == NextState(old(State()), plexUp, now, sentAt, pingerReminderSeconds)
      ensures Valid()
    {
      alert := false;
      if !plexUp {
        if lastPlexStateUp || lastReminderTime.None?
           || Elapsed(lastReminderTime.value, now) > pingerReminderSeconds
        {
          alert := true;
          lastReminderTime := Some(sentAt);
        }
        lastPlexStateUp := false;
      } else {
        lastPlexStateUp := true;
        lastReminderTime := None;
      }
    }
  }

  // ---------------------------------------------------------------------
  // Runs of the loop over a finite sequence of iterations
  // ---------------------------------------------------------------------

  /**
    One iteration's inputs: the verdict, the clock as the guard reads it,
    and the clock after posting.
   */
  datatype TickInput = TickInput(plexUp: bool, now: nat, sentAt: nat)

  /** The state after the given iterations, and for each of them whether it alerted. */
  function Run(s: AlertState, inputs: seq<TickInput>, reminderSeconds: U64): (r: (AlertState, seq<bool>))
    ensures |r.1| == |inputs|
    decreases |inputs|
  {
    if inputs == [] then (s, [])
    else
      var p := inputs[0];
      var rest := Run(NextState(s, p.plexUp, p.now, p.sentAt, reminderSeconds), inputs[1..], reminderSeconds);
      (rest.0, [ShouldAlert(s, p.plexUp, p.now, reminderSeconds)] + rest.1)
  }

  lemma {:induction false} RunAppend(s: AlertState, a: seq<TickInput>, b: seq<TickInput>, reminderSeconds: U64)
    ensures Run(s, a + b, reminderSeconds).0 == Run(Run(s, a, reminderSeconds).0, b, reminderSeconds).0
    ensures Run(s, a + b, reminderSeconds).1
            == Run(s, a, reminderSeconds).1 + Run(Run(s, a, reminderSeconds).0, b, reminderSeconds).1
    decreases |a|
  {
    if a == [] {
      assert a + b == b;
    } else {
      var p := a[0];
      assert (a + b)[1..] == a[1..] + b;
      RunAppend(NextState(s, p.plexUp, p.now, p.sentAt, reminderSeconds), a[1..], b, reminderSeconds);
    }
  }

  /**
    The `loop` of `main`, cut to the given iterations: one tick per input,
    in order, on the same pinger.
   */
  method Monitor(pinger: Pinger, inputs: seq<TickInput>) returns (alerts: seq<bool>)
    modifies pinger
    ensures alerts == Run(old(pinger.State()), inputs, pinger.pingerReminderSeconds).1
    ensures pinger.State() == Run(old(pinger.State()), inputs, pinger.pingerReminderSeconds).0
  {
    ghost var start := pinger.State();
    alerts := [];
    for k := 0 to |inputs|
      invariant alerts == Run(start, inputs[..k], pinger.pingerReminderSeconds).1
      invariant pinger.State() == Run(start, inputs[..k], pinger.pingerReminderSeconds).0
    {
      var alert := pinger.Tick(inputs[k].plexUp, inputs[k].now, inputs[k].sentAt);
      RunAppend(start, inputs[..k], [inputs[k]], pinger.pingerReminderSeconds);
      assert inputs[..k + 1] == inputs[..k] + [inputs[k]];
      alerts := alerts + [alert];
    }
    assert inputs[..|inputs|] == inputs;
  }

  /** Every state a run passes through keeps the invariant. */
  lemma {:induction false} RunConsistent(s: AlertState, inputs: seq<TickInput>, reminderSeconds: U64)
    requires Consistent(s)
    ensures Consistent(Run(s, inputs, reminderSeconds).0)
    decreases |inputs|
  {
    if inputs != [] {
      var p := inputs[0];
      RunConsistent(NextState(s, p.plexUp, p.now, p.sentAt, reminderSeconds), inputs[1..], reminderSeconds);
    }
  }

  /** Iteration `k` of a run alerts as the guard decides on the state reached after the first `k`. */
  lemma RunStep(s: AlertState, inputs: seq<TickInput>, reminderSeconds: U64, k: nat)
    requires k < |inputs|
    ensures Run(s, inputs, reminderSeconds).1[k]
            == ShouldAlert(Run(s, inputs[..k], reminderSeconds).0, inputs[k].plexUp, inputs[k].now, reminderSeconds)
    ensures Run(s, inputs[..k + 1], reminderSeconds).0
            == NextState(Run(s, inputs[..k], reminderSeconds).0,
                         inputs[k].plexUp, inputs[k].now, inputs[k].sentAt, reminderSeconds)
  {
    assert inputs == inputs[..k] + inputs[k..];
    RunAppend(s, inputs[..k], inputs[k..], reminderSeconds);
    assert inputs[..k + 1] == inputs[..k] + [inputs[k]];
    RunAppend(s, inputs[..k], [inputs[k]], reminderSeconds);
  }

  /**
    Debouncing: once an alert has recorded the reminder time `t`, down
    verdicts read up to `t + reminderSeconds` send nothing and leave the
    state as it is.
   */
  lemma {:induction false} QuietWithinReminder(t: nat, inputs: seq<TickInput>, reminderSeconds: U64)
    requires forall k :: 0 <= k < |inputs| ==> !inputs[k].plexUp && inputs[k].now <= t + reminderSeconds
    ensures Run(AlertState(false, Some(t)), inputs, reminderSeconds).0 == AlertState(false, Some(t))
    ensures true !in Run(AlertState(false, Some(t)), inputs, reminderSeconds).1
    decreases |inputs|
  {
    if inputs != [] {
      var s := AlertState(false, Some(t));
      var p := inputs[0];
      assert !ShouldAlert(s, p.plexUp, p.now, reminderSeconds);
      QuietWithinReminder(t, inputs[1..], reminderSeconds);
    }
  }

  /** The first down verdict after an up verdict always alerts, whatever the reminder interval. */
  lemma AlertAfterUp(s: AlertState, inputs: seq<TickInput>, reminderSeconds: U64, k: nat)
    requires 0 < k < |inputs| && inputs[k - 1].plexUp && !inputs[k].plexUp
    ensures Run(s, inputs, reminderSeconds).1[k]
  {
    RunStep(s, inputs, reminderSeconds, k);
    RunStep(s, inputs, reminderSeconds, k - 1);
    assert inputs[..k - 1 + 1] == inputs[..k];
  }

  /**
    From the start state, a held reminder time is always the clock reading
    taken when the latest alert had been posted, during the current outage:
    every iteration from that alert on was down, and none after it alerted.
   */
  lemma {:induction false} ReminderIsLastAlert(inputs: seq<TickInput>, reminderSeconds: U64, k: nat)
    requires k <= |inputs|
    ensures var s := Run(StartState, inputs[..k], reminderSeconds).0;
            var alerts := Run(StartState, inputs, reminderSeconds).1;
            s.lastReminderTime.Some? ==>
              exists j :: 0 <= j < k && alerts[j] && inputs[j].sentAt == s.lastReminderTime.value
                          && (forall m :: j < m < k ==> !alerts[m])
                          && (forall m :: j <= m < k ==> !inputs[m].plexUp)
  {
    var alerts := Run(StartState, inputs, reminderSeconds).1;
    if k > 0 {
      var before := Run(StartState, inputs[..k - 1], reminderSeconds).0;
      var after := Run(StartState, inputs[..k], reminderSeconds).0;
      var p := inputs[k - 1];
      RunStep(StartState, inputs, reminderSeconds, k - 1);
      assert inputs[..k - 1 + 1] == inputs[..k];
      assert after == NextState(before, p.plexUp, p.now, p.sentAt, reminderSeconds);
      if after.lastReminderTime.Some? {
        if alerts[k - 1] {
          assert after.lastReminderTime == Some(p.sentAt);
        } else {
          assert after == before;
          ReminderIsLastAlert(inputs, reminderSeconds, k - 1);
        }
      }
    }
  }

  /**
    The alert rule over a whole run from the start state: a down verdict
    alerts exactly when it is the first iteration, or the previous verdict
    was up, or more than the reminder interval has passed since the latest
    alert of the current outage.
   */
  lemma AlertRule(inputs: seq<TickInput>, reminderSeconds: U64, k: nat)
    requires k < |inputs|
    ensures var alerts := Run(StartState, inputs, reminderSeconds).1;
            var s := Run(StartState, inputs[..k], reminderSeconds).0;
            alerts[k] <==>
              !inputs[k].plexUp
              && (k == 0 || inputs[k - 1].plexUp
                  || (s.lastReminderTime.Some? && Elapsed(s.lastReminderTime.value, inputs[k].now) > reminderSeconds))
  {
    var s := Run(StartState, inputs[..k], reminderSeconds).0;
    RunStep(StartState, inputs, reminderSeconds, k);
    RunConsistent(StartState, inputs[..k], reminderSeconds);
    if k > 0 {
      RunStep(StartState, inputs, reminderSeconds, k - 1);
      assert inputs[..k - 1 + 1] == inputs[..k];
    } else {
      assert inputs[..0] == [];
    }
  }
}
