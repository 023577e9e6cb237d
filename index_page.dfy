/**
 * The page shell's birthday handling (src/pages/Index.tsx).
 *
 * The page keeps two state values, the chosen birthday and whether the
 * "Calendar generated" notice has been shown, and reacts to every date the
 * picker reports.  Dates are timestamps; the clock reading `now` and the age
 * in whole years (computed by a date library) are inputs of each call.
 */
module IndexPage {
  import opened Optional

  /** The notices the page emits. */
  datatype Toast =
    | InvalidDate                     // destructive: "Your birthday cannot be in the future."
    | CalendarGenerated(ageYears: int)

  function Title(t: Toast): string {
    match t
    case InvalidDate => "Invalid date"
    case CalendarGenerated(_) => "Calendar generated"
  }

  predicate Destructive(t: Toast) {
    t.InvalidDate?
  }

  /** The page's state: `birthday` and `hasViewed`. */
  datatype State = State(birthday: Option<int>, hasViewed: bool)

  /** One report from the date picker, with the clock reading and age of that moment. */
  datatype Call = Call(date: Option<int>, now: int, ageYears: int)

  /** The state after a call, and the notices it emitted in order. */
  datatype Outcome = Outcome(state: State, toasts: seq<Toast>)

  const Initial: State := State(None, false)

  /** A defined date later than the clock is refused. */
  predicate Rejected(c: Call) {
    c.date.Some? && c.date.value > c.now
  }

  /** A call that sets a defined birthday. */
  predicate AcceptsDate(c: Call) {
    c.date.Some? && !Rejected(c)
  }

  /** The calendar section is rendered exactly when a birthday is set. */
  predicate ShowsCalendar(s: State) {
    s.birthday.Some?
  }

  /** The number of "Calendar generated" notices in `ts`. */
  function CountGenerated(ts: seq<Toast>): nat {
    if ts == [] then 0
    else CountGenerated(ts[..|ts| - 1]) + (if ts[|ts| - 1].CalendarGenerated? then 1 else 0)
  }

  lemma {:induction false} CountGeneratedAppend(a: seq<Toast>, b: seq<Toast>)
    ensures CountGenerated(a + b) == CountGenerated(a) + CountGenerated(b)
  {
    if b != [] {
      assert (a + b)[..|a + b| - 1] == a + b[..|b| - 1];
      CountGeneratedAppend(a, b[..|b| - 1]);
    } else {
      assert a + b == a;
    }
  }

  /**
   * One call of the date handler.  A future date is refused with one
   * destructive notice and leaves the state alone; any other input, undefined
   * included, replaces the birthday; the first defined birthday also sets
   * `hasViewed` and emits the one "Calendar generated" notice.
   */
  function Step(s: State, c: Call): (o: Outcome)
    ensures |o.toasts| <= 1
    ensures forall t :: t in o.toasts ==> (Destructive(t) <==> Rejected(c))
    ensures Rejected(c) ==> o.state == s && o.toasts == [InvalidDate] && Title(o.toasts[0]) == "Invalid date"
    ensures AcceptsDate(c) ==> o.toasts == (if s.hasViewed then [] else [CalendarGenerated(c.ageYears)])
    ensures AcceptsDate(c) && !s.hasViewed ==> Title(o.toasts[0]) == "Calendar generated"
    ensures !Rejected(c) ==> o.state.birthday == c.date
    ensures !Rejected(c) && o.state.birthday.Some? ==> o.state.birthday.value <= c.now
    ensures c.date.None? ==> o.toasts == [] && o.state.hasViewed == s.hasViewed
    ensures o.state.hasViewed <==> s.hasViewed || AcceptsDate(c)
    ensures CountGenerated(o.toasts) == (if !s.hasViewed && AcceptsDate(c) then 1 else 0)
    ensures ShowsCalendar(o.state) <==> AcceptsDate(c) || (Rejected(c) && ShowsCalendar(s))
  {
    if Rejected(c) then
      Outcome(s, [InvalidDate])
    else if c.date.Some? && !s.hasViewed then
      Outcome(State(c.date, true), [CalendarGenerated(c.ageYears)])
    else
      Outcome(State(c.date, s.hasViewed), [])
  }

  /** A sequence of calls, in order, with all the notices they emitted. */
  function Run(s: State, calls: seq<Call>): Outcome
    decreases |calls|
  {
    if calls == [] then Outcome(s, [])
    else
      var before := Run(s, calls[..|calls| - 1]);
      var last := Step(before.state, calls[|calls| - 1]);
      Outcome(last.state, before.toasts + last.toasts)
  }

  /** Some call in `calls` set a defined birthday. */
  predicate SomeDateAccepted(calls: seq<Call>) {
    exists i :: 0 <= i < |calls| && AcceptsDate(calls[i])
  }

  /** Whether some call accepted a date splits over the last call. */
  lemma SomeDateAcceptedSnoc(calls: seq<Call>)
    requires calls != []
    ensures SomeDateAccepted(calls)
            <==> SomeDateAccepted(calls[..|calls| - 1]) || AcceptsDate(calls[|calls| - 1])
  {
    var init := calls[..|calls| - 1];
    if SomeDateAccepted(init) {
      var i :| 0 <= i < |init| && AcceptsDate(init[i]);
      assert calls[i] == init[i];
    }
    if SomeDateAccepted(calls) && !AcceptsDate(calls[|calls| - 1]) {
      var i :| 0 <= i < |calls| && AcceptsDate(calls[i]);
      assert i < |init| && init[i] == calls[i];
    }
  }

  /**
   * Over any sequence of calls `hasViewed` ends true exactly when it started
   * true or some call accepted a defined date, and the "Calendar generated"
   * notice is emitted once if it had not been shown and such a call came,
   * never otherwise; in particular at most once.
   */
  lemma {:induction false} GeneratedAtMostOnce(s: State, calls: seq<Call>)
    ensures Run(s, calls).state.hasViewed <==> s.hasViewed || SomeDateAccepted(calls)
    ensures CountGenerated(Run(s, calls).toasts) == (if !s.hasViewed && SomeDateAccepted(calls) then 1 else 0)
    ensures CountGenerated(Run(s, calls).toasts) <= 1
  {
    if calls != [] {
      var init := calls[..|calls| - 1];
      var c := calls[|calls| - 1];
      GeneratedAtMostOnce(s, init);
      var before := Run(s, init);
      var last := Step(before.state, c);
      assert Run(s, calls) == Outcome(last.state, before.toasts + last.toasts);
      CountGeneratedAppend(before.toasts, last.toasts);
      SomeDateAcceptedSnoc(calls);
    }
  }

  /** `hasViewed` never goes back to false: once true after some prefix of the calls, it is true at the end. */
  lemma HasViewedNeverReverts(s: State, calls: seq<Call>, k: nat)
    requires k <= |calls|
    ensures Run(s, calls[..k]).state.hasViewed ==> Run(s, calls).state.hasViewed
  {
    GeneratedAtMostOnce(s, calls[..k]);
    GeneratedAtMostOnce(s, calls);
    if SomeDateAccepted(calls[..k]) {
      var i :| 0 <= i < k && AcceptsDate(calls[..k][i]);
      assert calls[i] == calls[..k][i];
    }
  }

  /** No call in `calls` was accepted. */
  predicate AllRejected(calls: seq<Call>) {
    forall i :: 0 <= i < |calls| ==> Rejected(calls[i])
  }

  /** The last call not refused in `calls` is at `k`, and it set the birthday to its date. */
  predicate LastAcceptedAt(calls: seq<Call>, k: int, birthday: Option<int>) {
    && 0 <= k < |calls|
    && !Rejected(calls[k])
    && (forall j :: k < j < |calls| ==> Rejected(calls[j]))
    && birthday == calls[k].date
  }

  /**
   * After any sequence of calls the birthday is the date of the last call that
   * was not refused (unchanged if every call was refused), and a defined
   * birthday is never later than the clock reading of the call that set it.
   */
  lemma {:induction false} BirthdayFromLastAccepted(s: State, calls: seq<Call>)
    ensures AllRejected(calls) ==> Run(s, calls).state.birthday == s.birthday
    ensures !AllRejected(calls) ==>
      exists k :: LastAcceptedAt(calls, k, Run(s, calls).state.birthday)
        && (calls[k].date.Some? ==> calls[k].date.value <= calls[k].now)
  {
    if calls != [] {
      var init := calls[..|calls| - 1];
      var c := calls[|calls| - 1];
      BirthdayFromLastAccepted(s, init);
      var before := Run(s, init);
      var last := Step(before.state, c);
      assert Run(s, calls).state == last.state;
      if Rejected(c) {
        assert last.state == before.state;
        if AllRejected(init) {
          assert forall i :: 0 <= i < |calls| ==> Rejected(calls[i]) by {
            forall i | 0 <= i < |calls| ensures Rejected(calls[i]) {
              if i < |init| { assert init[i] == calls[i]; }
            }
          }
        } else {
          var k :| LastAcceptedAt(init, k, before.state.birthday)
            && (init[k].date.Some? ==> init[k].date.value <= init[k].now);
          assert calls[k] == init[k];
          assert LastAcceptedAt(calls, k, last.state.birthday) by {
            forall j | k < j < |calls| ensures Rejected(calls[j]) {
              if j < |init| { assert init[j] == calls[j]; }
            }
          }
        }
      } else {
        assert LastAcceptedAt(calls, |calls| - 1, last.state.birthday);
      }
    }
  }

  /**
   * After any sequence of calls the calendar is shown exactly when the last
   * call that was not refused had a defined date, or, if every call was
   * refused, when it was shown at the start.
   */
  lemma CalendarShownAfterRun(s: State, calls: seq<Call>)
    ensures ShowsCalendar(Run(s, calls).state) <==>
      (AllRejected(calls) && ShowsCalendar(s))
      || exists k :: 0 <= k < |calls| && !Rejected(calls[k])
           && (forall j :: k < j < |calls| ==> Rejected(calls[j])) && calls[k].date.Some?
  {
    var final := Run(s, calls).state;
    BirthdayFromLastAccepted(s, calls);
    if !AllRejected(calls) {
      var k0 :| LastAcceptedAt(calls, k0, final.birthday)
        && (calls[k0].date.Some? ==> calls[k0].date.value <= calls[k0].now);
    }
  }

  // ---------------------------------------------------------------------------
  // The page as it runs

  class Page {
    var birthday: Option<int>
    var hasViewed: bool
    /** Every notice emitted so far, oldest first. */
    var toasts: seq<Toast>

    /** The notice log agrees with `hasViewed`: one "Calendar generated" notice once viewed, none before. */
    ghost predicate Valid()
      reads this
    {
      CountGenerated(toasts) == (if hasViewed then 1 else 0)
    }

    function Snapshot(): State
      reads this
    {
      State(birthday, hasViewed)
    }

    /** The render guard: the calendar section is part of the page. */
    function CalendarVisible(): bool
      reads this
    {
      birthday.Some?
    }

    constructor ()
      ensures Valid() && Snapshot() == Initial && toasts == []
    {
      birthday := None;
      hasViewed := false;
      toasts := [];
    }

    /** The date handler, step by step as the page runs it; it does what `Step` says. */
    method HandleDateChange(date: Option<int>, now: int, ageYears: int)
      requires Valid()
      modifies this
      ensures Valid()
      ensures Snapshot() == Step(old(Snapshot()), Call(date, now, ageYears)).state
      ensures toasts == old(toasts) + Step(old(Snapshot()), Call(date, now, ageYears)).toasts
      ensures CalendarVisible() <==>
                AcceptsDate(Call(date, now, ageYears)) || (Rejected(Call(date, now, ageYears)) && old(CalendarVisible()))
    {
      if date.Some? && date.value > now {
        toasts := toasts + [InvalidDate];
        CountGeneratedAppend(old(toasts), [InvalidDate]);
        return;
      }

      birthday := date;

      if date.Some? && !hasViewed {
        hasViewed := true;
        toasts := toasts + [CalendarGenerated(ageYears)];
        CountGeneratedAppend(old(toasts), [CalendarGenerated(ageYears)]);
      }
    }
  }
}
