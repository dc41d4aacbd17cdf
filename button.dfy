/**
 * Debounce and hold detection for the remote's four buttons.
 *
 * Every call of `ButtonPanel.Process` takes one clock sample and the pin level
 * of each button, steps each examined button through
 * Released -> Pressed -> Hold -> Released, and reports the first button (in list
 * order) that produced an action during the call.
 */
module Button {

  /** The millisecond clock is a 32-bit `unsigned long`; sums on it wrap. */
  const TimeModulus: int := 0x1_0000_0000
  type TimeMs = t: int | 0 <= t < TimeModulus

  const DebounceTimeMs: TimeMs := 20
  const HoldTimeMs: TimeMs := 1000

  datatype Id = None | Up | Down | Left | Right
  datatype State = Released | Pressed | Hold
  datatype Action = None | PressStart | PressEnd | HoldStart | HoldEnd

  /** Digital pin level, as returned by the pin read. */
  datatype Level = Low | High

  datatype ButtonItem = ButtonItem(
    id: Id,
    pin: nat,
    activeLevel: Level,
    state: State,
    action: Action,
    isActive: bool,
    activeTimeMs: TimeMs)

  /** One pin sample of one button, with the clock reading of its call. */
  datatype Sample = Sample(level: Level, now: TimeMs)

  /**
   * `since + threshold` computed in `unsigned long` arithmetic: the sum wraps
   * modulo 2^32 before it is compared with the clock.
   */
  function Deadline(since: TimeMs, threshold: TimeMs): (d: TimeMs)
    ensures since + threshold < TimeModulus ==> d == since + threshold
    ensures since + threshold >= TimeModulus ==> d == since + threshold - TimeModulus
  {
    (since + threshold) % TimeModulus
  }

  /** A button is out of Released only while its level is active. */
  predicate Settled(b: ButtonItem)
  {
    b.state != Released ==> b.isActive
  }

  /** The only state changes the machine allows: forwards one step, or back to Released. */
  predicate Advances(s: State, s': State)
  {
    s' == s || s' == Released || (s == Released && s' == Pressed) || (s == Pressed && s' == Hold)
  }

  /**
   * What one evaluation does to one button record: the action is cleared first,
   * then set by at most one of the transitions below.
   */
  function Evaluate(b: ButtonItem, level: Level, now: TimeMs): (r: ButtonItem)
    // identity and wiring never change
    ensures r.id == b.id && r.pin == b.pin && r.activeLevel == b.activeLevel
    ensures Advances(b.state, r.state)
    ensures r.state != b.state ==> r.action != Action.None
    ensures r.isActive <==> level == b.activeLevel
    // first active sample: only the edge is recorded
    ensures level == b.activeLevel && !b.isActive ==>
              r.action == Action.None && r.state == b.state && r.activeTimeMs == now
    // the edge time is touched by nothing else
    ensures r.activeTimeMs != b.activeTimeMs ==> level == b.activeLevel && !b.isActive && r.activeTimeMs == now
    ensures r.action == PressStart <==>
              level == b.activeLevel && b.isActive && b.state == Released
              && now > Deadline(b.activeTimeMs, DebounceTimeMs)
    ensures r.action == HoldStart <==>
              level == b.activeLevel && b.isActive && b.state == Pressed
              && now > Deadline(b.activeTimeMs, HoldTimeMs)
    ensures r.action == PressEnd <==> level != b.activeLevel && b.isActive && b.state == Pressed
    ensures r.action == HoldEnd <==> level != b.activeLevel && b.isActive && b.state == Hold
    ensures r.action == PressStart ==> r.state == Pressed
    ensures r.action == HoldStart ==> r.state == Hold
    ensures level != b.activeLevel ==> r.state == Released || (!b.isActive && r.state == b.state)
    // a button that is not Released is active, and stays so
    ensures Settled(b) ==> Settled(r)
    // without wrap-around, a press is reported only once the debounce time has really passed
    ensures r.action == PressStart && b.activeTimeMs + DebounceTimeMs < TimeModulus ==>
              now - b.activeTimeMs > DebounceTimeMs
  {
    var cleared := b.(action := Action.None);
    if level == b.activeLevel then
      if !b.isActive then
        cleared.(isActive := true, activeTimeMs := now)
      else if b.state == Released && now > Deadline(b.activeTimeMs, DebounceTimeMs) then
        cleared.(action := PressStart, state := Pressed)
      else if b.state == Pressed && now > Deadline(b.activeTimeMs, HoldTimeMs) then
        cleared.(action := HoldStart, state := Hold)
      else
        cleared
    else if b.isActive then
      if b.state == Pressed then
        cleared.(isActive := false, action := PressEnd, state := Released)
      else if b.state == Hold then
        cleared.(isActive := false, action := HoldEnd, state := Released)
      else
        assert b.state == Released;
        cleared.(isActive := false)
    else
      cleared
  }

  predicate Acts(b: ButtonItem, level: Level, now: TimeMs)
  {
    Evaluate(b, level, now).action != Action.None
  }

  /** Index of the first button at or after `from` that acts, or `|list|` if none does. */
  function FirstActing(list: seq<ButtonItem>, levels: seq<Level>, now: TimeMs, from: nat): (k: nat)
    requires |levels| == |list| && from <= |list|
    ensures from <= k <= |list|
    ensures k < |list| ==> Acts(list[k], levels[k], now)
    ensures forall j :: from <= j < k ==> !Acts(list[j], levels[j], now)
    decreases |list| - from
  {
    if from == |list| then from
    else if Acts(list[from], levels[from], now) then from
    else FirstActing(list, levels, now, from + 1)
  }

  /** The button list after one call: every button up to the reporting one is evaluated, the rest untouched. */
  function Processed(list: seq<ButtonItem>, levels: seq<Level>, now: TimeMs): (r: seq<ButtonItem>)
    requires |levels| == |list|
    ensures |r| == |list|
  {
    var k := FirstActing(list, levels, now, 0);
    seq(|list|, j requires 0 <= j < |list| => if j <= k then Evaluate(list[j], levels[j], now) else list[j])
  }

  /** The identifier one call reports. */
  function Reported(list: seq<ButtonItem>, levels: seq<Level>, now: TimeMs): Id
    requires |levels| == |list|
  {
    var k := FirstActing(list, levels, now, 0);
    if k < |list| then list[k].id else Id.None
  }

  /**
   * One call reports the first button in list order that acted and nothing
   * else: every button before it was evaluated and stayed quiet, and every
   * button after it was not examined, so it keeps even a stale action.
   */
  lemma ProcessReportsFirstActing(list: seq<ButtonItem>, levels: seq<Level>, now: TimeMs)
    requires |levels| == |list|
    requires forall j :: 0 <= j < |list| ==> list[j].id != Id.None
    ensures var r, id := Processed(list, levels, now), Reported(list, levels, now);
      && (id == Id.None <==>
            forall j :: 0 <= j < |list| ==> r[j] == Evaluate(list[j], levels[j], now) && r[j].action == Action.None)
      && (id != Id.None ==>
            exists k :: 0 <= k < |list|
              && r[k] == Evaluate(list[k], levels[k], now) && r[k].id == id && r[k].action != Action.None
              && (forall j :: 0 <= j < k ==> r[j] == Evaluate(list[j], levels[j], now) && r[j].action == Action.None)
              && (forall j :: k < j < |list| ==> r[j] == list[j]))
  {
    var r, id := Processed(list, levels, now), Reported(list, levels, now);
    var k := FirstActing(list, levels, now, 0);
    if k < |list| {
      assert r[k] == Evaluate(list[k], levels[k], now);
      assert r[k].action != Action.None;
      assert id != Id.None;
    }
  }

  /** Two buttons of a list never share an identifier. */
  predicate UniqueIds(list: seq<ButtonItem>)
  {
    forall i, j :: 0 <= i < j < |list| ==> list[i].id != list[j].id
  }

  /** Index of the last button with identifier `id`, or -1 when there is none. */
  function LastWithId(list: seq<ButtonItem>, id: Id): (r: int)
    ensures -1 <= r < |list|
    ensures r == -1 <==> forall j :: 0 <= j < |list| ==> list[j].id != id
    ensures r >= 0 ==> list[r].id == id && forall j :: r < j < |list| ==> list[j].id != id
    decreases |list|
  {
    if |list| == 0 then -1
    else if list[|list| - 1].id == id then |list| - 1
    else LastWithId(list[..|list| - 1], id)
  }

  /** With unique identifiers, the last match is the only match. */
  lemma LastWithIdUnique(list: seq<ButtonItem>, id: Id, j: nat)
    requires UniqueIds(list)
    requires j < |list| && list[j].id == id
    ensures LastWithId(list, id) == j
  {
  }

  /** The four buttons, all pulled up and active low, in priority order. */
  function InitialList(): (list: seq<ButtonItem>)
    ensures |list| == 4 && UniqueIds(list)
    ensures forall j :: 0 <= j < |list| ==>
              list[j].state == Released && list[j].action == Action.None && !list[j].isActive
  {
    [ ButtonItem(Id.Up, 4, Low, Released, Action.None, false, 0),
      ButtonItem(Id.Down, 5, Low, Released, Action.None, false, 0),
      ButtonItem(Id.Left, 6, Low, Released, Action.None, false, 0),
      ButtonItem(Id.Right, 7, Low, Released, Action.None, false, 0) ]
  }

  class ButtonPanel {
    var list: seq<ButtonItem>

    ghost predicate Valid()
      reads this
    {
      UniqueIds(list) && forall j :: 0 <= j < |list| ==> list[j].id != Id.None
    }

    constructor ()
      ensures Valid() && list == InitialList()
    {
      list := InitialList();
    }

    /**
     * Samples each button in list order and stops at the first one that acts.
     * `levels[j]` is what the pin of `list[j]` reads during this call.
     */
    method Process(levels: seq<Level>, now: TimeMs) returns (id: Id)
      requires Valid() && |levels| == |list|
      modifies this
      ensures Valid()
      ensures list == Processed(old(list), levels, now)
      ensures id == Reported(old(list), levels, now)
    {
      ghost var before := list;
      id := Id.None;
      var i := 0;
      while i < |list|
        invariant 0 <= i <= |list| == |before|
        invariant id == Id.None
        invariant forall j :: 0 <= j < i ==> list[j] == Evaluate(before[j], levels[j], now)
        invariant forall j :: 0 <= j < i ==> !Acts(before[j], levels[j], now)
        invariant forall j :: i <= j < |list| ==> list[j] == before[j]
        invariant FirstActing(before, levels, now, 0) == FirstActing(before, levels, now, i)
        invariant Valid()
      {
        var b := Update(list[i], levels[i], now);
        list := list[i := b];
        if b.action != Action.None {
          id := b.id;
          assert FirstActing(before, levels, now, i) == i;
          assert list == Processed(before, levels, now);
          break;
        }
        i := i + 1;
      }
      if i == |list| {
        assert list == Processed(before, levels, now);
      }
    }

    /** One button's turn in `process`: its fields updated one by one, as `Evaluate` describes. */
    static method Update(b0: ButtonItem, level: Level, now: TimeMs) returns (b: ButtonItem)
      ensures b == Evaluate(b0, level, now)
    {
      b := b0.(action := Action.None);
      if level == b.activeLevel {
        if !b.isActive {
          b := b.(isActive := true, activeTimeMs := now);
        } else if b.state == Released && now > Deadline(b.activeTimeMs, DebounceTimeMs) {
          b := b.(action := PressStart, state := Pressed);
        } else if b.state == Pressed && now > Deadline(b.activeTimeMs, HoldTimeMs) {
          b := b.(action := HoldStart, state := Hold);
        }
      } else if b.isActive {
        b := b.(isActive := false);
        if b.state != Released {
          b := b.(action := if b.state == Pressed then PressEnd else HoldEnd, state := Released);
        }
      }
    }

    /** State of the button `id`; Released for an identifier not in the list. */
    method GetState(id: Id) returns (state: State)
      ensures var k := LastWithId(list, id); state == if k < 0 then Released else list[k].state
    {
      state := Released;
      ghost var found := -1;
      for i := 0 to |list|
        invariant found == LastWithId(list[..i], id)
        invariant state == if found < 0 then Released else list[found].state
      {
        if list[i].id == id {
          state := list[i].state;
          found := i;
        }
        assert list[..i + 1][..i] == list[..i];
      }
      assert list[..|list|] == list;
    }

    /** Action last produced by the button `id`; None for an identifier not in the list. */
    method GetAction(id: Id) returns (action: Action)
      ensures var k := LastWithId(list, id); action == if k < 0 then Action.None else list[k].action
    {
      action := Action.None;
      ghost var found := -1;
      for i := 0 to |list|
        invariant found == LastWithId(list[..i], id)
        invariant action == if found < 0 then Action.None else list[found].action
      {
        if list[i].id == id {
          action := list[i].action;
          found := i;
        }
        assert list[..i + 1][..i] == list[..i];
      }
      assert list[..|list|] == list;
    }
  }

  /** One button stepped through a series of samples: its final record and the actions it produced. */
  function Run(b: ButtonItem, samples: seq<Sample>): (r: (ButtonItem, seq<Action>))
    ensures |r.1| == |samples|
    decreases |samples|
  {
    if samples == [] then (b, [])
    else
      var b' := Evaluate(b, samples[0].level, samples[0].now);
      var rest := Run(b', samples[1..]);
      (rest.0, [b'.action] + rest.1)
  }

  predicate AllActive(b: ButtonItem, samples: seq<Sample>)
  {
    forall j :: 0 <= j < |samples| ==> samples[j].level == b.activeLevel
  }

  function Count(acts: seq<Action>, a: Action): nat
  {
    if acts == [] then 0 else (if acts[0] == a then 1 else 0) + Count(acts[1..], a)
  }

  /** While the level stays active, a button that has left Released never returns to it. */
  lemma {:induction false} ActiveNeverReleases(b: ButtonItem, samples: seq<Sample>)
    requires b.state != Released && b.isActive && AllActive(b, samples)
    ensures Run(b, samples).0.state != Released
    ensures PressStart !in Run(b, samples).1
    ensures Count(Run(b, samples).1, PressStart) == 0
    decreases |samples|
  {
    if samples != [] {
      var b' := Evaluate(b, samples[0].level, samples[0].now);
      assert AllActive(b', samples[1..]) by {
        forall j | 0 <= j < |samples[1..]| ensures samples[1..][j].level == b'.activeLevel {
          assert samples[1..][j] == samples[j + 1];
        }
      }
      ActiveNeverReleases(b', samples[1..]);
    }
  }

  /** While the level stays active, a button in Hold stays there and produces nothing. */
  lemma {:induction false} ActiveHoldIsQuiet(b: ButtonItem, samples: seq<Sample>)
    requires b.state == Hold && b.isActive && AllActive(b, samples)
    ensures Run(b, samples).0.state == Hold
    ensures forall j :: 0 <= j < |samples| ==> Run(b, samples).1[j] == Action.None
    decreases |samples|
  {
    if samples != [] {
      var b' := Evaluate(b, samples[0].level, samples[0].now);
      assert AllActive(b', samples[1..]) by {
        forall j | 0 <= j < |samples[1..]| ensures samples[1..][j].level == b'.activeLevel {
          assert samples[1..][j] == samples[j + 1];
        }
      }
      ActiveHoldIsQuiet(b', samples[1..]);
    }
  }

  /** A press held down continuously reports PressStart at most once and HoldStart at most once. */
  lemma {:induction false} HeldPressStartsOnce(b: ButtonItem, samples: seq<Sample>)
    requires AllActive(b, samples)
    ensures Count(Run(b, samples).1, PressStart) <= 1
    ensures Count(Run(b, samples).1, HoldStart) <= 1
    decreases |samples|
  {
    if samples != [] {
      var b' := Evaluate(b, samples[0].level, samples[0].now);
      var rest := samples[1..];
      assert AllActive(b', rest) by {
        forall j | 0 <= j < |rest| ensures rest[j].level == b'.activeLevel {
          assert rest[j] == samples[j + 1];
        }
      }
      HeldPressStartsOnce(b', rest);
      var acts := Run(b', rest).1;
      assert Run(b, samples).1 == [b'.action] + acts;
      assert ([b'.action] + acts)[1..] == acts;
      if b'.action == PressStart {
        ActiveNeverReleases(b', rest);
      }
      if b'.action == HoldStart {
        ActiveHoldIsQuiet(b', rest);
        NoneOnlyCountsZero(acts, HoldStart);
      }
    }
  }

  lemma {:induction false} NoneOnlyCountsZero(acts: seq<Action>, a: Action)
    requires a != Action.None
    requires forall j :: 0 <= j < |acts| ==> acts[j] == Action.None
    ensures Count(acts, a) == 0
    decreases |acts|
  {
    if acts != [] {
      NoneOnlyCountsZero(acts[1..], a);
    }
  }

  /**
   * A press released, or still held, before the debounce time has passed since
   * its first active sample produces no PressStart (clock not wrapping).
   */
  lemma {:induction false} ShortPressNoPressStart(b: ButtonItem, samples: seq<Sample>)
    requires b.isActive && b.state == Released
    requires b.activeTimeMs + DebounceTimeMs < TimeModulus
    requires AllActive(b, samples)
    requires forall j :: 0 <= j < |samples| ==> samples[j].now <= b.activeTimeMs + DebounceTimeMs
    ensures PressStart !in Run(b, samples).1
    ensures Run(b, samples).0 == b.(action := Action.None) || samples == []
    decreases |samples|
  {
    if samples != [] {
      var b' := Evaluate(b, samples[0].level, samples[0].now);
      assert b' == b.(action := Action.None);
      var rest := samples[1..];
      assert AllActive(b', rest) && forall j :: 0 <= j < |rest| ==> rest[j].now <= b'.activeTimeMs + DebounceTimeMs by {
        forall j | 0 <= j < |rest| ensures rest[j].level == b'.activeLevel && rest[j].now <= b'.activeTimeMs + DebounceTimeMs {
          assert rest[j] == samples[j + 1];
        }
      }
      ShortPressNoPressStart(b', rest);
    }
  }

  /**
   * A press kept active until a sample later than the debounce deadline
   * reports PressStart during the run (clock not wrapping).
   */
  lemma {:induction false} LongPressReportsPressStart(b: ButtonItem, samples: seq<Sample>)
    requires b.isActive && b.state == Released
    requires b.activeTimeMs + DebounceTimeMs < TimeModulus
    requires AllActive(b, samples)
    requires samples != [] && samples[|samples| - 1].now > b.activeTimeMs + DebounceTimeMs
    ensures PressStart in Run(b, samples).1
    decreases |samples|
  {
    var b' := Evaluate(b, samples[0].level, samples[0].now);
    var rest := samples[1..];
    if b'.action != PressStart {
      assert |samples| > 1;
      assert b' == b.(action := Action.None);
      assert AllActive(b', rest) by {
        forall j | 0 <= j < |rest| ensures rest[j].level == b'.activeLevel {
          assert rest[j] == samples[j + 1];
        }
      }
      assert rest[|rest| - 1] == samples[|samples| - 1];
      LongPressReportsPressStart(b', rest);
    }
  }

  /**
   * A press kept active until a sample later than the hold deadline reports
   * HoldStart during the run (clock not wrapping).
   */
  lemma {:induction false} LongHoldReportsHoldStart(b: ButtonItem, samples: seq<Sample>)
    requires b.isActive && b.state == Pressed
    requires b.activeTimeMs + HoldTimeMs < TimeModulus
    requires AllActive(b, samples)
    requires samples != [] && samples[|samples| - 1].now > b.activeTimeMs + HoldTimeMs
    ensures HoldStart in Run(b, samples).1
    decreases |samples|
  {
    var b' := Evaluate(b, samples[0].level, samples[0].now);
    var rest := samples[1..];
    if b'.action != HoldStart {
      assert |samples| > 1;
      assert b' == b.(action := Action.None);
      assert AllActive(b', rest) by {
        forall j | 0 <= j < |rest| ensures rest[j].level == b'.activeLevel {
          assert rest[j] == samples[j + 1];
        }
      }
      assert rest[|rest| - 1] == samples[|samples| - 1];
      LongHoldReportsHoldStart(b', rest);
    }
  }

  /**
   * Because the deadline is computed as a wrapping sum, a press first seen
   * `d` ms before the clock wraps, 2 <= d <= 20, is reported at any sample
   * before the wrap, before the debounce time has passed. (At d = 1 no clock
   * value lies between the edge and the wrap.)
   */
  lemma PressStartEarlyNearWrap(b: ButtonItem, d: int, now: TimeMs)
    requires b.isActive && b.state == Released
    requires 2 <= d <= DebounceTimeMs && b.activeTimeMs == TimeModulus - d
    requires now > b.activeTimeMs
    ensures Evaluate(b, b.activeLevel, now).action == PressStart
    ensures now - b.activeTimeMs < DebounceTimeMs
  {
  }

  /**
   * Because the deadline is a plain sum compared with the clock, a press first
   * seen `d` ms before the clock wraps, d > 20, gets no PressStart at any
   * sample up to its deadline, and after the wrap every clock value is again
   * below that deadline. At d = 21 the deadline is the largest clock value,
   * so a held press is never reported.
   */
  lemma PressStartLateNearWrap(b: ButtonItem, d: int, now: TimeMs)
    requires b.isActive && b.state == Released
    requires DebounceTimeMs < d < TimeModulus && b.activeTimeMs == TimeModulus - d
    requires now <= TimeModulus - d + DebounceTimeMs
    ensures Deadline(b.activeTimeMs, DebounceTimeMs) == TimeModulus - d + DebounceTimeMs
    ensures Evaluate(b, b.activeLevel, now) == b.(action := Action.None)
  {
  }
}
