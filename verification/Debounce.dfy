/**
 The trigger driver of UserInterface/triggerDriver.c: a debounce machine with two saturating counters, and what it
 computes from the history of its samples. The name `trigger_release` in line 109 is declared nowhere; it is read as
 the release counter.
 */
module Debounce {
  import opened Common

  const DEBOUNCE_FACTOR: nat := 3
  const SATURATED: u32 := 0xffff_ffff

  datatype State = Release | Press | Invalid

  function Reading(level: byte, activeHigh: bool): (s: State)
    ensures s != Invalid
  {
    if (level != 0 && activeHigh) || (level == 0 && !activeHigh) then Press else Release
  }

  function Readings(levels: seq<byte>, activeHigh: bool): (r: seq<State>)
    ensures |r| == |levels|
  {
    seq(|levels|, i requires 0 <= i < |levels| => Reading(levels[i], activeHigh))
  }

  lemma NoReadings(activeHigh: bool)
    ensures Readings([], activeHigh) == []
  {
  }

  lemma ReadingsNext(levels: seq<byte>, activeHigh: bool, i: nat)
    requires i < |levels|
    ensures Readings(levels[..i + 1], activeHigh) == Readings(levels[..i], activeHigh) + [Reading(levels[i], activeHigh)]
  {
    hide Reading;
    var now, before := Readings(levels[..i + 1], activeHigh), Readings(levels[..i], activeHigh);
    assert now[i] == Reading(levels[i], activeHigh);
    assert forall j | 0 <= j < i :: now[j] == before[j];
  }

  // ---------------------------------------------------------------- what the samples mean

  /** Three equal samples from index i on. */
  predicate Steady(h: seq<State>, i: nat, s: State) {
    i + DEBOUNCE_FACTOR <= |h| && h[i] == h[i + 1] == h[i + 2] == s
  }

  /** The value of the most recent three equal consecutive samples; released if there are none. */
  function Debounced(h: seq<State>): State {
    if |h| < DEBOUNCE_FACTOR then Release
    else if Steady(h, |h| - DEBOUNCE_FACTOR, h[|h| - 1]) then h[|h| - 1]
    else Debounced(h[..|h| - 1])
  }

  /** The changes of the debounced value, in order. */
  function Changes(h: seq<State>): seq<State> {
    if h == [] then []
    else
      var before := h[..|h| - 1];
      Changes(before) + if Debounced(h) != Debounced(before) then [Debounced(h)] else []
  }

  ghost predicate LastSteady(h: seq<State>, i: nat, s: State) {
    Steady(h, i, s) && forall j: nat, t: State | i < j :: !Steady(h, j, t)
  }

  lemma {:induction false} DebouncedIsLastSteady(h: seq<State>, s: State)
    ensures Debounced(h) == s <==>
            (exists i: nat :: LastSteady(h, i, s)) || (s == Release && forall i: nat, t: State :: !Steady(h, i, t))
    decreases |h|
  {
    if |h| >= DEBOUNCE_FACTOR {
      var last, before := |h| - DEBOUNCE_FACTOR, h[..|h| - 1];
      assert forall i: nat, t | i < last :: Steady(h, i, t) <==> Steady(before, i, t);
      if Steady(h, last, h[|h| - 1]) {
        assert LastSteady(h, last, h[|h| - 1]);
        assert forall i: nat, t | LastSteady(h, i, t) :: i == last;
      } else {
        assert forall t :: !Steady(h, last, t);
        DebouncedIsLastSteady(before, s);
        assert forall i: nat :: LastSteady(h, i, s) <==> LastSteady(before, i, s);
        assert (forall i: nat, t :: !Steady(h, i, t)) <==> (forall i: nat, t :: !Steady(before, i, t));
      }
    }
  }

  /** The pin is at this level for three samples from index i on. */
  predicate Held(levels: seq<byte>, i: nat, high: bool) {
    i + 3 <= |levels| && forall k | i <= k < i + 3 :: (levels[k] != 0) == high
  }

  /** The last three equal levels in a row are these. */
  ghost predicate LastHeld(levels: seq<byte>, i: nat, high: bool) {
    Held(levels, i, high) && forall j: nat | i < j :: !Held(levels, j, high) && !Held(levels, j, !high)
  }

  lemma SteadyIsHeld(levels: seq<byte>, activeHigh: bool, i: nat)
    ensures Steady(Readings(levels, activeHigh), i, Press) <==> Held(levels, i, activeHigh)
    ensures Steady(Readings(levels, activeHigh), i, Release) <==> Held(levels, i, !activeHigh)
    ensures !Steady(Readings(levels, activeHigh), i, Invalid)
  {
  }

  /** Pressed is what the pin says last for three samples in a row: high if the trigger is active high, and low if not. */
  lemma PressedIsHeld(levels: seq<byte>, activeHigh: bool)
    ensures Debounced(Readings(levels, activeHigh)) == Press <==> exists i: nat :: LastHeld(levels, i, activeHigh)
    ensures Debounced(Readings(levels, activeHigh)) in {Press, Release}
  {
    var h := Readings(levels, activeHigh);
    DebouncedIsLastSteady(h, Press);
    DebouncedValid(h);
    hide Debounced, Readings, Steady, Held;
    forall i: nat ensures LastSteady(h, i, Press) <==> LastHeld(levels, i, activeHigh) {
      SteadyIsHeld(levels, activeHigh, i);
      if LastSteady(h, i, Press) {
        forall j: nat | i < j ensures !Held(levels, j, activeHigh) && !Held(levels, j, !activeHigh) {
          SteadyIsHeld(levels, activeHigh, j);
        }
      }
      if LastHeld(levels, i, activeHigh) {
        forall j: nat, t: State | i < j ensures !Steady(h, j, t) {
          SteadyIsHeld(levels, activeHigh, j);
          match t {
            case Press =>
            case Release =>
            case Invalid =>
          }
        }
      }
    }
  }

  /** Changes alternate: press, release, press, ...; the last one is the current value. */
  lemma {:induction false} ChangesAlternate(h: seq<State>)
    requires Invalid !in h
    ensures forall i | 0 <= i < |Changes(h)| :: Changes(h)[i] == if i % 2 == 0 then Press else Release
    ensures Debounced(h) == if |Changes(h)| % 2 == 0 then Release else Press
    decreases |h|
  {
    if h != [] {
      ChangesAlternate(h[..|h| - 1]);
      DebouncedValid(h);
    }
  }

  lemma {:induction false} DebouncedValid(h: seq<State>)
    requires Invalid !in h
    ensures Debounced(h) != Invalid
    decreases |h|
  {
    if |h| >= DEBOUNCE_FACTOR {
      DebouncedValid(h[..|h| - 1]);
    }
  }

  // ---------------------------------------------------------------- the counters

  /** The number of samples at the end that equal s. */
  function RunLength(h: seq<State>, s: State): (n: nat)
    ensures n <= |h|
  {
    if h != [] && h[|h| - 1] == s then RunLength(h[..|h| - 1], s) + 1 else 0
  }

  /** A counter is exact below the debounce factor; from there on it says that the value has been taken over. */
  predicate Counts(cptr: u32, run: nat) {
    if run < DEBOUNCE_FACTOR then cptr == run else cptr >= DEBOUNCE_FACTOR
  }

  lemma RunIsSteady(h: seq<State>)
    requires h != []
    ensures var s := h[|h| - 1];
            RunLength(h, s) >= DEBOUNCE_FACTOR <==> |h| >= DEBOUNCE_FACTOR && Steady(h, |h| - DEBOUNCE_FACTOR, s)
  {
    var s := h[|h| - 1];
    if |h| >= 2 && h[|h| - 2] == s {
      var b := h[..|h| - 1];
      assert b[|b| - 1] == s && RunLength(h, s) == RunLength(b, s) + 1;
      assert RunLength(b, s) == RunLength(b[..|b| - 1], s) + 1;
    }
  }

  lemma NextSample(h: seq<State>, s: State)
    requires s != Invalid && Invalid !in h
    ensures var now := h + [s];
            var other := if s == Press then Release else Press;
            && RunLength(now, s) == RunLength(h, s) + 1 && RunLength(now, other) == 0
            && Debounced(now) == (if RunLength(now, s) >= DEBOUNCE_FACTOR then s else Debounced(h))
            && Changes(now) == Changes(h) + (if Debounced(now) != Debounced(h) then [Debounced(now)] else [])
            && (RunLength(h, s) >= DEBOUNCE_FACTOR ==> Debounced(h) == s)
            && Debounced(h) != Invalid
  {
    var now := h + [s];
    assert now[..|now| - 1] == h;
    RunIsSteady(now);
    DebouncedValid(h);
    if RunLength(h, s) >= DEBOUNCE_FACTOR {
      RunIsSteady(h);
    }
  }

  // ---------------------------------------------------------------- the driver

  datatype Status = StatusError | StatusOk

  class TriggerDriver {
    var activeHigh: bool
    var hasCallback: bool
    var currentState: State
    var pressCptr: u32
    var releaseCptr: u32
    /** What the callback was called with. */
    var calls: seq<State>
    ghost var history: seq<State>

    /** The driver is initialised, and its state says what the samples so far mean. */
    ghost predicate Valid()
      reads this
    {
      && Invalid !in history
      && currentState == Debounced(history)
      && calls == (if hasCallback then Changes(history) else [])
      && Counts(pressCptr, RunLength(history, Press))
      && Counts(releaseCptr, RunLength(history, Release))
    }

    constructor ()
      ensures currentState == Invalid && pressCptr == 0 && releaseCptr == 0 && calls == [] && history == []
    {
      activeHigh, hasCallback, currentState := false, false, Invalid;
      pressCptr, releaseCptr, calls, history := 0, 0, [], [];
    }

    /**
       `configured` and `created` tell whether the pin could be configured and the task be created. The counters
       are not touched, so only a first initialisation is known to start in a valid state.
     */
    method InitDriver(activeHigh: bool, hasCallback: bool, configured: bool, created: bool) returns (status: Status)
      modifies this
      ensures status == StatusOk <==> configured && created
      ensures pressCptr == old(pressCptr) && releaseCptr == old(releaseCptr) && calls == old(calls) && history == []
      ensures currentState == if configured then Release else old(currentState)
      ensures configured ==> this.activeHigh == activeHigh && this.hasCallback == hasCallback
      ensures configured && old(pressCptr == 0 && releaseCptr == 0 && calls == []) ==> Valid()
    {
      history := [];
      if !configured {
        return StatusError;
      }
      this.activeHigh := activeHigh;
      this.hasCallback := hasCallback;
      currentState := Release;
      if !created {
        return StatusError;
      }
      status := StatusOk;
    }

    /** One round of the task. */
    method Sample(level: byte)
      requires Valid()
      modifies this`currentState, this`pressCptr, this`releaseCptr, this`calls, this`history
      ensures Valid() && history == old(history) + [Reading(level, activeHigh)]
      // One counter is reset; the other one goes up, and to its greatest value when the state changes.
      ensures (level != 0) == activeHigh ==>
                releaseCptr == 0 &&
                pressCptr == if currentState != old(currentState) then SATURATED else Min(old(pressCptr) + 1, SATURATED)
      ensures (level != 0) != activeHigh ==>
                pressCptr == 0 &&
                releaseCptr == if currentState != old(currentState) then SATURATED else Min(old(releaseCptr) + 1, SATURATED)
    {
      hide Debounced, Changes, RunLength;
      var newState := Reading(level, activeHigh);
      NextSample(history, newState);
      history := history + [newState];
      if newState == Press {
        if pressCptr < SATURATED {
          pressCptr := pressCptr + 1;
        }
        releaseCptr := 0;
        if pressCptr >= DEBOUNCE_FACTOR && pressCptr != SATURATED {
          if newState != currentState {
            pressCptr := SATURATED;
            currentState := newState;
            if hasCallback {
              calls := calls + [currentState];
            }
          }
        }
      } else {
        if releaseCptr < SATURATED {
          releaseCptr := releaseCptr + 1;
        }
        pressCptr := 0;
        if releaseCptr >= DEBOUNCE_FACTOR && releaseCptr != SATURATED {
          if newState != currentState {
            releaseCptr := SATURATED;
            currentState := newState;
            if hasCallback {
              calls := calls + [currentState];
            }
          }
        }
      }
    }

    /** The task on any sequence of pin levels, from the first sample on. */
    method TriggerTask(levels: seq<byte>)
      requires Valid() && history == []
      modifies this`currentState, this`pressCptr, this`releaseCptr, this`calls, this`history
      ensures Valid() && history == Readings(levels, activeHigh)
      ensures currentState == Debounced(Readings(levels, activeHigh))
      // In terms of the pin: pressed if the level that means so is the last one held for three samples.
      ensures currentState == Press <==> exists i: nat :: LastHeld(levels, i, activeHigh)
      ensures currentState != Press ==> currentState == Release
      ensures calls == if hasCallback then Changes(Readings(levels, activeHigh)) else []
      ensures forall i | 0 <= i < |calls| :: calls[i] == if i % 2 == 0 then Press else Release
    {
      hide Reading, Readings, Changes, Debounced, LastHeld;
      assert levels[..0] == [];
      NoReadings(activeHigh);
      var i := 0;
      while i < |levels|
        invariant 0 <= i <= |levels|
        invariant Valid() && history == Readings(levels[..i], activeHigh)
      {
        Sample(levels[i]);
        ReadingsNext(levels, activeHigh, i);
        i := i + 1;
      }
      assert levels[..i] == levels;
      ChangesAlternate(history);
      PressedIsHeld(levels, activeHigh);
    }
  }
}
