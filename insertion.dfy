/**
 * Where `addSpeedControl` and `addForwardButton` put their controls, and what the
 * mutation-observer callback does to the control bar, as functions of the bar's children
 * (`bar`) and the rest of the document (`rest`). The anchor queries are scoped to the bar;
 * the marker checks look at the whole document, `bar + rest`.
 */
module Insertion {
  import opened Options
  import opened Dom

  /** The extension's invariant: never two speed controls, never two forward buttons. */
  predicate AtMostOne(doc: seq<Elem>) {
    Count(SpeedMark, doc) <= 1 && Count(ForwardMark, doc) <= 1
  }

  /** `addSpeedControl` inserts when a play-like child exists and no speed control does. */
  predicate SpeedApplies(bar: seq<Elem>, rest: seq<Elem>) {
    First(Play, bar).Some? && !Present(SpeedMark, bar + rest)
  }

  /** The control bar after `addSpeedControl`: a speed control right before the first play-like child. */
  function AddSpeed(bar: seq<Elem>, rest: seq<Elem>): (r: seq<Elem>)
    ensures !SpeedApplies(bar, rest) ==> r == bar
    ensures SpeedApplies(bar, rest) ==>
      var k := First(Play, bar).value;
      |r| == |bar| + 1 && r[k] == SpeedControl && r[k + 1] == bar[k] && Matches(Play, r[k + 1]) &&
      (forall j :: 0 <= j < k ==> !Matches(Play, r[j])) &&
      r[..k] + r[k + 1..] == bar
  {
    if SpeedApplies(bar, rest) then InsertAt(bar, First(Play, bar).value, SpeedControl) else bar
  }

  /**
   * `audioControl || (nextButton ? nextButton.nextElementSibling : null)`: the index of the
   * child the forward button goes in front of.
   */
  function ForwardTarget(bar: seq<Elem>): (r: Option<nat>)
    ensures r.Some? ==> r.value < |bar|
    ensures Present(Audio, bar) ==> r == First(Audio, bar)
    ensures !Present(Audio, bar) ==>
      (r.Some? <==> Present(Next, bar) && First(Next, bar).value + 1 < |bar|)
    ensures !Present(Audio, bar) && r.Some? ==> r.value == First(Next, bar).value + 1
  {
    match First(Audio, bar)
    case Some(a) => Some(a)
    case None =>
      match First(Next, bar)
      case Some(n) => if n + 1 < |bar| then Some(n + 1) else None
      case None => None
  }

  /** `addForwardButton` inserts when it has a target and no forward button exists. */
  predicate ForwardApplies(bar: seq<Elem>, rest: seq<Elem>) {
    ForwardTarget(bar).Some? && !Present(ForwardMark, bar + rest)
  }

  /**
   * The control bar after `addForwardButton`: a forward button right before the first audio
   * control, or else right after the first next button; nothing else moves.
   */
  function AddForward(bar: seq<Elem>, rest: seq<Elem>): (r: seq<Elem>)
    ensures !ForwardApplies(bar, rest) ==> r == bar
    ensures ForwardApplies(bar, rest) && Present(Audio, bar) ==>
      var a := First(Audio, bar).value;
      |r| == |bar| + 1 && r[a] == ForwardButton && r[a + 1] == bar[a] &&
      r[..a] + r[a + 1..] == bar
    ensures ForwardApplies(bar, rest) && !Present(Audio, bar) ==>
      var n := First(Next, bar).value;
      |r| == |bar| + 1 && r[n] == bar[n] && Matches(Next, r[n]) &&
      r[n + 1] == ForwardButton && r[n + 2] == bar[n + 1] &&
      r[..n + 1] + r[n + 2..] == bar
  {
    if ForwardApplies(bar, rest) then InsertAt(bar, ForwardTarget(bar).value, ForwardButton) else bar
  }

  /**
   * `initializeControls`: add the speed control, then the forward button. Each call adds at
   * most its own control, so the at-most-one invariant is kept.
   */
  function Initialize(bar: seq<Elem>, rest: seq<Elem>): (r: seq<Elem>)
    ensures Count(SpeedMark, r + rest) ==
      Count(SpeedMark, bar + rest) + (if SpeedApplies(bar, rest) then 1 else 0)
    ensures Count(ForwardMark, r + rest) ==
      Count(ForwardMark, bar + rest) + (if ForwardApplies(AddSpeed(bar, rest), rest) then 1 else 0)
    ensures AtMostOne(bar + rest) ==> AtMostOne(r + rest)
  {
    AddSpeedExactlyOne(bar, rest);
    AddSpeedCount(SpeedMark, bar, rest);
    AddForwardCount(SpeedMark, AddSpeed(bar, rest), rest);
    AddForwardCount(ForwardMark, AddSpeed(bar, rest), rest);
    AddForwardExactlyOne(AddSpeed(bar, rest), rest);
    AddForward(AddSpeed(bar, rest), rest)
  }

  /**
   * The mutation-observer callback: re-add each control whose marker is missing from the
   * document. Its own marker checks repeat the ones inside the add functions, so one run has
   * the effect of `initializeControls`' two calls.
   */
  function Reassert(bar: seq<Elem>, rest: seq<Elem>): (r: seq<Elem>)
    ensures r == Initialize(bar, rest)
  {
    var afterSpeed := if !Present(SpeedMark, bar + rest) then AddSpeed(bar, rest) else bar;
    if !Present(ForwardMark, afterSpeed + rest) then AddForward(afterSpeed, rest) else afterSpeed
  }

  /** The callback run `n` times in a row. */
  function ReassertTimes(n: nat, bar: seq<Elem>, rest: seq<Elem>): seq<Elem> {
    if n == 0 then bar else ReassertTimes(n - 1, Reassert(bar, rest), rest)
  }

  /** `addSpeedControl` adds one match to exactly the selectors the speed control matches. */
  lemma AddSpeedCount(sel: Selector, bar: seq<Elem>, rest: seq<Elem>)
    ensures Count(sel, AddSpeed(bar, rest) + rest) ==
      Count(sel, bar + rest) + (if SpeedApplies(bar, rest) && Matches(sel, SpeedControl) then 1 else 0)
  {
    var r := AddSpeed(bar, rest);
    CountConcat(sel, r, rest);
    CountConcat(sel, bar, rest);
    if SpeedApplies(bar, rest) {
      CountInsert(sel, bar, First(Play, bar).value, SpeedControl);
    }
  }

  /** `addForwardButton` adds one match to exactly the selectors the forward button matches. */
  lemma AddForwardCount(sel: Selector, bar: seq<Elem>, rest: seq<Elem>)
    ensures Count(sel, AddForward(bar, rest) + rest) ==
      Count(sel, bar + rest) + (if ForwardApplies(bar, rest) && Matches(sel, ForwardButton) then 1 else 0)
  {
    var r := AddForward(bar, rest);
    CountConcat(sel, r, rest);
    CountConcat(sel, bar, rest);
    if ForwardApplies(bar, rest) {
      CountInsert(sel, bar, ForwardTarget(bar).value, ForwardButton);
    }
  }

  /**
   * When `addSpeedControl` inserts, the document then holds exactly one speed control; it
   * never touches the forward-button count, so it keeps the invariant.
   */
  lemma AddSpeedExactlyOne(bar: seq<Elem>, rest: seq<Elem>)
    ensures SpeedApplies(bar, rest) ==> Count(SpeedMark, AddSpeed(bar, rest) + rest) == 1
    ensures Count(ForwardMark, AddSpeed(bar, rest) + rest) == Count(ForwardMark, bar + rest)
    ensures AtMostOne(bar + rest) ==> AtMostOne(AddSpeed(bar, rest) + rest)
  {
    AddSpeedCount(SpeedMark, bar, rest);
    AddSpeedCount(ForwardMark, bar, rest);
    PresentIffCount(SpeedMark, bar + rest);
  }

  /**
   * When `addForwardButton` inserts, the document then holds exactly one forward button; it
   * never touches the speed-control count, so it keeps the invariant.
   */
  lemma AddForwardExactlyOne(bar: seq<Elem>, rest: seq<Elem>)
    ensures ForwardApplies(bar, rest) ==> Count(ForwardMark, AddForward(bar, rest) + rest) == 1
    ensures Count(SpeedMark, AddForward(bar, rest) + rest) == Count(SpeedMark, bar + rest)
    ensures AtMostOne(bar + rest) ==> AtMostOne(AddForward(bar, rest) + rest)
  {
    AddForwardCount(ForwardMark, bar, rest);
    AddForwardCount(SpeedMark, bar, rest);
    PresentIffCount(ForwardMark, bar + rest);
  }

  /** Adding the speed control never changes whether the forward button finds a target. */
  lemma ForwardTargetSurvivesSpeed(bar: seq<Elem>, rest: seq<Elem>)
    ensures ForwardTarget(AddSpeed(bar, rest)).Some? <==> ForwardTarget(bar).Some?
  {
    if SpeedApplies(bar, rest) {
      var k := First(Play, bar).value;
      FirstAfterInsert(Audio, bar, k, SpeedControl);
      FirstAfterInsert(Next, bar, k, SpeedControl);
    }
  }

  /** The observer callback keeps the at-most-one invariant. */
  lemma ReassertKeepsAtMostOne(bar: seq<Elem>, rest: seq<Elem>)
    requires AtMostOne(bar + rest)
    ensures AtMostOne(Reassert(bar, rest) + rest)
  {
    AddSpeedExactlyOne(bar, rest);
    AddForwardExactlyOne(AddSpeed(bar, rest), rest);
  }

  /**
   * The callback re-adds a missing control whenever its anchor exists, and leaves a control
   * whose marker is present alone; with both markers present the bar is unchanged.
   */
  lemma ReassertRestores(bar: seq<Elem>, rest: seq<Elem>)
    ensures !Present(SpeedMark, bar + rest) && Present(Play, bar) ==>
      Count(SpeedMark, Reassert(bar, rest) + rest) == 1
    ensures !Present(ForwardMark, bar + rest) && ForwardTarget(bar).Some? ==>
      Count(ForwardMark, Reassert(bar, rest) + rest) == 1
    ensures Present(SpeedMark, bar + rest) ==>
      Count(SpeedMark, Reassert(bar, rest) + rest) == Count(SpeedMark, bar + rest)
    ensures Present(ForwardMark, bar + rest) ==>
      Count(ForwardMark, Reassert(bar, rest) + rest) == Count(ForwardMark, bar + rest)
    ensures Present(SpeedMark, bar + rest) && Present(ForwardMark, bar + rest) ==>
      Reassert(bar, rest) == bar
  {
    var mid := AddSpeed(bar, rest);
    AddSpeedExactlyOne(bar, rest);
    AddForwardExactlyOne(mid, rest);
    PresentIffCount(ForwardMark, bar + rest);
    PresentIffCount(ForwardMark, mid + rest);
    ForwardTargetSurvivesSpeed(bar, rest);
  }

  /** Running the callback a second time changes nothing. */
  lemma ReassertIdempotent(bar: seq<Elem>, rest: seq<Elem>)
    ensures Reassert(Reassert(bar, rest), rest) == Reassert(bar, rest)
  {
    var mid := AddSpeed(bar, rest);
    var done := AddForward(mid, rest);
    // The speed control is not re-added: either it is present, or there is still no play-like child.
    AddSpeedCount(SpeedMark, bar, rest);
    AddForwardCount(SpeedMark, mid, rest);
    AddSpeedCount(Play, bar, rest);
    AddForwardCount(Play, mid, rest);
    PresentIffCount(SpeedMark, bar + rest);
    PresentIffCount(SpeedMark, done + rest);
    CountConcat(Play, bar, rest);
    CountConcat(Play, done, rest);
    PresentIffCount(Play, bar);
    PresentIffCount(Play, done);
    assert AddSpeed(done, rest) == done;
    // The forward button is not re-added: either it is present, or there is still no target.
    AddForwardCount(ForwardMark, mid, rest);
    PresentIffCount(ForwardMark, mid + rest);
    PresentIffCount(ForwardMark, done + rest);
    assert AddForward(done, rest) == done;
  }

  /** Any number of callback runs, one or more, has the effect of a single run. */
  lemma {:induction false} ReassertTimesIsOnce(n: nat, bar: seq<Elem>, rest: seq<Elem>)
    requires n >= 1
    ensures ReassertTimes(n, bar, rest) == Reassert(bar, rest)
  {
    if n > 1 {
      ReassertTimesIsOnce(n - 1, Reassert(bar, rest), rest);
      ReassertIdempotent(bar, rest);
    }
  }

  /** However often the callback runs, the document never holds two copies of a control. */
  lemma {:induction false} ReassertTimesKeepsAtMostOne(n: nat, bar: seq<Elem>, rest: seq<Elem>)
    requires AtMostOne(bar + rest)
    ensures AtMostOne(ReassertTimes(n, bar, rest) + rest)
  {
    if n > 0 {
      ReassertKeepsAtMostOne(bar, rest);
      ReassertTimesKeepsAtMostOne(n - 1, Reassert(bar, rest), rest);
    }
  }
}
