/**
 * The content script itself: its four module-level variables, the polling loop that finds
 * the player, the two insertion routines, the mutation-observer callback and the click
 * handlers that touch the video.
 */
module Extension {
  import opened Options
  import opened Dom
  import opened Insertion
  import opened Media
  import opened SpeedMenu

  /** The polling period of `waitForPlayer`, in milliseconds. */
  const IntervalMs: nat := 500
  /** When `waitForPlayer` gives up, in milliseconds after it starts. */
  const TimeoutMs: nat := 30000
  /** The number of polling ticks before the deadline (a tick due at the deadline itself included). */
  const MaxTicks: nat := TimeoutMs / IntervalMs

  /** What the two queries of one polling tick find in the page at that moment. */
  datatype Probe = Probe(video: Video?, controlsBar: Option<seq<Elem>>)

  /** A tick at which both the video and the control bar are found. */
  predicate Ready(p: Probe) {
    p.video != null && p.controlsBar.Some?
  }

  /** What tick `k` (counting from 0) finds; past the end of `obs` nothing is found. */
  function ProbeAt(obs: seq<Probe>, k: int): Probe {
    if 0 <= k < |obs| then obs[k] else Probe(null, None)
  }

  /** The ticks that can run before the deadline. */
  function Observed(obs: seq<Probe>): seq<Probe> {
    seq(MaxTicks, k => ProbeAt(obs, k))
  }

  /** The tick at which polling succeeds: the first ready tick before the deadline, if any. */
  function ReadyTick(obs: seq<Probe>): (r: Option<nat>)
    ensures r.Some? ==> r.value < MaxTicks && Ready(ProbeAt(obs, r.value))
    ensures r.Some? ==> forall j :: 0 <= j < r.value ==> !Ready(ProbeAt(obs, j))
    ensures r.None? ==> forall j :: 0 <= j < MaxTicks ==> !Ready(ProbeAt(obs, j))
  {
    var ticks := Observed(obs);
    assert forall j :: 0 <= j < MaxTicks ==> ticks[j] == ProbeAt(obs, j);
    FirstWhere(ticks, Ready)
  }

  class Page {
    /** The global `video`. */
    var video: Video?
    /** The global `controlsBar`, as the list of its children. */
    var controlsBar: Option<seq<Elem>>
    /** The elements of the document outside the control bar. */
    var rest: seq<Elem>
    /** The global `speedControl`: the dropdown state of the last speed control created. */
    var speedControl: Dropdown?
    /** The global `forwardButton` is set. */
    var forwardButton: bool
    /** The mutation observer of `initializeControls` is registered. */
    var observing: bool
    /** How many times `initializeControls` has run. */
    ghost var initializations: nat

    /** The whole document: the control bar (when one is known) and everything else. */
    function Document(): seq<Elem>
      reads this
    {
      (if controlsBar.Some? then controlsBar.value else []) + rest
    }

    /** The document never holds two copies of either control. */
    ghost predicate Valid()
      reads this
    {
      AtMostOne(Document())
    }

    /** The script's state when it starts: all four globals null, no observer. */
    constructor (rest: seq<Elem>)
      requires AtMostOne(rest)
      ensures Valid()
      ensures video == null && controlsBar == None && this.rest == rest
      ensures speedControl == null && !forwardButton && !observing && initializations == 0
    {
      video := null;
      controlsBar := None;
      this.rest := rest;
      speedControl := null;
      forwardButton := false;
      observing := false;
      initializations := 0;
      new;
      assert Document() == rest;
    }

    /**
     * `waitForPlayer`: every `IntervalMs` reassign `video` and `controlsBar` from the page;
     * at the first tick that finds both, stop and run `initializeControls`; stop anyway at
     * the deadline. `obs[k]` is what tick `k` finds.
     */
    method WaitForPlayer(obs: seq<Probe>) returns (ticks: nat, found: bool)
      modifies this
      ensures 1 <= ticks <= MaxTicks
      ensures found <==> ReadyTick(obs).Some?
      ensures found ==> ticks == ReadyTick(obs).value + 1
      ensures !found ==> ticks == MaxTicks
      ensures video == ProbeAt(obs, ticks - 1).video && rest == old(rest)
      ensures found ==>
        controlsBar == Some(Initialize(ProbeAt(obs, ticks - 1).controlsBar.value, rest)) &&
        observing && initializations == old(initializations) + 1
      ensures found && SpeedApplies(ProbeAt(obs, ticks - 1).controlsBar.value, rest) ==>
        fresh(speedControl) && speedControl.Valid() &&
        speedControl.selected == DefaultOption && !speedControl.visible
      ensures found && !SpeedApplies(ProbeAt(obs, ticks - 1).controlsBar.value, rest) ==>
        speedControl == old(speedControl)
      ensures found ==>
        forwardButton == (old(forwardButton) ||
          ForwardApplies(AddSpeed(ProbeAt(obs, ticks - 1).controlsBar.value, rest), rest))
      ensures !found ==>
        controlsBar == ProbeAt(obs, ticks - 1).controlsBar &&
        observing == old(observing) && initializations == old(initializations) &&
        speedControl == old(speedControl) && forwardButton == old(forwardButton)
      ensures found && AtMostOne(ProbeAt(obs, ticks - 1).controlsBar.value + rest) ==> Valid()
    {
      ticks, found := 0, false;
      while !found && ticks < MaxTicks
        invariant ticks <= MaxTicks && (found ==> ticks >= 1)
        invariant forall j :: 0 <= j < ticks - 1 ==> !Ready(ProbeAt(obs, j))
        invariant ticks >= 1 ==> (found <==> Ready(ProbeAt(obs, ticks - 1)))
        invariant ticks >= 1 ==> video == ProbeAt(obs, ticks - 1).video
        invariant ticks >= 1 ==> controlsBar == ProbeAt(obs, ticks - 1).controlsBar
        invariant rest == old(rest) && observing == old(observing)
        invariant initializations == old(initializations)
        invariant speedControl == old(speedControl) && forwardButton == old(forwardButton)
      {
        var probe := ProbeAt(obs, ticks);
        video := probe.video;
        controlsBar := probe.controlsBar;
        ticks := ticks + 1;
        // clearInterval: no further tick runs once both are found
        found := video != null && controlsBar.Some?;
      }
      if found {
        InitializeControls();
      }
    }

    /** `initializeControls`: add both controls, then register the observer. */
    method InitializeControls()
      requires controlsBar.Some?
      modifies this
      ensures controlsBar == Some(Initialize(old(controlsBar.value), rest))
      ensures video == old(video) && rest == old(rest)
      ensures observing && initializations == old(initializations) + 1
      ensures SpeedApplies(old(controlsBar.value), rest) ==>
        fresh(speedControl) && speedControl.Valid() &&
        speedControl.selected == DefaultOption && !speedControl.visible
      ensures !SpeedApplies(old(controlsBar.value), rest) ==> speedControl == old(speedControl)
      ensures forwardButton ==
        (old(forwardButton) || ForwardApplies(AddSpeed(old(controlsBar.value), rest), rest))
      ensures old(Valid()) ==> Valid()
    {
      AddSpeedControl();
      AddForwardButton();
      observing := true;
      initializations := initializations + 1;
    }

    /**
     * `addSpeedControl`: unless a speed control exists somewhere in the document or the bar
     * has no play-like child, build a new control and insert it before that child.
     */
    method AddSpeedControl()
      requires controlsBar.Some?
      modifies this
      ensures controlsBar == Some(AddSpeed(old(controlsBar.value), rest))
      ensures video == old(video) && rest == old(rest)
      ensures forwardButton == old(forwardButton) && observing == old(observing)
      ensures initializations == old(initializations)
      ensures SpeedApplies(old(controlsBar.value), rest) ==>
        fresh(speedControl) && speedControl.Valid() &&
        speedControl.selected == DefaultOption && !speedControl.visible
      ensures !SpeedApplies(old(controlsBar.value), rest) ==> speedControl == old(speedControl)
      ensures old(Valid()) ==> Valid()
    {
      var bar := controlsBar.value;
      var playButton := First(Play, bar);
      if playButton.None? || Present(SpeedMark, Document()) {
        return;
      }
      speedControl := new Dropdown();
      controlsBar := Some(InsertAt(bar, playButton.value, SpeedControl));
      AddSpeedExactlyOne(bar, rest);
    }

    /**
     * `addForwardButton`: unless a forward button exists somewhere in the document or no
     * target is found, insert one before the audio control or after the next button.
     */
    method AddForwardButton()
      requires controlsBar.Some?
      modifies this
      ensures controlsBar == Some(AddForward(old(controlsBar.value), rest))
      ensures video == old(video) && rest == old(rest) && speedControl == old(speedControl)
      ensures observing == old(observing) && initializations == old(initializations)
      ensures forwardButton == (old(forwardButton) || ForwardApplies(old(controlsBar.value), rest))
      ensures old(Valid()) ==> Valid()
    {
      var bar := controlsBar.value;
      var audioControl := First(Audio, bar);
      var nextButton := First(Next, bar);
      var insertTarget :=
        if audioControl.Some? then audioControl
        else if nextButton.Some? && nextButton.value + 1 < |bar| then Some(nextButton.value + 1)
        else None;
      if insertTarget.None? || Present(ForwardMark, Document()) {
        return;
      }
      forwardButton := true;
      if audioControl.Some? {
        controlsBar := Some(InsertAt(bar, audioControl.value, ForwardButton));
      } else {
        controlsBar := Some(InsertAt(bar, nextButton.value + 1, ForwardButton));
      }
      AddForwardExactlyOne(bar, rest);
    }

    /** The mutation-observer callback: re-add each control whose marker has disappeared. */
    method ObserverCallback()
      requires observing && controlsBar.Some?
      modifies this
      ensures controlsBar == Some(Reassert(old(controlsBar.value), rest))
      ensures video == old(video) && rest == old(rest) && observing
      ensures initializations == old(initializations)
      ensures SpeedApplies(old(controlsBar.value), rest) ==>
        fresh(speedControl) && speedControl.Valid() &&
        speedControl.selected == DefaultOption && !speedControl.visible
      ensures !SpeedApplies(old(controlsBar.value), rest) ==> speedControl == old(speedControl)
      ensures forwardButton ==
        (old(forwardButton) || ForwardApplies(AddSpeed(old(controlsBar.value), rest), rest))
      ensures old(Valid()) ==> Valid()
    {
      if !Present(SpeedMark, Document()) {
        AddSpeedControl();
      }
      if !Present(ForwardMark, Document()) {
        AddForwardButton();
      }
    }

    /** `setPlaybackSpeed`: set the rate of the current video, if there is one. */
    method SetPlaybackSpeed(speed: real)
      modifies video
      ensures video != null ==> video.playbackRate == speed
      ensures video != null ==>
        video.currentTime == old(video.currentTime) && video.duration == old(video.duration)
    {
      if video != null {
        video.playbackRate := speed;
      }
    }

    /**
     * The click handler of option `i` of dropdown `d`: set the speed, show its label, make it
     * the only active option and hide the list.
     */
    method SelectSpeed(d: Dropdown, i: nat)
      requires d.Valid() && i < |Speeds|
      modifies video, d, d.options
      ensures d.Valid() && d.selected == i && d.display == Labels[i] && !d.visible
      ensures video != null ==> video.playbackRate == Speeds[i]
      ensures video != null ==>
        video.currentTime == old(video.currentTime) && video.duration == old(video.duration)
    {
      SetPlaybackSpeed(Speeds[i]);
      d.Choose(i);
    }

    /** The forward button's click handler: skip ten seconds, but not past the end. */
    method ForwardClick()
      modifies video
      ensures video != null ==>
        video.currentTime == SkipTarget(old(video.currentTime), old(video.duration))
      ensures video != null ==>
        video.duration == old(video.duration) && video.playbackRate == old(video.playbackRate)
    {
      if video != null {
        video.currentTime := SkipTarget(video.currentTime, video.duration);
      }
    }
  }
}
