/**
 * The part of the page the extension looks at, abstracted: the control bar is an ordered
 * list of its children, and each CSS selector the script uses becomes a predicate on a child.
 * "The first element matching a selector" is the least index whose element satisfies it.
 */
module Dom {
  import opened Options

  /**
   * A child of the control bar. A host element is described only by which of the script's
   * attribute-substring selectors it satisfies (several may hold at once). The two controls
   * the extension creates carry its reserved marker classes.
   */
  datatype Elem =
    | Host(playLike: bool, audioLike: bool, nextLike: bool)
    | SpeedControl   // class "livebarn-speed-control"
    | ForwardButton  // class "livebarn-forward-btn"

  /** The selectors of content.js, as data. */
  datatype Selector =
    | Play         // '[class*="play"], .vjs-play-control, button[title*="Play"], button[title*="play"]'
    | Audio        // '[class*="volume"], [class*="audio"], .vjs-volume-control, .vjs-mute-control'
    | Next         // '[class*="next"], [title*="Next"], [title*="next"]'
    | SpeedMark    // '.livebarn-speed-control'
    | ForwardMark  // '.livebarn-forward-btn'

  /**
   * Whether a selector matches an element or one of its descendants. Each created control
   * carries its own marker and no other; the speed control also matches Play, because its
   * label span has class "livebarn-speed-display", which contains "play". Host elements
   * never carry a marker.
   */
  predicate Matches(sel: Selector, e: Elem)
    ensures e.SpeedControl? ==> (Matches(sel, e) <==> sel == SpeedMark || sel == Play)
    ensures e.ForwardButton? ==> (Matches(sel, e) <==> sel == ForwardMark)
    ensures e.Host? && (sel == SpeedMark || sel == ForwardMark) ==> !Matches(sel, e)
  {
    match sel
    case Play => (e.Host? && e.playLike) || e.SpeedControl?
    case Audio => e.Host? && e.audioLike
    case Next => e.Host? && e.nextLike
    case SpeedMark => e.SpeedControl?
    case ForwardMark => e.ForwardButton?
  }

  /** The least index of `s` whose element satisfies `p`, if there is one. */
  function FirstWhere<T>(s: seq<T>, p: T -> bool): (r: Option<nat>)
    ensures r.Some? ==> r.value < |s| && p(s[r.value])
    ensures r.Some? ==> forall j :: 0 <= j < r.value ==> !p(s[j])
    ensures r.None? ==> forall j :: 0 <= j < |s| ==> !p(s[j])
  {
    if |s| == 0 then None
    else if p(s[0]) then Some(0)
    else match FirstWhere(s[1..], p)
      case None => None
      case Some(k) => Some(k + 1)
  }

  /** `querySelector(sel)` over `s`: the first matching element in document order. */
  function First(sel: Selector, s: seq<Elem>): (r: Option<nat>)
    ensures r.Some? ==> r.value < |s| && Matches(sel, s[r.value])
    ensures r.Some? ==> forall j :: 0 <= j < r.value ==> !Matches(sel, s[j])
    ensures r.None? ==> forall j :: 0 <= j < |s| ==> !Matches(sel, s[j])
  {
    FirstWhere(s, e => Matches(sel, e))
  }

  /** `querySelector(sel)` is not null. */
  predicate Present(sel: Selector, s: seq<Elem>) {
    First(sel, s).Some?
  }

  /** How many elements of `s` match `sel`. */
  function Count(sel: Selector, s: seq<Elem>): nat {
    if |s| == 0 then 0
    else (if Matches(sel, s[0]) then 1 else 0) + Count(sel, s[1..])
  }

  /** `parent.insertBefore(e, s[k])`, or an append when `k == |s|`. */
  function InsertAt(s: seq<Elem>, k: nat, e: Elem): (r: seq<Elem>)
    requires k <= |s|
    ensures |r| == |s| + 1 && r[k] == e
    ensures forall j :: 0 <= j < k ==> r[j] == s[j]
    ensures forall j :: k < j < |r| ==> r[j] == s[j - 1]
    ensures r[..k] + r[k + 1..] == s
  {
    s[..k] + [e] + s[k..]
  }

  lemma {:induction false} CountConcat(sel: Selector, a: seq<Elem>, b: seq<Elem>)
    ensures Count(sel, a + b) == Count(sel, a) + Count(sel, b)
  {
    if |a| == 0 {
      assert a + b == b;
    } else {
      assert (a + b)[1..] == a[1..] + b;
      CountConcat(sel, a[1..], b);
    }
  }

  /** A selector is present exactly when at least one element matches it. */
  lemma {:induction false} PresentIffCount(sel: Selector, s: seq<Elem>)
    ensures Present(sel, s) <==> Count(sel, s) > 0
  {
    if |s| > 0 && !Matches(sel, s[0]) {
      PresentIffCount(sel, s[1..]);
      if Present(sel, s[1..]) {
        var k := First(sel, s[1..]).value;
        assert Matches(sel, s[k + 1]);
      }
      if Present(sel, s) {
        var k := First(sel, s).value;
        assert k > 0 && s[1..][k - 1] == s[k];
      }
    }
  }

  /** Inserting one element adds one to the count of exactly the selectors it matches. */
  lemma CountInsert(sel: Selector, s: seq<Elem>, k: nat, e: Elem)
    requires k <= |s|
    ensures Count(sel, InsertAt(s, k, e)) == Count(sel, s) + (if Matches(sel, e) then 1 else 0)
  {
    var r := InsertAt(s, k, e);
    assert r == s[..k] + ([e] + s[k..]);
    CountConcat(sel, s[..k], [e] + s[k..]);
    CountConcat(sel, [e], s[k..]);
    CountConcat(sel, s[..k], s[k..]);
    assert s[..k] + s[k..] == s;
  }

  /** The first match is the unique index that matches and has no match before it. */
  lemma FirstIsLeast(sel: Selector, s: seq<Elem>, m: nat)
    requires m < |s| && Matches(sel, s[m])
    requires forall j :: 0 <= j < m ==> !Matches(sel, s[j])
    ensures First(sel, s) == Some(m)
  {
  }

  /**
   * Inserting an element that does not match `sel` leaves the first match where it was,
   * shifted by one place when it lies at or after the insertion point.
   */
  lemma FirstAfterInsert(sel: Selector, s: seq<Elem>, k: nat, e: Elem)
    requires k <= |s| && !Matches(sel, e)
    ensures First(sel, InsertAt(s, k, e)) ==
      match First(sel, s)
      case None => None
      case Some(n) => Some(if n < k then n else n + 1)
  {
    var r := InsertAt(s, k, e);
    if First(sel, s).None? {
      forall j | 0 <= j < |r| ensures !Matches(sel, r[j]) {
        if j > k { assert r[j] == s[j - 1]; }
      }
    } else {
      var n := First(sel, s).value;
      var n' := if n < k then n else n + 1;
      forall j | 0 <= j < n' ensures !Matches(sel, r[j]) {
        if j > k { assert r[j] == s[j - 1]; }
      }
      FirstIsLeast(sel, r, n');
    }
  }
}
