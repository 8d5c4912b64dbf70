/**
 * The page's `<video>` element, seen through the three properties the script touches, and
 * the forward button's clamp.
 */
module Media {
  /** How far the forward button skips, in seconds. */
  const SkipSeconds: real := 10.0

  /** The host's media element; the script reassigns its properties in place. */
  class Video {
    var currentTime: real
    var duration: real
    var playbackRate: real
  }

  /**
   * `Math.min(currentTime + 10, duration)`: where the forward button moves playback. It never
   * passes the end, never skips more than ten seconds, and never moves backwards from a
   * position inside the video.
   */
  function SkipTarget(currentTime: real, duration: real): (r: real)
    ensures r <= duration && r <= currentTime + SkipSeconds
    ensures r == duration || r == currentTime + SkipSeconds
    ensures currentTime <= duration ==> currentTime <= r
  {
    if currentTime + SkipSeconds <= duration then currentTime + SkipSeconds else duration
  }
}
