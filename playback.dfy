/**
 * The playback controller of `VideoControls` (src/components/dasboard-item.tsx):
 * the flags behind "key-moment mode", the player's position, and the handlers
 * of the video element's `play`, `pause` and `timeupdate` events and of the
 * control buttons. Positions are milliseconds.
 *
 * The video element itself is outside the model: its position is the field
 * `position`, playback moving it forward is `Advance`, and a `play()` or
 * `pause()` call on it is answered later by its `play` or `pause` event, that
 * is, by a call of `OnPlay` or `OnPause`.
 */
module Playback {
  import opened Wrappers
  import opened Loader
  import Timeline

  /** Stopped, playing freely, or playing within the active range. */
  datatype Phase = Idle | Unconstrained | Scoped

  class Controller {
    var isPlaying: bool
    var isKeymomentMode: bool
    /** Set by the play button just before it starts the video. */
    var triggerKeymomentMode: bool
    /** `video.currentTime`. */
    var position: int
    /** The `currentTime` state the slider shows. */
    var shownTime: int

    function Phase(): Phase
      reads this
    {
      if !isPlaying then Idle
      else if isKeymomentMode then Scoped
      else Unconstrained
    }

    constructor ()
      ensures Phase() == Idle && !isKeymomentMode && !triggerKeymomentMode
      ensures position == 0 && shownTime == 0
    {
      isPlaying := false;
      isKeymomentMode := false;
      triggerKeymomentMode := false;
      position := 0;
      shownTime := 0;
    }

    /**
     * The play button: arms key-moment mode and, when the position lies outside
     * the active range, seeks to its start; `play()` follows.
     */
    method PlayButton(active: TimeRange)
      modifies this
      ensures triggerKeymomentMode
      ensures position == if old(position) < active.start || old(position) > active.end then active.start else old(position)
      ensures active.start <= active.end ==> active.start <= position <= active.end
      ensures isPlaying == old(isPlaying) && isKeymomentMode == old(isKeymomentMode) && shownTime == old(shownTime)
    {
      triggerKeymomentMode := true;
      if position < active.start || position > active.end {
        position := active.start;
      }
    }

    /**
     * The `play` event: scoped if the play button armed it, which it disarms;
     * free otherwise.
     */
    method OnPlay()
      modifies this
      ensures Phase() == if old(triggerKeymomentMode) then Scoped else Unconstrained
      ensures !triggerKeymomentMode
      ensures position == old(position) && shownTime == old(shownTime)
    {
      if triggerKeymomentMode {
        triggerKeymomentMode := false;
        isKeymomentMode := true;
      } else {
        isKeymomentMode := false;
      }
      isPlaying := true;
    }

    /** The `pause` event. */
    method OnPause()
      modifies this
      ensures Phase() == Idle
      ensures isKeymomentMode == old(isKeymomentMode) && triggerKeymomentMode == old(triggerKeymomentMode)
      ensures position == old(position) && shownTime == old(shownTime)
    {
      isPlaying := false;
    }

    /** The video plays on to `t`. */
    method Advance(t: int)
      modifies this
      ensures position == t
      ensures isPlaying == old(isPlaying) && isKeymomentMode == old(isKeymomentMode)
      ensures triggerKeymomentMode == old(triggerKeymomentMode) && shownTime == old(shownTime)
    {
      position := t;
    }

    /**
     * The `timeupdate` event: the slider follows the position and, in key-moment
     * mode, reaching the end of the active range asks for a pause and seeks back
     * to its start. `pause` says whether `pause()` is called.
     */
    method OnTimeUpdate(active: TimeRange) returns (pause: bool)
      modifies this
      ensures shownTime == old(position)
      ensures pause <==> old(isKeymomentMode) && old(position) >= active.end
      ensures position == if pause then active.start else old(position)
      ensures old(isKeymomentMode) && active.start < active.end ==> position < active.end
      ensures isPlaying == old(isPlaying) && isKeymomentMode == old(isKeymomentMode)
      ensures triggerKeymomentMode == old(triggerKeymomentMode)
    {
      shownTime := position;
      pause := isKeymomentMode && position >= active.end;
      if pause {
        position := active.start;
      }
    }

    /** The restart button: back to the start of the active range. */
    method Restart(active: TimeRange)
      modifies this
      ensures position == active.start
      ensures isPlaying == old(isPlaying) && isKeymomentMode == old(isKeymomentMode)
      ensures triggerKeymomentMode == old(triggerKeymomentMode) && shownTime == old(shownTime)
    {
      position := active.start;
    }

    /** The position slider (debounced in the source): the slider and the video move to `value`. */
    method SliderSeek(value: int)
      modifies this
      ensures position == value && shownTime == value
      ensures isPlaying == old(isPlaying) && isKeymomentMode == old(isKeymomentMode)
      ensures triggerKeymomentMode == old(triggerKeymomentMode)
    {
      shownTime := value;
      position := value;
    }

    /** The previous-sentence button. */
    method Previous(sentences: seq<Sentence>, boundary: Timeline.Boundary)
      modifies this
      ensures var target := Timeline.PreviousTarget(sentences, old(position), boundary);
        position == if target.Some? then target.value else old(position)
      ensures Timeline.Separated(sentences) ==>
        var k := Timeline.SentenceAt(sentences, old(position), boundary);
        k >= 1 ==> Timeline.SentenceAt(sentences, position, boundary) == k - 1
      ensures isPlaying == old(isPlaying) && isKeymomentMode == old(isKeymomentMode)
      ensures triggerKeymomentMode == old(triggerKeymomentMode) && shownTime == old(shownTime)
    {
      if Timeline.Separated(sentences) {
        Timeline.PreviousMovesBack(sentences, position, boundary);
      }
      var target := Timeline.PreviousTarget(sentences, position, boundary);
      if target.Some? {
        position := target.value;
      }
    }

    /** The next-sentence button. */
    method Next(sentences: seq<Sentence>, boundary: Timeline.Boundary)
      modifies this
      ensures var target := Timeline.NextTarget(sentences, old(position), boundary);
        position == if target.Some? then target.value else old(position)
      ensures Timeline.Separated(sentences) ==>
        var k := Timeline.SentenceAt(sentences, old(position), boundary);
        0 <= k < |sentences| - 1 ==> Timeline.SentenceAt(sentences, position, boundary) == k + 1
      ensures isPlaying == old(isPlaying) && isKeymomentMode == old(isKeymomentMode)
      ensures triggerKeymomentMode == old(triggerKeymomentMode) && shownTime == old(shownTime)
    {
      if Timeline.Separated(sentences) {
        Timeline.NextMovesOn(sentences, position, boundary);
      }
      var target := Timeline.NextTarget(sentences, position, boundary);
      if target.Some? {
        position := target.value;
      }
    }
  }
}
