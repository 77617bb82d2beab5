/** The application's page navigation: registered pages by name, the page on
    show and a history stack of the pages shown before it. Pages are opaque
    values of type F; packing, raising and the pages' own refresh hooks are
    left to the toolkit. */
module FrameManager {
  import opened Outcomes

  class Manager<F> {
    var frames: map<string, F>
    var currentFrame: Option<F>
    var frameHistory: seq<F>

    constructor ()
      ensures frames == map[] && currentFrame == None && frameHistory == []
    {
      frames := map[];
      currentFrame := None;
      frameHistory := [];
    }

    /** register_frame: the name now maps to the frame; other names are kept. */
    method RegisterFrame(name: string, frame: F)
      modifies this
      ensures frames == old(frames)[name := frame]
      ensures forall n :: n in old(frames) && n != name ==> n in frames && frames[n] == old(frames)[n]
      ensures currentFrame == old(currentFrame) && frameHistory == old(frameHistory)
    {
      frames := frames[name := frame];
    }

    /** show_frame: an unknown name is refused and nothing changes; otherwise the
        page on show (if any, even the same one) is pushed on the history and the
        named page is shown. */
    method ShowFrame(name: string) returns (shown: bool)
      modifies this
      ensures shown <==> name in old(frames)
      ensures frames == old(frames)
      ensures !shown ==> currentFrame == old(currentFrame) && frameHistory == old(frameHistory)
      ensures shown ==> currentFrame == Some(frames[name])
      ensures shown ==> frameHistory == old(frameHistory) + (if old(currentFrame).Some? then [old(currentFrame).value] else [])
    {
      if name !in frames {
        return false;
      }
      if currentFrame.Some? {
        frameHistory := frameHistory + [currentFrame.value];
      }
      currentFrame := Some(frames[name]);
      return true;
    }

    /** go_back: with an empty history nothing changes; otherwise the last page
        of the history is popped and shown, and the page it replaces is dropped. */
    method GoBack() returns (went: bool)
      modifies this
      ensures went <==> |old(frameHistory)| > 0
      ensures frames == old(frames)
      ensures !went ==> currentFrame == old(currentFrame) && frameHistory == old(frameHistory)
      ensures went ==> currentFrame == Some(old(frameHistory)[|old(frameHistory)| - 1])
                       && frameHistory == old(frameHistory)[..|old(frameHistory)| - 1]
    {
      if |frameHistory| == 0 {
        return false;
      }
      var previous := frameHistory[|frameHistory| - 1];
      frameHistory := frameHistory[..|frameHistory| - 1];
      currentFrame := Some(previous);
      return true;
    }
  }

  /** Showing a registered page while another is on show and then going back
      restores the page on show and the history. */
  method ShowThenBack<F>(m: Manager<F>, name: string) returns (shown: bool, went: bool)
    requires name in m.frames && m.currentFrame.Some?
    modifies m
    ensures shown && went
    ensures m.currentFrame == old(m.currentFrame) && m.frameHistory == old(m.frameHistory)
    ensures m.frames == old(m.frames)
  {
    shown := m.ShowFrame(name);
    went := m.GoBack();
    assert old(m.frameHistory) + [old(m.currentFrame).value] == m.frameHistory + [old(m.currentFrame).value];
  }
}
