/** `CircleCenterAnnotator`: owns the draw-state dictionary the mouse callback updates and
    the `exit_flag`; `annotate_image` is the per-image loop and `annotate_path` the batch loop.
    Window calls, drawing and file I/O are replaced by the inputs of `Session` and `Batch`. */
module Annotator {
  import opened CustomTypes
  import opened DrawParams
  import opened Session
  import opened Paths
  import opened Record
  import opened Batch

  class CircleCenterAnnotator {
    /** `self.draw_params`, the dictionary registered with `setMouseCallback`. */
    const drawParams: DrawState
    /** `self.exit_flag`. */
    var exitFlag: bool

    /** Lines 72-84: a fresh dictionary with both flags false, and `exit_flag` false. */
    constructor ()
      ensures fresh(drawParams) && drawParams.Value() == Initial && !exitFlag
    {
      drawParams := new DrawState();
      exitFlag := false;
    }

    /** The mouse events queued during `waitKey`, delivered to the callback in order. */
    method DeliverEvents(events: seq<MouseEvent>)
      modifies drawParams
      ensures drawParams.Value() == Deliver(old(drawParams.Value()), events)
    {
      for j := 0 to |events|
        invariant drawParams.Value() == Deliver(old(drawParams.Value()), events[..j])
      {
        MouseCallback(events[j], drawParams);
        DeliverAppend(old(drawParams.Value()), events[..j], events[j]);
        assert events[..j + 1] == events[..j] + [events[j]];
      }
      assert events[..|events|] == events;
    }

    /** Lines 87-124: the loop over `frames` until ESC or NEXT. `ended` is false when the frames
        run out first: the source would still be waiting for a key. */
    method AnnotateImage(frames: seq<Frame>) returns (circles: seq<Circle>, ended: bool)
      modifies this, drawParams
      ensures var r := RunSession(Loop(old(drawParams.Value()), []), frames);
        circles == r.loop.circles && drawParams.Value() == r.loop.draw && ended == r.ended &&
        exitFlag == (old(exitFlag) || r.escaped)
    {
      circles := [];
      ended := false;
      ghost var start := Loop(drawParams.Value(), []);
      var i := 0;
      while i < |frames|
        invariant 0 <= i <= |frames|
        invariant RunSession(start, frames) == RunSession(Loop(drawParams.Value(), circles), frames[i..])
        invariant exitFlag == old(exitFlag) && !ended
      {
        var frame := frames[i];
        ghost var before := Loop(drawParams.Value(), circles);
        assert frames[i..][0] == frame && frames[i..][1..] == frames[i + 1..];
        var isFinished := drawParams.finished;
        var haveCenter := drawParams.haveCenter;
        if isFinished {
          circles := circles + [Circle(drawParams.center, drawParams.radiusSq)];
          drawParams.finished := false;
        }
        assert Loop(drawParams.Value(), circles) == Collect(before);
        DeliverEvents(frame.events);
        if frame.key == Undo && |circles| > 0 {
          if haveCenter {
            drawParams.haveCenter := false;
          } else {
            circles := circles[..|circles| - 1];
          }
        }
        assert Loop(drawParams.Value(), circles) == FrameStep(before, frame);
        if frame.key == Esc {
          exitFlag := true;
          ended := true;
          break;
        }
        if frame.key == Next {
          ended := true;
          break;
        }
        i := i + 1;
      }
    }

    /** Lines 127-153: the batch loop over `files`. `fs0` is the file system before the loop;
        the result is the file system after it, the names annotated, in order, and why the
        loop ended. Names are taken in the given order. */
    method AnnotatePath(files: seq<string>, outPath: string, w: World, fs0: map<string, string>)
      returns (fs: map<string, string>, sessions: seq<string>, status: Status)
      modifies this, drawParams
      ensures var r := RunBatch(files, OutNames(outPath), w, BatchState(old(drawParams.Value()), old(exitFlag), fs0, [], Running));
        fs == r.fs && sessions == r.sessions && status == r.status &&
        drawParams.Value() == r.draw && exitFlag == r.exitFlag
    {
      fs, sessions, status := fs0, [], Running;
      ghost var start := BatchState(drawParams.Value(), exitFlag, fs0, [], Running);
      var i := 0;
      while i < |files|
        invariant 0 <= i <= |files| && status == Running
        invariant RunBatch(files, OutNames(outPath), w, start) ==
                  RunBatch(files[i..], OutNames(outPath), w, BatchState(drawParams.Value(), exitFlag, fs, sessions, Running))
      {
        var filename := files[i];
        assert files[i..][0] == filename && files[i..][1..] == files[i + 1..];
        var outFilename := OutFilename(outPath, filename);
        assert OutNames(outPath)(filename) == outFilename;
        if outFilename in fs {
          i := i + 1;
          continue;
        }
        if !w.readable(filename) {
          status := Crashed;
          break;
        }
        var circles, ended := AnnotateImage(w.frames(filename));
        sessions := sessions + [filename];
        if !ended {
          status := Blocked;
          break;
        }
        if exitFlag {
          status := Aborted;
          break;
        }
        var text := WriteRecord(circles, w.showRadius);
        fs := fs[outFilename := text];
        i := i + 1;
      }
    }
  }
}
