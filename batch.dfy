/** The decisions of `annotate_path` (lines 135-152) with the file system abstracted: the
    directory listing is a sequence of names, the file system a map from path to content,
    and the user a function giving, per image, the frames of its session. */
module Batch {
  import opened DrawParams
  import opened Session
  import opened Paths
  import opened Record

  /** What the world supplies: the frames the user produces while an image is shown, whether
      an image can be read, and the text Python writes for the float radius. */
  datatype World = World(frames: string -> seq<Frame>, readable: string -> bool, showRadius: nat -> string)

  /** Whether the `for` loop is still going, has left by `break` because `exit_flag` is set,
      is blocked in a session that never saw ESC or NEXT, or has been stopped by an image that
      could not be shown. */
  datatype Status = Running | Aborted | Blocked | Crashed

  /** The annotator's dictionary and `exit_flag`, the file system, the names annotated so
      far (in order), and the loop status. */
  datatype BatchState = BatchState(draw: State, exitFlag: bool, fs: map<string, string>,
                                   sessions: seq<string>, status: Status)

  /** Lines 137-139 as a function of the input name: what the loop below is given as `name`. */
  function OutNames(outPath: string): string -> string
  {
    f => OutFilename(outPath, f)
  }

  /** The `for` loop over `files` from state `b`; `name` derives the output path of an input
      name (`OutNames(out_path)` in the source). */
  function RunBatch(files: seq<string>, name: string -> string, w: World, b: BatchState): BatchState
    decreases |files|
  {
    if files == [] || b.status != Running then b
    else
      var f := files[0];
      var out := name(f);
      if out in b.fs then RunBatch(files[1..], name, w, b)
      else if !w.readable(f) then b.(status := Crashed)
      else
        var r := RunSession(Loop(b.draw, []), w.frames(f));
        var b1 := b.(draw := r.loop.draw, exitFlag := b.exitFlag || r.escaped, sessions := b.sessions + [f]);
        if !r.ended then b1.(status := Blocked)
        else if b1.exitFlag then b1.(status := Aborted)
        else RunBatch(files[1..], name, w, b1.(fs := b1.fs[out := RecordText(r.loop.circles, w.showRadius)]))
  }

  /** The loop over a concatenation is the loop over the second part from where the first
      part left it. */
  lemma {:induction false} RunBatchAppend(xs: seq<string>, ys: seq<string>, name: string -> string, w: World, b: BatchState)
    ensures RunBatch(xs + ys, name, w, b) == RunBatch(ys, name, w, RunBatch(xs, name, w, b))
    decreases |xs|
  {
    if xs == [] {
      assert xs + ys == ys;
    } else if b.status == Running {
      assert (xs + ys)[0] == xs[0] && (xs + ys)[1..] == xs[1..] + ys;
      var f := xs[0];
      var out := name(f);
      if out in b.fs {
        RunBatchAppend(xs[1..], ys, name, w, b);
      } else if w.readable(f) {
        var r := RunSession(Loop(b.draw, []), w.frames(f));
        if r.ended && !(b.exitFlag || r.escaped) {
          var b1 := b.(draw := r.loop.draw, exitFlag := b.exitFlag || r.escaped, sessions := b.sessions + [f]);
          RunBatchAppend(xs[1..], ys, name, w, b1.(fs := b1.fs[out := RecordText(r.loop.circles, w.showRadius)]));
        }
      }
    }
  }

  /** Once the loop has stopped, no later file is looked at. */
  lemma StoppedIgnoresLaterFiles(xs: seq<string>, ys: seq<string>, name: string -> string, w: World, b: BatchState)
    requires RunBatch(xs, name, w, b).status != Running
    ensures RunBatch(xs + ys, name, w, b) == RunBatch(xs, name, w, b)
  {
    RunBatchAppend(xs, ys, name, w, b);
  }

  /** A file whose output already exists is skipped without a session. */
  lemma ExistingOutputIsSkipped(f: string, rest: seq<string>, name: string -> string, w: World, b: BatchState)
    requires b.status == Running && name(f) in b.fs
    ensures RunBatch([f] + rest, name, w, b) == RunBatch(rest, name, w, b)
  {
    assert ([f] + rest)[1..] == rest;
  }

  /** After a session ending with ESC (or any session once `exit_flag` is set) nothing is
      written for the file and the loop stops. */
  lemma ExitWritesNothing(f: string, rest: seq<string>, name: string -> string, w: World, b: BatchState)
    requires b.status == Running && name(f) !in b.fs && w.readable(f)
    requires var r := RunSession(Loop(b.draw, []), w.frames(f)); r.ended && (r.escaped || b.exitFlag)
    ensures var r := RunBatch([f] + rest, name, w, b);
      r.status == Aborted && r.fs == b.fs && r.sessions == b.sessions + [f] && r.exitFlag
  {
  }

  /** After a session ending with NEXT and no exit flag, the record of the session's circles
      is written under the derived name and the loop goes on with the next file. */
  lemma NextWritesRecord(f: string, rest: seq<string>, name: string -> string, w: World, b: BatchState)
    requires b.status == Running && name(f) !in b.fs && w.readable(f) && !b.exitFlag
    requires var r := RunSession(Loop(b.draw, []), w.frames(f)); r.ended && !r.escaped
    ensures var r := RunSession(Loop(b.draw, []), w.frames(f));
      RunBatch([f] + rest, name, w, b) ==
      RunBatch(rest, name, w, BatchState(r.loop.draw, false,
                                            b.fs[name(f) := RecordText(r.loop.circles, w.showRadius)],
                                            b.sessions + [f], Running))
  {
    assert ([f] + rest)[1..] == rest;
  }

  /** Resume: records present before the loop are never changed, and the names annotated
      before stay at the front of the list. */
  lemma {:induction false} ExistingOutputsAreKept(files: seq<string>, name: string -> string, w: World, b: BatchState)
    ensures var r := RunBatch(files, name, w, b);
      b.fs.Keys <= r.fs.Keys && (forall p :: p in b.fs ==> r.fs[p] == b.fs[p]) &&
      |b.sessions| <= |r.sessions| && r.sessions[..|b.sessions|] == b.sessions
    decreases |files|
  {
    if files != [] && b.status == Running {
      var f := files[0];
      var out := name(f);
      if out in b.fs {
        ExistingOutputsAreKept(files[1..], name, w, b);
      } else if w.readable(f) {
        var r := RunSession(Loop(b.draw, []), w.frames(f));
        var b1 := b.(draw := r.loop.draw, exitFlag := b.exitFlag || r.escaped, sessions := b.sessions + [f]);
        if r.ended && !b1.exitFlag {
          var b2 := b1.(fs := b1.fs[out := RecordText(r.loop.circles, w.showRadius)]);
          ExistingOutputsAreKept(files[1..], name, w, b2);
          var res := RunBatch(files, name, w, b);
          assert res == RunBatch(files[1..], name, w, b2);
          assert res.sessions[..|b.sessions|] == res.sessions[..|b2.sessions|][..|b.sessions|];
        }
      }
    }
  }

  /** Resume: no session runs for a file whose output name existed before the loop. */
  lemma {:induction false} NoSessionForExistingOutput(files: seq<string>, name: string -> string, w: World, b: BatchState)
    ensures var r := RunBatch(files, name, w, b);
      forall i :: |b.sessions| <= i < |r.sessions| ==> name(r.sessions[i]) !in b.fs
    decreases |files|
  {
    if files != [] && b.status == Running {
      var f := files[0];
      var out := name(f);
      if out in b.fs {
        assert RunBatch(files, name, w, b) == RunBatch(files[1..], name, w, b);
        NoSessionForExistingOutput(files[1..], name, w, b);
      } else if w.readable(f) {
        var r := RunSession(Loop(b.draw, []), w.frames(f));
        var b1 := b.(draw := r.loop.draw, exitFlag := b.exitFlag || r.escaped, sessions := b.sessions + [f]);
        var res := RunBatch(files, name, w, b);
        if r.ended && !b1.exitFlag {
          var b2 := b1.(fs := b1.fs[out := RecordText(r.loop.circles, w.showRadius)]);
          NoSessionForExistingOutput(files[1..], name, w, b2);
          ExistingOutputsAreKept(files[1..], name, w, b2);
          assert res == RunBatch(files[1..], name, w, b2);
          assert res.sessions[|b.sessions|] == b2.sessions[|b.sessions|] == f;
          forall i | |b.sessions| <= i < |res.sessions| ensures name(res.sessions[i]) !in b.fs {
            if i > |b.sessions| {
              assert name(res.sessions[i]) !in b2.fs;
            }
          }
        } else {
          assert res.sessions == b1.sessions;
        }
      }
    }
  }

  /** An image that cannot be shown ends the batch at once, before any session or write. */
  lemma UnreadableStopsBatch(f: string, rest: seq<string>, name: string -> string, w: World, b: BatchState)
    requires b.status == Running && name(f) !in b.fs && !w.readable(f)
    ensures RunBatch([f] + rest, name, w, b) == b.(status := Crashed)
  {
  }

  /** A session that never sees ESC or NEXT leaves the loop waiting: the file is recorded as
      annotated, nothing is written, and the batch stops as `Blocked`. */
  lemma UnfinishedSessionBlocks(f: string, rest: seq<string>, name: string -> string, w: World, b: BatchState)
    requires b.status == Running && name(f) !in b.fs && w.readable(f)
    requires !RunSession(Loop(b.draw, []), w.frames(f)).ended
    ensures var r := RunBatch([f] + rest, name, w, b);
      r.status == Blocked && r.fs == b.fs && r.sessions == b.sessions + [f]
  {
  }

  /** Every record the loop writes is the record of a file it annotated, under that file's
      derived name. */
  lemma {:induction false} NewRecordsComeFromSessions(files: seq<string>, name: string -> string, w: World, b: BatchState)
    ensures var r := RunBatch(files, name, w, b);
      forall p :: p in r.fs && p !in b.fs ==>
        exists i :: |b.sessions| <= i < |r.sessions| && name(r.sessions[i]) == p
    decreases |files|
  {
    if files != [] && b.status == Running {
      var f := files[0];
      var out := name(f);
      if out in b.fs {
        NewRecordsComeFromSessions(files[1..], name, w, b);
      } else if w.readable(f) {
        var r := RunSession(Loop(b.draw, []), w.frames(f));
        var b1 := b.(draw := r.loop.draw, exitFlag := b.exitFlag || r.escaped, sessions := b.sessions + [f]);
        if r.ended && !b1.exitFlag {
          var b2 := b1.(fs := b1.fs[out := RecordText(r.loop.circles, w.showRadius)]);
          NewRecordsComeFromSessions(files[1..], name, w, b2);
          ExistingOutputsAreKept(files[1..], name, w, b2);
          var res := RunBatch(files, name, w, b);
          assert res == RunBatch(files[1..], name, w, b2);
          assert res.sessions[|b.sessions|] == b2.sessions[|b.sessions|] == f;
          forall p | p in res.fs && p !in b.fs
            ensures exists i :: |b.sessions| <= i < |res.sessions| && name(res.sessions[i]) == p
          {
            if p == out {
              assert name(res.sessions[|b.sessions|]) == p;
            } else {
              assert p !in b2.fs;
            }
          }
        }
      }
    }
  }

  /** Whether the last name of `sessions` has no record in `fs`. */
  predicate LastHasNoRecord(name: string -> string, sessions: seq<string>, fs: map<string, string>) {
    |sessions| > 0 && name(sessions[|sessions| - 1]) !in fs
  }

  /** When the loop leaves by `break` on `exit_flag`, the file annotated last has no record. */
  lemma {:induction false} AbortedFileHasNoRecord(files: seq<string>, name: string -> string, w: World, b: BatchState)
    requires b.status == Running
    ensures var r := RunBatch(files, name, w, b);
      r.status == Aborted ==> |r.sessions| > |b.sessions| && LastHasNoRecord(name, r.sessions, r.fs)
    decreases |files|
  {
    if files != [] {
      var f := files[0];
      var out := name(f);
      var res := RunBatch(files, name, w, b);
      if out in b.fs {
        assert res == RunBatch(files[1..], name, w, b);
        AbortedFileHasNoRecord(files[1..], name, w, b);
      } else if w.readable(f) {
        var r := RunSession(Loop(b.draw, []), w.frames(f));
        var b1 := b.(draw := r.loop.draw, exitFlag := b.exitFlag || r.escaped, sessions := b.sessions + [f]);
        if r.ended && b1.exitFlag {
          assert res == b1.(status := Aborted);
          assert res.sessions[|res.sessions| - 1] == f;
        } else if r.ended {
          var b2 := b1.(fs := b1.fs[out := RecordText(r.loop.circles, w.showRadius)]);
          assert res == RunBatch(files[1..], name, w, b2);
          AbortedFileHasNoRecord(files[1..], name, w, b2);
        }
      }
    }
  }

  /** The loop keeps the handler's flag invariant across images. */
  lemma {:induction false} RunBatchKeepsInv(files: seq<string>, name: string -> string, w: World, b: BatchState)
    requires Inv(b.draw)
    ensures Inv(RunBatch(files, name, w, b).draw)
    decreases |files|
  {
    if files != [] && b.status == Running {
      var f := files[0];
      if name(f) in b.fs {
        RunBatchKeepsInv(files[1..], name, w, b);
      } else if w.readable(f) {
        var r := RunSession(Loop(b.draw, []), w.frames(f));
        RunSessionKeepsInv(Loop(b.draw, []), w.frames(f));
        if r.ended && !(b.exitFlag || r.escaped) {
          RunBatchKeepsInv(files[1..], name, w,
            BatchState(r.loop.draw, false, b.fs[name(f) := RecordText(r.loop.circles, w.showRadius)],
                       b.sessions + [f], Running));
        }
      }
    }
  }

  /** Two files with the same derived name: the second is skipped once the first is written. */
  lemma SameOutputNameIsWrittenOnce(f: string, g: string, rest: seq<string>, name: string -> string, w: World, b: BatchState)
    requires name(f) == name(g)
    requires b.status == Running && name(f) !in b.fs && w.readable(f) && !b.exitFlag
    requires var r := RunSession(Loop(b.draw, []), w.frames(f)); r.ended && !r.escaped
    ensures var r := RunSession(Loop(b.draw, []), w.frames(f));
      RunBatch([f, g] + rest, name, w, b) ==
      RunBatch(rest, name, w, BatchState(r.loop.draw, false,
                                            b.fs[name(f) := RecordText(r.loop.circles, w.showRadius)],
                                            b.sessions + [f], Running))
  {
    var r := RunSession(Loop(b.draw, []), w.frames(f));
    var b2 := BatchState(r.loop.draw, false, b.fs[name(f) := RecordText(r.loop.circles, w.showRadius)],
                         b.sessions + [f], Running);
    NextWritesRecord(f, [g] + rest, name, w, b);
    assert [f, g] + rest == [f] + ([g] + rest);
    ExistingOutputIsSkipped(g, rest, name, w, b2);
  }
}
