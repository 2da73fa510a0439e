# Circle-center annotator: a verified model

This project models the annotation core of `cv_annotators/circle_center.py`. A human marks
circles on each image of a directory. The first left click places a center. Mouse moves then
drag the radius. A second click fixes the radius. UNDO, ESC and NEXT keys control the list of
circles. A batch loop skips images whose `.txt` record already exists, runs one session per
image, and writes an `x,y,radius` line per circle.

Modules, one per part of the source:

- `CustomTypes` (`custom_types.dfy`): `Point` and `Circle`, the two aliases of `custom_types.py`.
- `Radius` (`radius.dfy`): `estimate_radius`, kept as the sum of squared coordinate differences.
- `DrawParams` (`draw_params.dfy`): the `draw_params` dictionary as a value (`State`) and as an
  object (`DrawState`). `mouse_callback` is the function `OnMouse` and the method
  `MouseCallback`. A reference machine over the tagged states Idle / Placing / Committed
  is stated, and the flags are proved to follow it.
- `Session` (`session.dfy`): one iteration of the `annotate_image` loop (`FrameStep`) and the
  loop up to ESC or NEXT (`RunSession`).
- `Paths` (`paths.dfy`): `os.path.splitext`, `str.replace` and `os.path.join` as used by
  `annotate_path`.
- `Record` (`record.dfy`): the text written per image, a reader for it, and the round trip.
- `Batch` (`batch.dfy`): the decision logic of `annotate_path` over an abstract file system.
  `RunBatch` and its lemmas hold for any function from input name to output name; the class
  instantiates it with `OutNames(out_path)`, the derivation of lines 137-139.
- `Annotator` (`annotator.dfy`): the class `CircleCenterAnnotator`. Its methods change the
  dictionary and `exit_flag` in place. They are proved equal to the functions above.
- `Optional` (`optional.dfy`): an `Option` type.

Abstractions:

- Radius: a circle stores `radiusSq`, the integer squared distance. The source stores its
  square root as a float.
- Radius text: the record's radius text comes from a parameter `showRadius: nat -> string`,
  standing for Python's float text of the root.
- Events: a session's input is a finite sequence of `Frame`s. A frame holds the mouse events
  delivered during one `waitKey` call and the key it returned
  (`Key = Undo | Esc | Next | Other | NoKey`).
- File system: a `map` from path to content. A path exists when it is a key.
- World: the user's frames per image, whether an image can be read, and the radius text are
  bundled in `Batch.World`.

The model follows the code as written, including these behaviours:

- UNDO is honoured only when the list of circles is non-empty (line 109). With an empty list,
  a pending center is not cancelled.
- UNDO tests the `have_center` snapshot taken at the top of the frame (line 95). It does not
  test the current flag.
- The dictionary is created once, in the constructor. It is not reset per image. A circle
  finished in the same frame as NEXT is collected into the next image's list.
- A finished circle is committed by the next frame, not by the click. A second click in the
  same frame overwrites it.
- The output name replaces every occurrence of the extension, so `a.png.png` becomes
  `a.txt.txt`. A name without an extension gets `.txt` around every character (replacing the
  empty string).
- Written records count as existing files. A second image with the same output name is
  therefore skipped.

## Model

| member | source | states |
|---|---|---|
| `Radius.SumSqDiff` | cv_annotators/circle_center.py:41-43 | the sum of squared differences over zipped coordinates is zero exactly when all paired coordinates agree |
| `Radius.EstimateRadiusSq` | cv_annotators/circle_center.py:38-43 | the squared radius is zero exactly when the edge point is the center |
| `Radius.EstimateRadiusSqIsEuclidean` | cv_annotators/circle_center.py:41-43 | the squared radius is the squared Euclidean distance (dx² + dy²) |
| `Radius.EstimateRadiusSqSymmetric` | cv_annotators/circle_center.py:41-43 | the distance does not depend on the order of center and edge point |
| `Radius.SumSqDiffSymmetric` | cv_annotators/circle_center.py:41-42 | paired squared differences are symmetric in the two coordinate lists |
| `Radius.ThreeFourFive` | cv_annotators/circle_center.py:38-43 | center (0,0) and edge (3,4) give radius 5 (squared 25) |
| `DrawParams.OnMouse` | cv_annotators/circle_center.py:46-65 | a left click flips `have_center` and leaves the two flags never both set; any other event keeps the center and both flags |
| `DrawParams.MouseCallback` | cv_annotators/circle_center.py:46-65 | the callback updates the dictionary in place exactly as `OnMouse` says |
| `DrawParams.DrawState.constructor` | cv_annotators/circle_center.py:73-78 | the dictionary starts at center (0,0), radius 0, both flags false |
| `DrawParams.LeftClickPlacesCenter` | cv_annotators/circle_center.py:55-59 | a click with no center pending sets the center to the click, radius 0, `have_center` true and `finished` false |
| `DrawParams.LeftClickFinishesCircle` | cv_annotators/circle_center.py:51-54 | a click with a center pending sets `finished`, clears `have_center`, keeps the center and sets the radius to its distance from the click |
| `DrawParams.MouseMoveTracksRadius` | cv_annotators/circle_center.py:61-65 | a move with a center pending changes only the radius, to the distance to the pointer; a move with none, or another event, changes nothing |
| `DrawParams.DeliverKeepsInv` | cv_annotators/circle_center.py:51-59 | any run of events keeps `have_center` and `finished` from being true together |
| `DrawParams.NeverPendingAndFinished` | cv_annotators/circle_center.py:46-78 | from the constructor's dictionary no run of events reaches `have_center && finished` |
| `DrawParams.LastMove` | cv_annotators/circle_center.py:61-63 | there is a result exactly when some event is a mouse move, and it is the pointer position of the last such move |
| `DrawParams.MovesFollowPointer` | cv_annotators/circle_center.py:61-63 | without clicks, center and flags stay put and a pending circle's radius is the distance to the last move |
| `DrawParams.OnMouseFollowsPhases` | cv_annotators/circle_center.py:49-63 | the flags move along the reference transitions Idle→Placing→Committed→Placing on clicks, unchanged otherwise |
| `DrawParams.DeliverFollowsPhases` | cv_annotators/circle_center.py:49-63 | a whole run of events moves the flags as the reference machine does |
| `Session.Collect` | cv_annotators/circle_center.py:102-105 | after the commit step `finished` is false, and a state whose `finished` is false is left unchanged, so no circle is added |
| `Session.FinishedCircleIsAppended` | cv_annotators/circle_center.py:94-105 | with `finished` set, exactly (center, radius) is appended after the unchanged earlier circles and `finished` is cleared |
| `Session.UndoKey` | cv_annotators/circle_center.py:109-113 | UNDO never lengthens the list |
| `Session.UndoCancelsPendingCenter` | cv_annotators/circle_center.py:109-111 | UNDO with circles and a pending center in the snapshot clears `have_center` and keeps the list |
| `Session.UndoRemovesLastCircle` | cv_annotators/circle_center.py:109-113 | UNDO with circles and no pending center in the snapshot removes exactly the last circle |
| `Session.UndoOnEmptyListIsIgnored` | cv_annotators/circle_center.py:109 | UNDO on an empty list acts as no key, even with a center pending |
| `Session.OtherKeysKeepList` | cv_annotators/circle_center.py:102-122 | keys other than UNDO leave the list as the commit step left it and the dictionary as the events left it |
| `Session.UndoUsesStaleSnapshot` | cv_annotators/circle_center.py:95-113 | a center placed in the same frame as UNDO survives while the previous circle is removed |
| `Session.SecondClickInFrameLosesCommit` | cv_annotators/circle_center.py:49-59 | an edge click followed by another click in one frame loses the finished circle and starts a new center |
| `Session.RunSession` | cv_annotators/circle_center.py:91-124 | a session that set `exit_flag` has ended |
| `Session.FirstStop` | cv_annotators/circle_center.py:117-122 | the index found is the first frame whose key is ESC or NEXT; none is found when no frame has one |
| `Session.RunSessionStopsAtFirstKey` | cv_annotators/circle_center.py:91-124 | the session is the loop body applied to every frame up to and including the first ESC or NEXT; it has `escaped` exactly when that key is ESC; without such a key all frames are processed and it has not ended |
| `Session.FrameStepKeepsInv` | cv_annotators/circle_center.py:94-113 | one iteration keeps the flag invariant |
| `Session.RunSessionKeepsInv` | cv_annotators/circle_center.py:91-122 | the whole session keeps the flag invariant |
| `Session.ClickPairCommitsOneCircle` | cv_annotators/circle_center.py:91-122 | a center click and an edge click followed by NEXT return the earlier circles plus exactly one circle (center, distance) |
| `Session.ClickDragClickCommitsOneCircle` | cv_annotators/circle_center.py:49-122 | a center click, a frame of pointer moves, an edge click and NEXT return the earlier circles plus exactly one circle (center, distance to the edge click) |
| `Session.CommitCarriesOverToNextImage` | cv_annotators/circle_center.py:87-105 | an edge click in the NEXT frame is not returned; the next session's first frame collects it |
| `Paths.RFind` | cv_annotators/circle_center.py:137 | the result is the last index of the character, or -1 when it does not occur |
| `Paths.SplitExt` | cv_annotators/circle_center.py:137 | root + ext is the name; ext is empty or a dot with no further dot or '/'; a non-empty ext follows a last component with a non-dot character |
| `Paths.SplitExtNoDot` | cv_annotators/circle_center.py:137 | a name without a dot has an empty extension |
| `Paths.SplitExtOfName` | cv_annotators/circle_center.py:137 | for `stem.e` with a plain stem the extension is `.e` |
| `Paths.SplitExtDotfile` | cv_annotators/circle_center.py:137 | leading dots do not start an extension |
| `Paths.InsertEverywhere` | cv_annotators/circle_center.py:138 | replacing the empty string gives the length of one copy per character plus one more, on top of the characters |
| `Paths.InsertEverywhereCopies` | cv_annotators/circle_center.py:138 | replacing the empty string puts a copy of the new text before every character and at the end |
| `Paths.InsertEverywhereChars` | cv_annotators/circle_center.py:138 | replacing the empty string keeps every character, in order, each right after its copy |
| `Paths.ReplaceAbsent` | cv_annotators/circle_center.py:138 | replacement leaves a string without occurrences unchanged |
| `Paths.ReplaceAtEndOnly` | cv_annotators/circle_center.py:138 | when the target occurs only at the end, exactly that occurrence is replaced |
| `Paths.ExtensionOccursOnlyAtEnd` | cv_annotators/circle_center.py:137-138 | an extension absent from the stem cannot occur across the stem's end |
| `Paths.JoinShape` | cv_annotators/circle_center.py:139 | the joined path ends with the name; for a relative name it starts with the directory and exactly one '/' is added between them unless the directory is empty or already ends in '/'; an absolute name replaces the directory |
| `Paths.OutFilenameOfImage` | cv_annotators/circle_center.py:137-139 | an ordinary `stem.e` maps to `stem.txt` in the output directory |
| `Paths.OutFilenameExample` | cv_annotators/circle_center.py:137-139 | `img1.png` in `out` maps to `out/img1.txt` |
| `Paths.RepeatedExtensionIsReplacedTwice` | cv_annotators/circle_center.py:137-139 | `a.png.png` maps to `out/a.txt.txt` |
| `Paths.NoExtensionIsReplacedEverywhere` | cv_annotators/circle_center.py:137-139 | `ab` maps to `out/.txta.txtb.txt` |
| `Record.NatToDecimal` | cv_annotators/circle_center.py:151 | a non-empty run of digits without a leading zero |
| `Record.IntToDecimal` | cv_annotators/circle_center.py:151 | starts with '-' exactly for negatives, has no leading zero (after the sign for negatives) and holds no comma or newline |
| `Record.NatRoundTrip` | cv_annotators/circle_center.py:151 | reading the digits back gives the number |
| `Record.IntRoundTrip` | cv_annotators/circle_center.py:151 | reading a written coordinate back gives the coordinate |
| `Record.WriteRecord` | cv_annotators/circle_center.py:149-152 | the text written circle by circle is the record of the list |
| `Record.RecordRoundTrip` | cv_annotators/circle_center.py:149-152 | the record reads back as one `x,y,radius` line per circle, in list order, with each center and radius text |
| `Record.RecordExample` | cv_annotators/circle_center.py:149-152 | circles ((10,10),5) and ((50,60),13) give `10,10,5.0\n50,60,13.0\n` |
| `Batch.RunBatchAppend` | cv_annotators/circle_center.py:135-152 | the loop over xs + ys is the loop over ys from where xs left it |
| `Batch.StoppedIgnoresLaterFiles` | cv_annotators/circle_center.py:146-147 | once the loop has stopped no later file is examined |
| `Batch.ExistingOutputIsSkipped` | cv_annotators/circle_center.py:140-141 | a file whose output exists is skipped without a session |
| `Batch.UnreadableStopsBatch` | cv_annotators/circle_center.py:143-144 | an image that cannot be loaded ends the batch with status `Crashed`, with no session and no write |
| `Batch.UnfinishedSessionBlocks` | cv_annotators/circle_center.py:91-144 | a session that never sees ESC or NEXT writes nothing and stops the batch as `Blocked`, with that file the last annotated |
| `Batch.ExitWritesNothing` | cv_annotators/circle_center.py:144-147 | after a session with `exit_flag` set nothing is written and the loop ends |
| `Batch.NextWritesRecord` | cv_annotators/circle_center.py:143-152 | after a NEXT session the record of its circles is written under the derived name and the loop goes on |
| `Batch.ExistingOutputsAreKept` | cv_annotators/circle_center.py:140-152 | existing records are never changed and the names annotated before stay at the front of the list |
| `Batch.NoSessionForExistingOutput` | cv_annotators/circle_center.py:137-141 | no session runs for a file whose output name existed before the loop |
| `Batch.NewRecordsComeFromSessions` | cv_annotators/circle_center.py:137-152 | every new record is under the derived name of an annotated file |
| `Batch.AbortedFileHasNoRecord` | cv_annotators/circle_center.py:146-149 | after the break on `exit_flag` the file annotated last has no record |
| `Batch.RunBatchKeepsInv` | cv_annotators/circle_center.py:135-152 | the flag invariant holds across images |
| `Batch.SameOutputNameIsWrittenOnce` | cv_annotators/circle_center.py:137-152 | a second file with the same output name is skipped after the first is written |
| `Annotator.CircleCenterAnnotator.constructor` | cv_annotators/circle_center.py:72-84 | a fresh dictionary at its initial value and `exit_flag` false |
| `Annotator.CircleCenterAnnotator.DeliverEvents` | cv_annotators/circle_center.py:107 | the events queued during `waitKey` reach the callback in order |
| `Annotator.CircleCenterAnnotator.AnnotateImage` | cv_annotators/circle_center.py:87-124 | the loop returns the circles of `RunSession`, leaves the dictionary at its final state and sets `exit_flag` exactly on ESC |
| `Annotator.CircleCenterAnnotator.AnnotatePath` | cv_annotators/circle_center.py:127-153 | the batch loop leaves the file system, the list of annotated names, the dictionary and `exit_flag` as `RunBatch` says |

## Left out

- Rendering: `draw_circle`, `redraw`, `cv2.imshow` and the `int(radius)` truncation at draw time (lines 13-35, 92, 96-101, 114). They only draw.
- Window calls: `namedWindow`, `setMouseCallback`, `waitKey`, `destroyWindow` (lines 79-81, 107, 156-158). Only their effect is modelled: the events and key of each frame.
- Float numerics: the square root of `estimate_radius` (line 43). The model keeps the squared distance.
- Radius text: the decimal formatting of the radius (line 152). It is the abstract `showRadius`.
- Output: `print(filename)` (line 136).
- `random.shuffle` and the listing order of `os.listdir` (lines 130-133). The names are taken in the order given.
- Image content: `cv2.imread` is reduced to a readable/unreadable flag. An unreadable image stops the batch with status `Crashed`, standing for the exception raised when it is shown. The exception itself is not modelled.
- Blocking: when a session's frames run out without ESC or NEXT, the model reports `ended == false` and the batch stops as `Blocked`. The source would keep waiting for input.
- The `flags` argument of `mouse_callback` is unused by the source and left out.
- Path syntax: only POSIX paths (`posixpath.splitext` and `posixpath.join`) are modelled. Windows paths (`ntpath`, with `\` separators and drive letters) split and join differently.
- Write failures: writing a record always succeeds in the model. The `open(out_filename, 'w')` of line 149 raises, for example, when `out_path` does not exist, and that exception is not modelled.
- `run_sample.py` is command-line glue and is not part of this model.
