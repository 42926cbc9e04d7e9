# Mouse click and drag-to-crop handlers

A model of the two mouse-callback classes of the OpenCV demo scripts:

- `MouseCrop` (`02-image_croping_using_mouse.py`) turns left-button press, pointer
  move and left-button release events into a rectangular selection, then crops the
  image to it. Its state is the list of selected corners (`coordinates`), the
  selection `width` and `height`, and the `cropping` flag that is set while the
  button is held. The class `MouseCropping.MouseCrop` keeps these four fields and
  updates them in place in `HandleClicks`. Each update is tied to the value-level
  transition `MouseCropping.Step`. The crop step `CropImage` reads the state and
  returns either the index window it slices out or the "please select" outcome.
- `MouseClickHandler` (`01-mouse_click_detector.py`) appends the position of every
  left-button press to its `coordinates` list. The class
  `MouseClickDetector.MouseClickHandler` does the same, tied to the value-level
  `AfterClick`.

`Events` holds the shared vocabulary: the event kinds the callbacks inspect
(`LButtonDown`, `MouseMove`, `LButtonUp`, and `Other` for every other event code),
points, and Python's `abs` on integers. Python integers are unbounded, so `int` is
their exact model.

What is proved:

- Every state the crop handler can reach satisfies `Inv`. A drag is in progress
  exactly when one corner is stored. At most two corners are stored. The sizes are
  never negative. No size is recorded before the first press. A completed selection
  holds the distances between its two corners.
- Because of `Inv`, the `coordinates[0]` and `coordinates[1]` reads in the move and
  release branches and in the crop step are always in range. The `IndexError` that
  Python would raise on them cannot happen.
- A whole gesture (a press, any number of moves, then a release) leaves exactly the
  two corners, whatever state it started in. The crop that follows exists exactly
  when the corners differ in both coordinates.
- The crop window is anchored at the first corner and extends `height` rows down
  and `width` columns right. So it equals the selected window (the half-open
  window between the two corners) only for a drag that goes right and down. A drag
  up or to the left crops a window beside the selected one. This is the source's
  behaviour and the model keeps it (`CropMatchesSelectionOnlyDownRight`,
  `UpLeftDragExample`).
- A press keeps the previous selection's sizes, so a crop taken after a press and
  before any move is a window of the old size at the new anchor
  (`PressKeepsStaleSizes`).
- The click log only grows at its end. Replaying any event sequence appends exactly
  the positions of its presses, in order.

## Model

| member | source | states |
|---|---|---|
| `MouseCropping.MouseCrop.constructor` | 02-image_croping_using_mouse.py:15-26 | a new handler has no corners, zero width and height, and no drag in progress; this satisfies the invariant |
| `MouseCropping.Step` | 02-image_croping_using_mouse.py:39-51 | every event kind preserves the invariant: drag in progress iff exactly one corner, at most two corners, sizes non-negative, zero sizes before any press, a completed selection's sizes are its corner distances |
| `MouseCropping.Run` | 02-image_croping_using_mouse.py:28-51 | the invariant holds after any sequence of events, so every reachable state satisfies it |
| `MouseCropping.MouseCrop.HandleClicks` | 02-image_croping_using_mouse.py:28-63 | the new fields are the transition of the old ones; a press resets the corners to the pressed point and starts a drag without touching the sizes; a move during a drag sets the sizes to the distances from the anchor; a release during a drag keeps the anchor, adds the released point, ends the drag and sets the sizes to the corner distances; moves and releases outside a drag and all other events change nothing; the crop step runs exactly on a release that ends a drag, on the new sizes |
| `MouseCropping.MouseCrop.CropImage` | 02-image_croping_using_mouse.py:65-76 | the outcome is a crop exactly when width and height are both positive, and otherwise "please select"; it is the crop rule applied to the current fields |
| `MouseCropping.CropRegion` | 02-image_croping_using_mouse.py:69-76 | a window is produced iff both sizes are positive; it starts at the first corner's row and column and spans `height` rows and `width` columns |
| `MouseCropping.RunConcat` | 02-image_croping_using_mouse.py:28-51 | handling two batches of events in turn equals handling their concatenation |
| `MouseCropping.MovesKeepSelection` | 02-image_croping_using_mouse.py:43-45 | any run of pointer moves leaves the corners and the drag flag unchanged |
| `MouseCropping.DragThenRelease` | 02-image_croping_using_mouse.py:39-71 | press at p, any moves, release at q leave exactly the corners [p, q], no drag, sizes abs(q - p); the crop is anchored at p and exists iff p and q differ in both coordinates |
| `MouseCropping.CropMatchesSelectionOnlyDownRight` | 02-image_croping_using_mouse.py:47-71 | after a release ends a drag, a produced crop equals the half-open window between the two corners iff the drag went right and down |
| `MouseCropping.UpLeftDragExample` | 02-image_croping_using_mouse.py:47-71 | a drag from (10,10) to (4,4) selects rows and columns 4 to 10 but crops rows and columns 10 to 16 |
| `MouseCropping.PressKeepsStaleSizes` | 02-image_croping_using_mouse.py:39-41 | after a press, the crop rule yields a window of the previous sizes anchored at the pressed point, or "please select" if those sizes were not both positive |
| `MouseCropping.Spanned` | 02-image_croping_using_mouse.py:53 | the selected window between two corners has its edges ordered, and on each axis its two edges are exactly the two corners' coordinates |
| `Events.Abs` | 02-image_croping_using_mouse.py:44-51 | Python's `abs`: the result is non-negative and equals the argument or its negation |
| `MouseClickDetector.MouseClickHandler.constructor` | 01-mouse_click_detector.py:9-17 | a new handler has an empty log |
| `MouseClickDetector.MouseClickHandler.HandleClick` | 01-mouse_click_detector.py:20-33 | a press appends exactly its position at the end of the log; any other event leaves the log unchanged |
| `MouseClickDetector.AfterClick` | 01-mouse_click_detector.py:31-33 | the old log is a prefix of the new one; the log grows by one entry exactly on a press, and that entry is the pressed position |
| `MouseClickDetector.Replay` | 01-mouse_click_detector.py:20-33 | over any event sequence the earlier log is a prefix of the final one, and it grows by at most one entry per event |
| `MouseClickDetector.Presses` | 01-mouse_click_detector.py:31-33 | the press positions of a sequence are exactly the positions of its press events, at most one per event |
| `MouseClickDetector.PressesConcat` | 01-mouse_click_detector.py:31-33 | the presses of a concatenation are those of the first part followed by those of the second |
| `MouseClickDetector.ReplayAppendsPresses` | 01-mouse_click_detector.py:31-33 | replaying any events appends exactly their press positions, in order, to the existing log |

## Left out

- MouseCropping.MouseCrop.HandleClicks: treats each callback as one atomic step. In
  the source, the release branch calls `cv2.waitKey(0)` (02-image_croping_using_mouse.py:60)
  on the window whose mouse callback is `handle_clicks`, so the library can deliver
  nested events there before `crop_image` runs at line 63. That nested dispatch is
  not modelled: the returned crop is taken on the state computed at lines 48-51. A
  press delivered during that wait would make the real crop use the new anchor and
  the old sizes; `PressKeepsStaleSizes` states that effect for the crop rule. Also,
  `destroyAllWindows` at line 61 closes the window, so the real program receives no
  events after the first completed gesture; `Run` allows any number of gestures and
  so covers more event sequences than the program can receive.
- The outline that `cv2.rectangle` draws includes both corners and is two pixels
  thick. `Spanned` is the half-open window between the corners, so even for a
  right-and-down drag the crop leaves out the rows and columns the bottom and right
  edges are drawn on. Pixel outlines are not modelled.

- The image and its pixels: the constructors take no image. The crop is modelled as
  the index window `image[top:bottom, left:right]`, not as pixel data. So the
  overlay drawn before cropping, which ends up in the cropped pixels, is not modelled.
- `cv2.rectangle` and `cv2.putText` on the image (02-image_croping_using_mouse.py:53-57),
  because they change pixel data inside the graphics library. `Spanned` describes
  the outlined rectangle only to compare it with the crop window.
- `cv2.imshow`, `cv2.waitKey`, `cv2.destroyAllWindows` and `cv2.setMouseCallback`,
  and so both `show_image` methods. They are the library's window and event loop.
  The loop that delivers events is modelled as a sequence of events (`Run`, `Replay`).
- Console output: the three `print` calls on each press in the click detector are
  dropped. The "please select" message of the crop step is modelled as the
  `PleaseSelect` outcome.
- Image loading, its null check and the hard-coded paths in both `__main__` blocks,
  because they are file I/O.
- NumPy slicing semantics: clamping at the image border, and negative indices
  counting from the end. The crop is the unclamped index window.
- The `flags` and `params` callback arguments, which are never read.
- The integer event codes of the library: every code other than the three inspected
  is the single `Other` event.
