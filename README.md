# SaveFormState, modelled in Dafny

SaveFormState is a small WPF helper. It saves the values a user typed into a page (a
`Page` of a navigation `Frame`) and restores them later. Saving walks the page's visual
tree. Every named `TextBox`, `TextBlock` and `RadioButton` becomes a `FrameState.Control`
record holding its name and its `Text` or `IsChecked`. The records of one page are keyed
by control name, the pages of a document are keyed by page name, and the document is
written to a JSON file. Loading reads the file and, if the document has the page, walks
the page's tree again, writing the recorded values back by name.

This project models that core: the converter, the depth-bounded capture walk, the restore
walk with its per-control write rule, and the two entry points over the in-memory
document. It then proves:

- what a capture contains: exactly the recognised controls that can be reached, each
  under its own non-empty name;
- when a capture throws: on a duplicated name;
- how far down a capture reaches;
- what a restore writes, at every depth, and that it changes no kind, name or structure;
- that a restore is idempotent;
- that a save followed by a load gives the saved values back on any page of the same
  shape.

Files:

- `wrappers.dfy`: `Option` and `Result`.
- `frame_state.dfy`: the persisted document.
  - `FrameState` is a class, because the saver updates it in place.
  - The records and the page map are values.
- `visual_tree.dfy`: the visual tree as a value.
  - `Element` is either `Null` (a null child) or `Elem` with a kind, a name, optional
    text and checked state, and its children.
  - `Descendants(cs, k)` is the pre-order list of the non-null elements at most `k`
    levels below the children `cs`.
  - `Skeleton` is a tree without its values.
  - `Truncate` cuts a tree at a depth.
- `convert.dfy`: `ConvertDependencyToControl` and `SetControl`, the two per-control
  operations.
- `capture.dfy`: the capture walk.
  - `GetControls` is a method with the source's loop, proved equal to the function
    `Controls`.
  - `MergeInto` is the `foreach` that copies the nested result with `Dictionary.Add`.
- `capture_properties.dfy`: the capture characterised on the pre-order list of reachable
  elements.
- `restore.dfy`: the restore walk.
  - `SetControls` is a method with the source's loop, proved equal to the function
    `Restored`.
  - The file also holds the write rule, skeleton preservation and idempotence.
- `round_trip.dfy`: capture followed by restore, in general and on one concrete page.
- `save_form_state.dfy`: `SaveFrameCurrentSource` and `LoadFrame`.

Modelling decisions:

- The document file is modelled by what deserializing it gives, a `StoredFile`:
  - `Missing`: there is no file.
  - `NullJson`: the file holds the JSON text `null`.
    - `LoadFrame` replaces that with `new FrameState()` and then throws
      NullReferenceException at the missing page dictionary.
    - `SaveFrameCurrentSource` has no such fallback and throws NullReferenceException
      when it sets `SelectedPage` on the null document.
  - `Stored(state)`: the file holds a document.
- `SaveFrameCurrentSource` returns the document it would write, together with the
  exception that stops it before the write, if any. When an exception is returned,
  the file is not written.
- A .NET exception is a `Failure` or a `thrown` value:
  - `ArgumentException` from `Dictionary.Add`;
  - `NullReferenceException` from a null document or a null page dictionary;
  - `ValueIsNull` for the `Exception("Value is null.")` that `GetControls` and
    `SetControls` throw on a null root.
- `Text` and `IsChecked` are `Option`s: `None` is the C# `null`.
- The page dictionary is `Option<map<...>>`, because a deserialized document may lack it
  and `LoadFrame` then throws.
- The restore walk takes the page's record map itself, `state.Pages[pageName]`. The
  source passes `state` and `pageName` and indexes at every control. `LoadFrame` only
  calls it after checking that the key is present, and nothing mutates `state` during
  the walk, so the two agree.
- One might expect a duplicate control name to keep its last value. The code uses
  `Dictionary.Add`, which throws `ArgumentException` instead. `CaptureOutcome` proves
  exactly when that happens.

## Model

| member | source | states |
|---|---|---|
| `Convert.ConvertDependencyToControl` | SaveFormState/WPF.cs:54-70 | A record exists exactly for a non-null TextBox, TextBlock or RadioButton. It carries the element's name, and either its text with no checked state (TextBox, TextBlock) or its checked state with no text (RadioButton). |
| `Convert.SetControl` | SaveFormState/WPF.cs:96-114 | Kind, name and children never change. A TextBox or TextBlock whose name is a key takes the record's text, and a RadioButton the record's checked state; the other field is untouched. Any other kind, a name that is not a key, or a null element is left as it was. |
| `Convert.ApplyConverted` | SaveFormState/WPF.cs:96-114 | Writing an element's own record onto an element of the same kind and name reproduces the captured text or checked state. SetControl inverts ConvertDependencyToControl. |
| `Convert.SetControlIdempotent` | SaveFormState/WPF.cs:96-114 | Writing the same page twice equals writing it once. |
| `Capture.FailureSticks` | SaveFormState/WPF.cs:39-50 | Once the loop over the children has thrown, later children do not change the outcome. |
| `Capture.MergeInto` | SaveFormState/WPF.cs:49 | The `foreach` copy of the nested result into the accumulated map returns the union when the key sets are disjoint. Otherwise it throws ArgumentException. |
| `Capture.GetControls` | SaveFormState/WPF.cs:33-53 | The loop computes `Controls(depObj, recursionDepth)`, so every property below holds of the method. A depth above 20 yields the empty map, even for a null root. Otherwise a null root throws ValueIsNull. |
| `CaptureProperties.ControlsIsInsertAll` | SaveFormState/WPF.cs:33-53 | The recursive walk equals one `Dictionary.Add` per record of the reachable elements, in pre-order. |
| `CaptureProperties.InsertAllOutcome` | SaveFormState/WPF.cs:45 | Adding records one by one to a map succeeds exactly when their names are pairwise distinct and absent from the map. The result is then the map extended by those records. Otherwise the result is ArgumentException. |
| `CaptureProperties.RecordsDistinct` | SaveFormState/WPF.cs:43-46 | The records taken from a list of elements have distinct names exactly when no two recognised elements of the list share a name. |
| `CaptureProperties.CaptureOutcome` | SaveFormState/WPF.cs:39-50 | A capture succeeds exactly when no two recognised elements within reach share a name, for siblings and for ancestor and descendant alike. A failure is always ArgumentException. A success maps each name to its element's record. |
| `CaptureProperties.CaptureKeys` | SaveFormState/WPF.cs:43-46 | Every key of a successful capture is non-empty and equals its record's name, and the record is the conversion of some recognised reachable element. Every recognised reachable element is present under its own name with its own record. |
| `CaptureProperties.CaptureIgnoresRoot` | SaveFormState/WPF.cs:39-40 | Only the children count: two roots with the same children capture the same result, so the root itself is never recorded. |
| `CaptureProperties.NullChildSkipped` | SaveFormState/WPF.cs:41 | Inserting a null child at any position leaves the capture unchanged. |
| `CaptureProperties.CaptureDepthBound` | SaveFormState/WPF.cs:36 | Cutting the tree `21 - depth` levels below the root does not change the capture. From depth 0, nothing more than 21 levels down is ever read. |
| `Restore.SetControls` | SaveFormState/WPF.cs:83-95 | The loop, which writes each non-null child and then recurses into it, computes `Restored(depObj, page)`. A null root throws ValueIsNull. |
| `Restore.RestoreDescendants` | SaveFormState/WPF.cs:86-94 | The restored tree's descendants down to any depth are, position by position in pre-order, the original descendants each with SetControl applied. |
| `Restore.RestoreWriteRule` | SaveFormState/WPF.cs:83-95 | At every depth, every descendant keeps its kind and name. A TextBox or TextBlock whose name is a key takes the record's text, and a RadioButton the record's checked state. Every other element keeps its values. |
| `Restore.RestoredSkeleton` | SaveFormState/WPF.cs:83-95 | A restore changes no kind, no name and no structure: the skeleton is unchanged. |
| `Restore.RestoreIdempotent` | SaveFormState/WPF.cs:83-95 | Restoring the same page twice gives the tree restored once. |
| `RoundTrip.CaptureRestoreRoundTrip` | SaveFormState/WPF.cs:72-82 | Capture a tree from depth 0, then restore that record onto a tree with the same skeleton below the root. Every recognised element at every position of the first tree's reachable pre-order list is matched, at the same position of the second, by an element of the same kind and name with its text (TextBox, TextBlock) or checked state (RadioButton). |
| `RoundTrip.HomePageCapture` | SaveFormState/WPF.cs:33-53 | The example page is a panel holding a TextBox that contains "Ada", a null child and a checked RadioButton. It captures to exactly the two records of those controls. |
| `RoundTrip.HomePageRestore` | SaveFormState/WPF.cs:83-95 | Restoring that record onto the blank page gives back the filled-in page. |
| `SaveFormState.SavePage` | SaveFormState/WPF.cs:19-28 | After a save, the page dictionary has the old page names plus the saved one; a missing dictionary counts as empty. The saved page maps to the new capture, and every other page is unchanged. |
| `SaveFormState.SaveFrameCurrentSource` | SaveFormState/WPF.cs:14-32 | A file holding JSON `null` throws NullReferenceException, and the method returns no document. With a stored document, the method updates it and returns it. Without a file, it creates a fresh document. SelectedPage becomes the page name. If the capture throws (a duplicate name, a null page), that exception is returned with the document; the page dictionary has only been created if it was missing. Otherwise the pages become `SavePage` of the old pages with the capture. |
| `SaveFormState.LoadFrame` | SaveFormState/WPF.cs:72-82 | No file means no change. A document without a page dictionary throws NullReferenceException, including the fresh document read from a JSON `null`. A page that was never saved means no change, even for a null page. Otherwise a null page throws ValueIsNull and a non-null page is restored from its record. |
| `SaveFormState.SaveThenLoad` | SaveFormState/WPF.cs:23-28 | Right after a save, loading the saved page restores the capture, and a null page throws ValueIsNull. If the document had a page dictionary, loading any other page behaves as before the save. If it had none, which made every load throw, any other page is now skipped unchanged. |
| `SaveFormState.LoadIdempotent` | SaveFormState/WPF.cs:79-81 | Loading a page a second time onto the result of a load changes nothing. |
| `FrameStates.FrameState.constructor` | SaveFormState/WPF.cs:118-120 | A new document has an empty SelectedPage and no page dictionary. |

## Left out

- File I/O and JSON serialization (`File.Exists`, `File.ReadAllText`,
  `File.WriteAllText`, `JsonConvert`) are not modelled. The file's content is the
  `StoredFile` argument or the returned document.
- The WPF control classes and `VisualTreeHelper` are replaced by the `Element` tree
  value.
  - `GetChildrenCount` and `GetChild` become the `children` sequence.
  - The type switches become the `kind` field.
  - Subclasses of `TextBox`, `TextBlock` or `RadioButton` are just those kinds.
- The restore works on tree values: it returns the new tree and does not update live
  controls in place. Aliasing between controls, and WPF's own coercion of assigned
  values, are not captured. For example, a `TextBox` turns an assigned `null` into `""`.
- The `ControlType`, `Content`, `value` and `Tag` fields of `FrameState.Control` are never
  read or written by the saver and are left out.
- Strings are never null here: `pageName`, a control's `Name` and a record's `Text` key
  are Dafny strings. In the source, a null `pageName` makes `ContainsKey` throw
  ArgumentNullException in `SaveFrameCurrentSource` (line 23), in `LoadFrame` (line 79)
  and in `SetControl` (lines 100, 105, 110). That exception is not modelled.
- A null record map stored under a page, or a null record inside one, would make the
  source throw while restoring. Maps and records are values here and cannot be null.
- The unused `using` directives have no counterpart.
