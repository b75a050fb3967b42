/** The persisted data model: one record per captured control, one map of records per page,
    and the document that holds every page. */
module FrameStates {
  import opened Wrappers

  /** The exceptions the saver can raise. */
  datatype Exception =
    | ArgumentException       // Dictionary.Add with a key that is already present
    | NullReferenceException  // a member access through a null reference
    | ValueIsNull             // the "Value is null." exception a walk throws on a null root

  /** FrameState.Control: the captured state of one named control.
      `text` is set for text-bearing controls, `isChecked` for radio buttons; the record's
      other fields are never read or written by the saver and are not part of this model. */
  datatype Control = Control(name: string, text: Option<string>, isChecked: Option<bool>)

  /** The records of one page, keyed by control name. */
  type PageMap = map<string, Control>

  /** The document file as the saver finds it: absent, holding the JSON text `null`, or
      holding a document. */
  datatype StoredFile = Missing | NullJson | Stored(state: FrameState)

  /** The whole persisted document. `pages` is `None` when the document carries no page
      dictionary (a fresh document, or one whose JSON has no `Pages`). */
  class FrameState {
    var selectedPage: string
    var pages: Option<map<string, PageMap>>

    /** `new FrameState()`: no page selected and no page dictionary. */
    constructor ()
      ensures selectedPage == "" && pages == None
    {
      selectedPage := "";
      pages := None;
    }
  }
}
