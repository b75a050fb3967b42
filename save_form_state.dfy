/** The two entry points of the saver: SaveFrameCurrentSource captures a page into the
    persisted document, LoadFrame restores a page from it. The document file is modelled by
    what deserializing it gives (a StoredFile); the JSON text itself is not modelled. */
module SaveFormState {
  import opened Wrappers
  import opened FrameStates
  import opened VisualTree
  import opened Convert
  import opened Capture
  import opened Restore

  /** The page dictionary as it stands once SaveFrameCurrentSource has made sure it exists. */
  function SavedPages(pages: Option<map<string, PageMap>>): (r: map<string, PageMap>)
    ensures pages.Some? ==> r == pages.value
    ensures pages.None? ==> r == map[]
  {
    if pages.Some? then pages.value else map[]
  }

  /** The page dictionary of a document that had `pages`, after storing `captured` under
      `pageName` (a missing dictionary is created first). */
  function SavePage(pages: Option<map<string, PageMap>>, pageName: string, captured: PageMap): (r: map<string, PageMap>)
    ensures r.Keys == (if pages.Some? then pages.value.Keys else {}) + {pageName}
    ensures r[pageName] == captured
    ensures forall p :: p in r && p != pageName ==> pages.Some? && p in pages.value && r[p] == pages.value[p]
  {
    SavedPages(pages)[pageName := captured]
  }

  /** What LoadFrame does with a deserialized document whose page dictionary is `pages`:
      indexing a missing dictionary throws, an unsaved page is skipped, and restoring onto a
      null page throws. */
  function LoadPage(pages: Option<map<string, PageMap>>, pageName: string, page: Element): Result<Element, Exception>
  {
    if pages.None? then Failure(NullReferenceException)
    else if pageName !in pages.value then Ok(page)
    else if page.Null? then Failure(ValueIsNull)
    else Ok(Restored(page, pages.value[pageName]))
  }

  /** SaveFrameCurrentSource. `state` is the document to write back, or null when reading
      the file gave null; `thrown` is the exception that stops the method before the file is
      written. */
  method SaveFrameCurrentSource(page: Element, pageName: string, file: StoredFile)
    returns (state: FrameState?, thrown: Option<Exception>)
    modifies if file.Stored? then {file.state} else {}
    ensures file.NullJson? ==> state == null && thrown == Some(NullReferenceException)
    ensures file.Stored? ==> state == file.state
    ensures file.Missing? ==> state != null && fresh(state)
    ensures state != null ==> state.selectedPage == pageName
    ensures state != null ==>
      var before := if file.Stored? then old(file.state.pages) else None;
      var captured := Controls(page, 0);
      if captured.Failure? then
        thrown == Some(captured.error) && state.pages == Some(SavedPages(before))
      else
        thrown == None && state.pages == Some(SavePage(before, pageName, captured.value))
  {
    if file.NullJson? {
      // `state.SelectedPage = pageName` dereferences null.
      return null, Some(NullReferenceException);
    }
    var document: FrameState;
    if file.Stored? {
      document := file.state;
    } else {
      document := new FrameState();
    }
    state := document;
    document.selectedPage := pageName;
    if document.pages.None? {
      document.pages := Some(map[]);
    }
    var captured := GetControls(page, 0);
    if captured.Failure? {
      return state, Some(captured.error);
    }
    // Dictionary.Add on an absent key and the indexer on a present one both leave
    // `pageName` bound to the new capture.
    document.pages := Some(document.pages.value[pageName := captured.value]);
    thrown := None;
  }

  /** LoadFrame. A file holding the JSON `null` reads as a fresh FrameState. The result is
      the restored page, or the exception that escapes. */
  method LoadFrame(page: Element, pageName: string, file: StoredFile) returns (r: Result<Element, Exception>)
    ensures file.Missing? ==> r == Ok(page)
    ensures file.NullJson? ==> r == Failure(NullReferenceException)
    ensures file.Stored? ==> r == LoadPage(file.state.pages, pageName, page)
    ensures file.Stored? && file.state.pages.None? ==> r == Failure(NullReferenceException)
    ensures file.Stored? && file.state.pages.Some? && pageName !in file.state.pages.value ==> r == Ok(page)
    ensures file.Stored? && file.state.pages.Some? && pageName in file.state.pages.value ==>
      if page.Null? then r == Failure(ValueIsNull)
      else r == Ok(Restored(page, file.state.pages.value[pageName]))
  {
    if file.Missing? {
      return Ok(page);
    }
    var state: FrameState;
    if file.NullJson? {
      state := new FrameState();
    } else {
      state := file.state;
    }
    if state.pages.None? {
      return Failure(NullReferenceException);
    }
    if pageName !in state.pages.value {
      return Ok(page);
    }
    r := SetControls(page, state.pages.value[pageName]);
  }

  /** A load right after a successful save restores the page just captured. Every other page
      loads as it did before the save, except that a document which had no page dictionary
      now has one, so its other pages are skipped instead of throwing. */
  lemma SaveThenLoad(pages: Option<map<string, PageMap>>, pageName: string, source: Element, target: Element)
    requires Controls(source, 0).Ok?
    ensures var saved := Some(SavePage(pages, pageName, Controls(source, 0).value));
      LoadPage(saved, pageName, target)
        == if target.Null? then Failure(ValueIsNull) else Ok(Restored(target, Controls(source, 0).value))
    ensures var saved := Some(SavePage(pages, pageName, Controls(source, 0).value));
      pages.Some? ==> forall other :: other != pageName ==>
        LoadPage(saved, other, target) == LoadPage(pages, other, target)
    ensures var saved := Some(SavePage(pages, pageName, Controls(source, 0).value));
      pages.None? ==> forall other :: other != pageName ==> LoadPage(saved, other, target) == Ok(target)
  {
  }

  /** Loading the same page a second time changes nothing more. */
  lemma LoadIdempotent(pages: Option<map<string, PageMap>>, pageName: string, page: Element)
    requires LoadPage(pages, pageName, page).Ok?
    ensures var loaded := LoadPage(pages, pageName, page).value;
      LoadPage(pages, pageName, loaded) == Ok(loaded)
  {
    if pageName in pages.value && page.Elem? {
      RestoreIdempotent(page, pages.value[pageName]);
    }
  }
}
