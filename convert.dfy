/** The single-control converter: one element to one record, and one record back onto
    one element. */
module Convert {
  import opened Wrappers
  import opened FrameStates
  import opened VisualTree

  /** ConvertDependencyToControl: a record for a TextBox, TextBlock or RadioButton, and
      nothing for a null element or any other kind. */
  function ConvertDependencyToControl(e: Element): (r: Option<Control>)
    ensures r.Some? <==> e.Elem? && e.kind != Other
    ensures r.Some? ==> r.value.name == e.name
    ensures r.Some? && IsTextKind(e.kind) ==> r.value.text == e.text && r.value.isChecked == None
    ensures r.Some? && e.kind == RadioButton ==> r.value.isChecked == e.isChecked && r.value.text == None
  {
    if e.Null? then None
    else
      match e.kind
      case TextBox => Some(Control(e.name, e.text, None))
      case TextBlock => Some(Control(e.name, e.text, None))
      case RadioButton => Some(Control(e.name, None, e.isChecked))
      case Other => None
  }

  /** An element the capture walk stores: it converts, and its name is not empty. */
  predicate Recognized(e: Element)
  {
    ConvertDependencyToControl(e).Some? && e.name != ""
  }

  /** SetControl: a TextBox or TextBlock whose name is a key of `page` takes the record's
      text, a RadioButton takes the record's checked state; nothing else changes. The kind
      the record was captured from is not checked. */
  function SetControl(e: Element, page: PageMap): (r: Element)
    ensures r.Null? <==> e.Null?
    ensures e.Elem? ==> r.kind == e.kind && r.name == e.name && r.children == e.children
    ensures e.Elem? && IsTextKind(e.kind) && e.name in page ==>
              r.text == page[e.name].text && r.isChecked == e.isChecked
    ensures e.Elem? && e.kind == RadioButton && e.name in page ==>
              r.isChecked == page[e.name].isChecked && r.text == e.text
    ensures e.Null? || e.kind == Other || e.name !in page ==> r == e
  {
    if e.Null? || e.name !in page then e
    else
      match e.kind
      case TextBox => e.(text := page[e.name].text)
      case TextBlock => e.(text := page[e.name].text)
      case RadioButton => e.(isChecked := page[e.name].isChecked)
      case Other => e
  }

  /** Applying a control's own record to an element of the same kind and name gives that
      element the control's value: the converter and the applier are inverse. */
  lemma ApplyConverted(source: Element, target: Element, page: PageMap)
    requires source.Elem? && target.Elem? && source.kind == target.kind && source.name == target.name
    requires source.name in page && Some(page[source.name]) == ConvertDependencyToControl(source)
    ensures IsTextKind(source.kind) ==> SetControl(target, page).text == source.text
    ensures source.kind == RadioButton ==> SetControl(target, page).isChecked == source.isChecked
  {
  }

  /** Writing the same page twice writes nothing new. */
  lemma SetControlIdempotent(e: Element, page: PageMap)
    ensures SetControl(SetControl(e, page), page) == SetControl(e, page)
  {
  }
}
