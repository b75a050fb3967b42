/** The capture walk: GetControls and the merge of a nested walk's records. */
module Capture {
  import opened Wrappers
  import opened FrameStates
  import opened VisualTree
  import opened Convert

  /** Deepest `recursion_depth` at which the walk still visits children. */
  const MaxDepth := 20

  /** What a walk returns: the page's records, or the exception it throws. */
  type Captured = Result<PageMap, Exception>

  /** Dictionary.Add: insert under the record's name, or throw if the key is taken. */
  function Add(m: PageMap, c: Control): Captured
  {
    if c.name in m then Failure(ArgumentException) else Ok(m[c.name := c])
  }

  /** The `foreach` that adds every record of a nested walk: it throws as soon as one key
      is already present, whatever the enumeration order. */
  function Merge(acc: PageMap, nested: PageMap): Captured
  {
    if acc.Keys !! nested.Keys then Ok(acc + nested) else Failure(ArgumentException)
  }

  /** The value GetControls(e, depth) computes. */
  function Controls(e: Element, depth: int): Captured
    decreases e, 0
  {
    if depth > MaxDepth then Ok(map[])
    else if e.Null? then Failure(ValueIsNull)
    else Collect(e.children, depth)
  }

  /** The `for` loop of GetControls over the children `cs`, from an empty dictionary. */
  function Collect(cs: seq<Element>, depth: int): Captured
    decreases cs, 2
  {
    if cs == [] then Ok(map[]) else Step(Collect(cs[..|cs| - 1], depth), cs[|cs| - 1], depth)
  }

  /** One iteration of that loop, on child `c`: skip a null child; add the child's own
      record if it converts and has a name; then add all records of the nested walk. */
  function Step(acc: Captured, c: Element, depth: int): Captured
    decreases c, 1
  {
    if acc.Failure? || c.Null? then acc
    else
      var control := ConvertDependencyToControl(c);
      var inserted := if control.Some? && control.value.name != "" then Add(acc.value, control.value) else acc;
      if inserted.Failure? then inserted
      else
        var nested := Controls(c, depth + 1);
        if nested.Failure? then nested else Merge(inserted.value, nested.value)
  }

  /** A walk that has thrown stays thrown: the loop is left at the first exception. */
  lemma {:induction false} FailureSticks(cs: seq<Element>, j: nat, depth: int)
    requires j <= |cs| && Collect(cs[..j], depth).Failure?
    ensures Collect(cs, depth) == Collect(cs[..j], depth)
    decreases |cs|
  {
    if j < |cs| {
      var p := cs[..|cs| - 1];
      assert p[..j] == cs[..j];
      FailureSticks(p, j, depth);
    } else {
      assert cs[..j] == cs;
    }
  }

  /** The `foreach` merge loop of GetControls. */
  method MergeInto(controls: PageMap, nested: PageMap) returns (r: Captured)
    ensures r == Merge(controls, nested)
  {
    var merged := controls;
    var pending := nested.Keys;
    while pending != {}
      invariant pending <= nested.Keys
      invariant controls.Keys !! (nested.Keys - pending)
      invariant merged == controls + map k | k in nested.Keys - pending :: nested[k]
      decreases pending
    {
      var key :| key in pending;
      if key in merged {
        return Failure(ArgumentException);
      }
      merged := merged[key := nested[key]];
      pending := pending - {key};
    }
    assert (map k | k in nested.Keys - {} :: nested[k]) == nested;
    return Ok(merged);
  }

  /** GetControls: capture the records of the descendants of `depObj`. */
  method GetControls(depObj: Element, recursionDepth: int) returns (r: Captured)
    ensures r == Controls(depObj, recursionDepth)
    ensures recursionDepth > MaxDepth ==> r == Ok(map[])
    ensures recursionDepth <= MaxDepth && depObj.Null? ==> r == Failure(ValueIsNull)
    decreases depObj
  {
    var controls: PageMap := map[];
    if recursionDepth > MaxDepth {
      return Ok(controls);
    }
    if depObj.Null? {
      return Failure(ValueIsNull);
    }
    var children := depObj.children;
    for i := 0 to |children|
      invariant Collect(children[..i], recursionDepth) == Ok(controls)
    {
      var ithChild := children[i];
      assert children[..i + 1][..i] == children[..i];
      if ithChild.Null? {
        continue;
      }
      var control := ConvertDependencyToControl(ithChild);
      if control.Some? && control.value.name != "" {
        if control.value.name in controls {
          FailureSticks(children, i + 1, recursionDepth);
          return Failure(ArgumentException);
        }
        controls := controls[control.value.name := control.value];
      }
      var nested := GetControls(ithChild, recursionDepth + 1);
      if nested.Failure? {
        FailureSticks(children, i + 1, recursionDepth);
        return nested;
      }
      var merged := MergeInto(controls, nested.value);
      if merged.Failure? {
        FailureSticks(children, i + 1, recursionDepth);
        return merged;
      }
      controls := merged.value;
    }
    assert children[..|children|] == children;
    return Ok(controls);
  }
}
