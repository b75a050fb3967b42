/** The restore walk: SetControls applies a page's records to every descendant. */
module Restore {
  import opened Wrappers
  import opened FrameStates
  import opened VisualTree
  import opened Convert

  /** What SetControls(e, page) produces: the root untouched, every descendant at every
      depth written by SetControl. */
  function Restored(e: Element, page: PageMap): Element
    requires e.Elem?
  {
    e.(children := RestoreAll(e.children, page))
  }

  function RestoreAll(cs: seq<Element>, page: PageMap): (r: seq<Element>)
    ensures |r| == |cs|
    decreases cs
  {
    if cs == [] then [] else RestoreAll(cs[..|cs| - 1], page) + [RestoredChild(cs[|cs| - 1], page)]
  }

  /** A child after SetControl on itself and SetControls on its own children. */
  function RestoredChild(c: Element, page: PageMap): Element
    decreases c
  {
    if c.Null? then Null
    else
      var written := SetControl(c, page);
      written.(children := RestoreAll(c.children, page))
  }

  /** SetControls: walk every child, write it, then walk its children; null children are
      skipped. A null root throws. */
  method SetControls(depObj: Element, page: PageMap) returns (r: Result<Element, Exception>)
    ensures depObj.Null? ==> r == Failure(ValueIsNull)
    ensures depObj.Elem? ==> r == Ok(Restored(depObj, page))
    decreases if depObj.Null? then [] else depObj.children
  {
    if depObj.Null? {
      return Failure(ValueIsNull);
    }
    var children := depObj.children;
    for i := 0 to |children|
      invariant |children| == |depObj.children|
      invariant forall j :: 0 <= j < i ==> children[j] == RestoredChild(depObj.children[j], page)
      invariant forall j :: i <= j < |children| ==> children[j] == depObj.children[j]
    {
      var ithChild := children[i];
      if ithChild.Null? {
        continue;
      }
      var updated := SetControl(ithChild, page);
      var nested := SetControls(updated, page);
      children := children[i := nested.value];
    }
    RestoreAllPointwise(depObj.children, page);
    assert children == RestoreAll(depObj.children, page);
    return Ok(depObj.(children := children));
  }

  /** `ys` is `xs` with RestoredChild applied position by position. */
  ghost predicate RestoredList(ys: seq<Element>, xs: seq<Element>, page: PageMap)
  {
    |ys| == |xs| && forall i :: 0 <= i < |xs| ==> ys[i] == RestoredChild(xs[i], page)
  }

  lemma RestoredListConcat(a: seq<Element>, b: seq<Element>, c: seq<Element>, d: seq<Element>, page: PageMap)
    requires RestoredList(c, a, page) && RestoredList(d, b, page)
    ensures RestoredList(c + d, a + b, page)
  {
    forall i | 0 <= i < |a + b| ensures (c + d)[i] == RestoredChild((a + b)[i], page) {
      if i < |a| {
        assert (c + d)[i] == c[i] && (a + b)[i] == a[i];
      } else {
        assert (c + d)[i] == d[i - |a|] && (a + b)[i] == b[i - |a|];
      }
    }
  }

  lemma {:induction false} RestoreAllPointwise(cs: seq<Element>, page: PageMap)
    ensures RestoredList(RestoreAll(cs, page), cs, page)
    decreases cs
  {
    if cs != [] {
      var n := |cs| - 1;
      RestoreAllPointwise(cs[..n], page);
      RestoredListConcat(cs[..n], [cs[n]], RestoreAll(cs[..n], page), [RestoredChild(cs[n], page)], page);
      assert cs[..n] + [cs[n]] == cs;
    }
  }

  /** The restored tree lists, in pre-order and at every depth, the restored versions of
      the original descendants. */
  lemma {:induction false} RestoreDescendants(cs: seq<Element>, page: PageMap, k: nat)
    ensures RestoredList(Descendants(RestoreAll(cs, page), k), Descendants(cs, k), page)
    decreases cs
  {
    if cs != [] {
      var n := |cs| - 1;
      var p, c := cs[..n], cs[n];
      var rp, rc := RestoreAll(p, page), RestoredChild(c, page);
      var rs := rp + [rc];
      assert RestoreAll(cs, page) == rs;
      assert rs[..|rs| - 1] == rp && rs[|rs| - 1] == rc;
      RestoreDescendants(p, page, k);
      var seg := if c.Null? then [] else [c] + (if k == 0 then [] else Descendants(c.children, k - 1));
      var rseg := if rc.Null? then [] else [rc] + (if k == 0 then [] else Descendants(rc.children, k - 1));
      assert Descendants(cs, k) == Descendants(p, k) + seg;
      assert Descendants(rs, k) == Descendants(rp, k) + rseg;
      assert RestoredList(rseg, seg, page) by {
        if c.Elem? {
          var tail := if k == 0 then [] else Descendants(c.children, k - 1);
          var rtail := if k == 0 then [] else Descendants(rc.children, k - 1);
          if k > 0 {
            RestoreDescendants(c.children, page, k - 1);
          }
          RestoredListConcat([c], tail, [rc], rtail, page);
        }
      }
      RestoredListConcat(Descendants(p, k), seg, Descendants(rp, k), rseg, page);
    }
  }

  /** The write rule, for the descendants down to any depth `k`: each keeps its kind and
      name; a TextBox or TextBlock whose name is a key takes the record's text, a RadioButton
      the record's checked state; every other element keeps its values. */
  lemma RestoreWriteRule(e: Element, page: PageMap, k: nat)
    requires e.Elem?
    ensures var xs, ys := Descendants(e.children, k), Descendants(Restored(e, page).children, k);
      && |ys| == |xs|
      && (forall i :: 0 <= i < |xs| ==>
            xs[i].Elem? && ys[i].Elem? && ys[i].kind == xs[i].kind && ys[i].name == xs[i].name)
      && (forall i :: 0 <= i < |xs| && IsTextKind(xs[i].kind) && xs[i].name in page ==>
            ys[i].text == page[xs[i].name].text && ys[i].isChecked == xs[i].isChecked)
      && (forall i :: 0 <= i < |xs| && xs[i].kind == RadioButton && xs[i].name in page ==>
            ys[i].isChecked == page[xs[i].name].isChecked && ys[i].text == xs[i].text)
      && (forall i :: 0 <= i < |xs| && (xs[i].kind == Other || xs[i].name !in page) ==>
            ys[i].text == xs[i].text && ys[i].isChecked == xs[i].isChecked)
  {
    var xs := Descendants(e.children, k);
    RestoreDescendants(e.children, page, k);
    DescendantsAreElements(e.children, k);
  }

  /** Restoring changes no kind, no name and no structure. */
  lemma {:induction false} RestorePreservesSkeleton(cs: seq<Element>, page: PageMap)
    ensures SkeletonAll(RestoreAll(cs, page)) == SkeletonAll(cs)
    decreases cs
  {
    if cs != [] {
      var n := |cs| - 1;
      var rs := RestoreAll(cs, page);
      assert rs[..n] == RestoreAll(cs[..n], page) && rs[n] == RestoredChild(cs[n], page);
      RestorePreservesSkeleton(cs[..n], page);
      if cs[n].Elem? {
        RestorePreservesSkeleton(cs[n].children, page);
      }
    }
  }

  lemma RestoredSkeleton(e: Element, page: PageMap)
    requires e.Elem?
    ensures Skeleton(Restored(e, page)) == Skeleton(e)
  {
    RestorePreservesSkeleton(e.children, page);
  }

  /** Restoring the same page twice gives the tree obtained by restoring it once. */
  lemma {:induction false} RestoreAllIdempotent(cs: seq<Element>, page: PageMap)
    ensures RestoreAll(RestoreAll(cs, page), page) == RestoreAll(cs, page)
    decreases cs
  {
    if cs != [] {
      var n := |cs| - 1;
      var c := cs[n];
      var rs := RestoreAll(cs, page);
      assert rs[..n] == RestoreAll(cs[..n], page) && rs[n] == RestoredChild(c, page);
      RestoreAllIdempotent(cs[..n], page);
      if c.Elem? {
        RestoreAllIdempotent(c.children, page);
        SetControlIdempotent(c, page);
      }
    }
  }

  lemma RestoreIdempotent(e: Element, page: PageMap)
    requires e.Elem?
    ensures Restored(Restored(e, page), page) == Restored(e, page)
  {
    RestoreAllIdempotent(e.children, page);
  }
}
