/** What a save followed by a load promises: the values captured from one tree come back on
    any tree of the same shape. */
module RoundTrip {
  import opened Wrappers
  import opened FrameStates
  import opened VisualTree
  import opened Convert
  import opened Capture
  import opened CaptureProperties
  import opened Restore

  /** One position of the round trip: an element `y` of the target tree with the same
      skeleton as a recognised source element `x`, written from the page captured from `x`. */
  lemma RoundTripAt(x: Element, y: Element, page: PageMap)
    requires Recognized(x) && Skeleton(x) == Skeleton(y)
    requires x.name in page && ConvertDependencyToControl(x) == Some(page[x.name])
    ensures var z := RestoredChild(y, page);
      && z.Elem? && z.kind == x.kind && z.name == x.name
      && (IsTextKind(x.kind) ==> z.text == x.text)
      && (x.kind == RadioButton ==> z.isChecked == x.isChecked)
  {
    assert y.Elem?;
    ApplyConverted(x, y, page);
  }

  /** Capture a tree `t` at depth 0 as a save does, then restore the page onto a tree `u`
      with the same kinds, names and structure below its root: every element the capture
      recorded comes back, at the same pre-order position, with its text (TextBox,
      TextBlock) or its checked state (RadioButton). */
  lemma CaptureRestoreRoundTrip(t: Element, u: Element)
    requires t.Elem? && u.Elem? && SkeletonAll(t.children) == SkeletonAll(u.children)
    requires Controls(t, 0).Ok?
    ensures var m := Controls(t, 0).value;
      var xs, zs := Reachable(t, 0), Descendants(Restored(u, m).children, MaxDepth);
      && |zs| == |xs|
      && forall i :: 0 <= i < |xs| && Recognized(xs[i]) ==>
        && zs[i].Elem? && zs[i].kind == xs[i].kind && zs[i].name == xs[i].name
        && (IsTextKind(xs[i].kind) ==> zs[i].text == xs[i].text)
        && (xs[i].kind == RadioButton ==> zs[i].isChecked == xs[i].isChecked)
  {
    var m := Controls(t, 0).value;
    var xs, ys := Reachable(t, 0), Descendants(u.children, MaxDepth);
    var zs := Descendants(Restored(u, m).children, MaxDepth);
    assert xs == Descendants(t.children, MaxDepth);
    SameSkeletonDescendants(t.children, u.children, MaxDepth);
    RestoreDescendants(u.children, m, MaxDepth);
    CaptureKeys(t, 0);
    forall i | 0 <= i < |xs| && Recognized(xs[i])
      ensures && zs[i].Elem? && zs[i].kind == xs[i].kind && zs[i].name == xs[i].name
              && (IsTextKind(xs[i].kind) ==> zs[i].text == xs[i].text)
              && (xs[i].kind == RadioButton ==> zs[i].isChecked == xs[i].isChecked)
    {
      RoundTripAt(xs[i], ys[i], m);
    }
  }

  /** A page with a named TextBox and a RadioButton inside a panel, and one null child. */
  function HomePage(name: Option<string>, choice: Option<bool>): Element
  {
    Elem(Other, "", None, None, [Panel(name, choice)])
  }

  function Panel(name: Option<string>, choice: Option<bool>): Element
  {
    Elem(Other, "panel", None, None, [NameBox(name), Null, OptA(choice)])
  }

  function NameBox(name: Option<string>): Element
  {
    Elem(TextBox, "nameBox", name, None, [])
  }

  function OptA(choice: Option<bool>): Element
  {
    Elem(RadioButton, "optA", None, choice, [])
  }

  /** The record a save of the filled-in page writes. */
  function HomeRecord(): PageMap
  {
    map["nameBox" := Control("nameBox", Some("Ada"), None), "optA" := Control("optA", None, Some(true))]
  }

  /** Saving the filled-in page records both controls under their names and nothing else. */
  lemma HomePageCapture()
    ensures Controls(HomePage(Some("Ada"), Some(true)), 0) == Ok(HomeRecord())
  {
    var nb, oa := NameBox(Some("Ada")), OptA(Some(true));
    var cn, co := Control("nameBox", Some("Ada"), None), Control("optA", None, Some(true));
    var m := HomeRecord();
    var kids := [nb, Null, oa];
    var one := map["nameBox" := cn];
    assert Collect([nb], 1) == Ok(one) by {
      assert [nb][..0] == [];
      assert Controls(nb, 2) == Ok(map[]);
      assert Add(map[], cn) == Ok(one) && one + map[] == one;
    }
    assert Collect([nb, Null], 1) == Ok(one) by {
      assert [nb, Null][..1] == [nb];
    }
    assert Collect(kids, 1) == Ok(m) by {
      assert kids[..2] == [nb, Null];
      assert Controls(oa, 2) == Ok(map[]);
      assert Add(one, co) == Ok(m) && m + map[] == m;
    }
    assert Step(Ok(map[]), Panel(Some("Ada"), Some(true)), 0) == Ok(m) by {
      assert map[] + m == m;
    }
    assert [Panel(Some("Ada"), Some(true))][..0] == [];
  }

  /** Loading that record into a blank copy of the page fills it in again. */
  lemma HomePageRestore()
    ensures Restored(HomePage(None, Some(false)), HomeRecord()) == HomePage(Some("Ada"), Some(true))
  {
    var m := HomeRecord();
    var blank := [NameBox(None), Null, OptA(Some(false))];
    assert RestoreAll(blank, m) == [NameBox(Some("Ada")), Null, OptA(Some(true))] by {
      assert blank[..2] == [NameBox(None), Null] && [NameBox(None), Null][..1] == [NameBox(None)];
      assert [NameBox(None)][..0] == [];
    }
    assert [Panel(None, Some(false))][..0] == [];
  }
}
