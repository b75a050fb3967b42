/** What the capture walk computes, stated without the walk: the records of the recognised
    elements it reaches, in pre-order, inserted one by one with Dictionary.Add semantics. */
module CaptureProperties {
  import opened Wrappers
  import opened FrameStates
  import opened VisualTree
  import opened Convert
  import opened Capture

  /** The elements a walk started at `depth` inspects: the children of `e` and, below them,
      every level down to recursion depth MaxDepth + 1. */
  ghost function Reachable(e: Element, depth: int): seq<Element>
    requires e.Elem?
  {
    if depth > MaxDepth then [] else Descendants(e.children, MaxDepth - depth)
  }

  /** The records of the recognised elements of `xs`, in order. */
  ghost function Records(xs: seq<Element>): seq<Control>
  {
    if xs == [] then []
    else
      var x := xs[|xs| - 1];
      Records(xs[..|xs| - 1]) + (if Recognized(x) then [ConvertDependencyToControl(x).value] else [])
  }

  /** The names of the records. */
  ghost function Names(rs: seq<Control>): set<string>
  {
    if rs == [] then {} else Names(rs[..|rs| - 1]) + {rs[|rs| - 1].name}
  }

  /** No two records share a name. */
  ghost predicate Distinct(rs: seq<Control>)
  {
    rs == [] || (Distinct(rs[..|rs| - 1]) && rs[|rs| - 1].name !in Names(rs[..|rs| - 1]))
  }

  /** The records keyed by name. */
  ghost function ToMap(rs: seq<Control>): PageMap
  {
    if rs == [] then map[] else ToMap(rs[..|rs| - 1])[rs[|rs| - 1].name := rs[|rs| - 1]]
  }

  /** Dictionary.Add of every record of `rs`, in order, stopping at the first exception. */
  ghost function InsertAll(acc: Captured, rs: seq<Control>): Captured
  {
    if rs == [] then acc
    else
      var a := InsertAll(acc, rs[..|rs| - 1]);
      if a.Failure? then a else Add(a.value, rs[|rs| - 1])
  }

  lemma {:induction false} RecordsConcat(a: seq<Element>, b: seq<Element>)
    ensures Records(a + b) == Records(a) + Records(b)
    decreases |b|
  {
    if b == [] {
      assert a + b == a;
    } else {
      var p := b[..|b| - 1];
      assert (a + b)[..|a + b| - 1] == a + p;
      assert (a + b)[|a + b| - 1] == b[|b| - 1];
      RecordsConcat(a, p);
    }
  }

  lemma {:induction false} InsertAllConcat(acc: Captured, a: seq<Control>, b: seq<Control>)
    ensures InsertAll(acc, a + b) == InsertAll(InsertAll(acc, a), b)
    decreases |b|
  {
    if b == [] {
      assert a + b == a;
    } else {
      var p := b[..|b| - 1];
      assert (a + b)[..|a + b| - 1] == a + p;
      assert (a + b)[|a + b| - 1] == b[|b| - 1];
      InsertAllConcat(acc, a, p);
    }
  }

  lemma {:induction false} InsertAllFailure(x: Exception, rs: seq<Control>)
    ensures InsertAll(Failure(x), rs) == Failure(x)
    decreases |rs|
  {
    if rs != [] {
      InsertAllFailure(x, rs[..|rs| - 1]);
    }
  }

  lemma {:induction false} ToMapKeys(rs: seq<Control>)
    ensures ToMap(rs).Keys == Names(rs)
    decreases |rs|
  {
    if rs != [] {
      ToMapKeys(rs[..|rs| - 1]);
    }
  }

  /** A name belongs to the records exactly when some record carries it. */
  lemma {:induction false} NamesIndex(rs: seq<Control>)
    ensures forall k :: k in Names(rs) <==> exists i :: 0 <= i < |rs| && rs[i].name == k
    decreases |rs|
  {
    if rs != [] {
      var n := |rs| - 1;
      var p := rs[..n];
      NamesIndex(p);
      forall k ensures k in Names(rs) <==> exists i :: 0 <= i < |rs| && rs[i].name == k {
        if k in Names(p) {
          var i :| 0 <= i < |p| && p[i].name == k;
          assert rs[i] == p[i];
        }
        if exists i :: 0 <= i < |rs| && rs[i].name == k {
          var i :| 0 <= i < |rs| && rs[i].name == k;
          if i < n {
            assert p[i] == rs[i];
          }
        }
      }
    }
  }

  /** Adding the records one by one succeeds exactly when their names are distinct and
      new, and then yields the old dictionary extended by the records. */
  lemma {:induction false} InsertAllOutcome(m: PageMap, rs: seq<Control>)
    ensures InsertAll(Ok(m), rs) ==
      if Distinct(rs) && Names(rs) !! m.Keys then Ok(m + ToMap(rs)) else Failure(ArgumentException)
    decreases |rs|
  {
    if rs != [] {
      var n := |rs| - 1;
      var p, r := rs[..n], rs[n];
      InsertAllOutcome(m, p);
      if Distinct(p) && Names(p) !! m.Keys {
        AddAfterDistinct(m, p, r);
        assert rs == p + [r];
      }
    } else {
      assert m + ToMap(rs) == m;
    }
  }

  /** The inductive step of InsertAllOutcome once the prefix has been added. */
  lemma AddAfterDistinct(m: PageMap, p: seq<Control>, r: Control)
    requires Distinct(p) && Names(p) !! m.Keys
    ensures Add(m + ToMap(p), r) ==
      if Distinct(p + [r]) && Names(p + [r]) !! m.Keys then Ok(m + ToMap(p + [r])) else Failure(ArgumentException)
  {
    var rs := p + [r];
    assert rs[..|rs| - 1] == p;
    ToMapKeys(p);
    if r.name !in m.Keys && r.name !in Names(p) {
      assert (m + ToMap(p))[r.name := r] == m + ToMap(rs);
    }
  }

  lemma MergeIsInsertAll(m: PageMap, rs: seq<Control>)
    ensures (var nested := InsertAll(Ok(map[]), rs);
             if nested.Failure? then nested else Merge(m, nested.value)) == InsertAll(Ok(m), rs)
  {
    InsertAllOutcome(map[], rs);
    InsertAllOutcome(m, rs);
    ToMapKeys(rs);
    assert map[] + ToMap(rs) == ToMap(rs);
  }

  /** The capture walk adds the records of the reachable elements, in pre-order. */
  lemma {:induction false} ControlsIsInsertAll(e: Element, depth: int)
    requires e.Elem?
    ensures Controls(e, depth) == InsertAll(Ok(map[]), Records(Reachable(e, depth)))
    decreases e, 0
  {
    if depth <= MaxDepth {
      CollectIsInsertAll(e.children, depth);
    }
  }

  lemma {:induction false} CollectIsInsertAll(cs: seq<Element>, depth: int)
    requires depth <= MaxDepth
    ensures Collect(cs, depth) == InsertAll(Ok(map[]), Records(Descendants(cs, MaxDepth - depth)))
    decreases cs, 2
  {
    var k := MaxDepth - depth;
    if cs != [] {
      var n := |cs| - 1;
      var p, c := cs[..n], cs[n];
      var a := Collect(p, depth);
      var seg := if c.Null? then [] else [c] + Reachable(c, depth + 1);
      assert Collect(cs, depth) == Step(a, c, depth);
      assert Step(a, c, depth) == InsertAll(a, Records(seg)) by {
        if c.Null? {
          assert Records(seg) == [];
        } else {
          StepIsInsertAll(a, c, depth);
        }
      }
      assert InsertAll(a, Records(seg)) == InsertAll(Ok(map[]), Records(Descendants(cs, k))) by {
        assert Descendants(cs, k) == Descendants(p, k) + seg;
        CollectIsInsertAll(p, depth);
        RecordsConcat(Descendants(p, k), seg);
        InsertAllConcat(Ok(map[]), Records(Descendants(p, k)), Records(seg));
      }
    }
  }

  lemma InsertAllSingle(a: Captured, r: Control)
    ensures InsertAll(a, [r]) == if a.Failure? then a else Add(a.value, r)
  {
    assert [r][..0] == [];
  }

  lemma RecordsSingle(c: Element)
    ensures Records([c]) == if Recognized(c) then [ConvertDependencyToControl(c).value] else []
  {
    assert [c][..0] == [];
    assert Records([c]) == Records([]) + (if Recognized(c) then [ConvertDependencyToControl(c).value] else []);
  }

  /** One loop iteration on a non-null child adds the child's own record and then those
      of its reachable descendants. */
  lemma {:induction false} StepIsInsertAll(a: Captured, c: Element, depth: int)
    requires depth <= MaxDepth && c.Elem?
    ensures Step(a, c, depth) == InsertAll(a, Records([c] + Reachable(c, depth + 1)))
    decreases c, 1
  {
    var tail := Reachable(c, depth + 1);
    var own := Records([c]);
    var inserted := InsertAll(a, own);
    assert Records([c] + tail) == own + Records(tail) by {
      RecordsConcat([c], tail);
    }
    assert InsertAll(a, own + Records(tail)) == InsertAll(inserted, Records(tail)) by {
      InsertAllConcat(a, own, Records(tail));
    }
    var control := ConvertDependencyToControl(c);
    assert inserted == if a.Failure? then a
                       else if control.Some? && control.value.name != "" then Add(a.value, control.value)
                       else a by {
      RecordsSingle(c);
      if Recognized(c) {
        InsertAllSingle(a, control.value);
      }
    }
    if inserted.Failure? {
      InsertAllFailure(inserted.error, Records(tail));
    } else {
      assert Step(a, c, depth) == (var nested := Controls(c, depth + 1);
                                  if nested.Failure? then nested else Merge(inserted.value, nested.value));
      ControlsIsInsertAll(c, depth + 1);
      MergeIsInsertAll(inserted.value, Records(tail));
    }
  }

  /** Two recognised elements of `xs`, at different positions, share a name. */
  ghost predicate HasDuplicate(xs: seq<Element>)
  {
    exists i, j :: 0 <= i < j < |xs| && Recognized(xs[i]) && Recognized(xs[j]) && xs[i].name == xs[j].name
  }

  lemma RecordsSnoc(p: seq<Element>, x: Element)
    ensures Records(p + [x]) == Records(p) + (if Recognized(x) then [ConvertDependencyToControl(x).value] else [])
  {
    assert (p + [x])[..|p|] == p;
  }

  /** Every record comes from a recognised element. */
  lemma {:induction false} RecordsSound(xs: seq<Element>)
    ensures forall j :: 0 <= j < |Records(xs)| ==>
              exists i :: 0 <= i < |xs| && Recognized(xs[i]) && ConvertDependencyToControl(xs[i]) == Some(Records(xs)[j])
    decreases |xs|
  {
    if xs != [] {
      var n := |xs| - 1;
      var p, x := xs[..n], xs[n];
      assert Records(xs) == Records(p) + (if Recognized(x) then [ConvertDependencyToControl(x).value] else []);
      RecordsSound(p);
      var rs, rp := Records(xs), Records(p);
      forall j | 0 <= j < |rs|
        ensures exists i :: 0 <= i < |xs| && Recognized(xs[i]) && ConvertDependencyToControl(xs[i]) == Some(rs[j])
      {
        if j < |rp| {
          assert rs[j] == rp[j];
          var i :| 0 <= i < |p| && Recognized(p[i]) && ConvertDependencyToControl(p[i]) == Some(rp[j]);
          assert xs[i] == p[i];
        } else {
          assert Recognized(xs[n]) && ConvertDependencyToControl(xs[n]) == Some(rs[j]);
        }
      }
    } else {
      assert Records(xs) == [];
    }
  }

  /** Every recognised element contributes its record. */
  lemma {:induction false} RecordsComplete(xs: seq<Element>)
    ensures forall i :: 0 <= i < |xs| && Recognized(xs[i]) ==>
              exists j :: 0 <= j < |Records(xs)| && ConvertDependencyToControl(xs[i]) == Some(Records(xs)[j])
    decreases |xs|
  {
    if xs != [] {
      var n := |xs| - 1;
      var p, x := xs[..n], xs[n];
      assert xs == p + [x];
      RecordsSnoc(p, x);
      RecordsComplete(p);
      var rs, rp := Records(xs), Records(p);
      forall i | 0 <= i < |xs| && Recognized(xs[i])
        ensures exists j :: 0 <= j < |rs| && ConvertDependencyToControl(xs[i]) == Some(rs[j])
      {
        if i < n {
          assert xs[i] == p[i];
          var j :| 0 <= j < |rp| && ConvertDependencyToControl(p[i]) == Some(rp[j]);
          assert rs[j] == rp[j];
        } else {
          assert rs[|rp|] == ConvertDependencyToControl(x).value;
        }
      }
    }
  }

  /** The names of the records are those of the recognised elements. */
  lemma RecordNames(xs: seq<Element>)
    ensures forall k :: k in Names(Records(xs)) <==>
              exists i :: 0 <= i < |xs| && Recognized(xs[i]) && xs[i].name == k
  {
    var rs := Records(xs);
    forall k | k in Names(rs) ensures exists i :: 0 <= i < |xs| && Recognized(xs[i]) && xs[i].name == k {
      var j :| 0 <= j < |rs| && rs[j].name == k by {
        NamesIndex(rs);
      }
      var i :| 0 <= i < |xs| && Recognized(xs[i]) && ConvertDependencyToControl(xs[i]) == Some(rs[j]) by {
        RecordsSound(xs);
      }
    }
    forall k | exists i :: 0 <= i < |xs| && Recognized(xs[i]) && xs[i].name == k ensures k in Names(rs) {
      var i :| 0 <= i < |xs| && Recognized(xs[i]) && xs[i].name == k;
      var j :| 0 <= j < |rs| && ConvertDependencyToControl(xs[i]) == Some(rs[j]) by {
        RecordsComplete(xs);
      }
      assert rs[j].name == k;
      NamesIndex(rs);
    }
  }

  /** A duplicate in `p + [x]` is one in `p`, or `x` repeating the name of a recognised element of `p`. */
  lemma HasDuplicateSnoc(p: seq<Element>, x: Element)
    ensures HasDuplicate(p + [x]) <==>
      HasDuplicate(p) || (Recognized(x) && exists i :: 0 <= i < |p| && Recognized(p[i]) && p[i].name == x.name)
  {
    var xs := p + [x];
    if HasDuplicate(xs) {
      var i, j :| 0 <= i < j < |xs| && Recognized(xs[i]) && Recognized(xs[j]) && xs[i].name == xs[j].name;
      assert xs[i] == p[i];
      if j < |p| {
        assert xs[j] == p[j];
      }
    }
    if HasDuplicate(p) {
      var i, j :| 0 <= i < j < |p| && Recognized(p[i]) && Recognized(p[j]) && p[i].name == p[j].name;
      assert xs[i] == p[i] && xs[j] == p[j];
    }
    if Recognized(x) && exists i :: 0 <= i < |p| && Recognized(p[i]) && p[i].name == x.name {
      var i :| 0 <= i < |p| && Recognized(p[i]) && p[i].name == x.name;
      assert xs[i] == p[i] && xs[|p|] == x;
    }
  }

  /** The records have distinct names exactly when no two recognised elements share one. */
  lemma {:induction false} RecordsDistinct(xs: seq<Element>)
    ensures Distinct(Records(xs)) <==> !HasDuplicate(xs)
    decreases |xs|
  {
    if xs != [] {
      var n := |xs| - 1;
      var p, x := xs[..n], xs[n];
      assert xs == p + [x];
      RecordsSnoc(p, x);
      RecordsDistinct(p);
      HasDuplicateSnoc(p, x);
      if Recognized(x) {
        var rp := Records(p);
        var cx := ConvertDependencyToControl(x).value;
        var rs := rp + [cx];
        assert Records(xs) == rs;
        assert rs[..|rs| - 1] == rp && rs[|rs| - 1] == cx;
        assert Distinct(rs) <==> Distinct(rp) && cx.name !in Names(rp);
        assert cx.name == x.name;
        RecordNames(p);
      } else {
        assert Records(xs) == Records(p);
      }
    }
  }

  /** Every key maps to a record carrying it, and with distinct names each record is found
      under its own name. */
  lemma {:induction false} ToMapLookup(rs: seq<Control>)
    ensures forall k :: k in ToMap(rs) ==> exists j :: 0 <= j < |rs| && ToMap(rs)[k] == rs[j] && rs[j].name == k
    ensures Distinct(rs) ==> forall j :: 0 <= j < |rs| ==> rs[j].name in ToMap(rs) && ToMap(rs)[rs[j].name] == rs[j]
    decreases |rs|
  {
    if rs != [] {
      var n := |rs| - 1;
      var p, r := rs[..n], rs[n];
      ToMapLookup(p);
      assert ToMap(rs) == ToMap(p)[r.name := r];
      forall k | k in ToMap(rs) ensures exists j :: 0 <= j < |rs| && ToMap(rs)[k] == rs[j] && rs[j].name == k {
        if k == r.name {
          assert ToMap(rs)[k] == rs[n];
        } else {
          assert k in ToMap(p);
          var j :| 0 <= j < |p| && ToMap(p)[k] == p[j] && p[j].name == k;
          assert rs[j] == p[j];
        }
      }
      if Distinct(rs) {
        NamesIndex(p);
        forall j | 0 <= j < |rs| ensures rs[j].name in ToMap(rs) && ToMap(rs)[rs[j].name] == rs[j] {
          if j < n {
            assert rs[j] == p[j];
            assert p[j].name in Names(p);
          }
        }
      }
    }
  }

  /** The capture walk fails, with Dictionary.Add's ArgumentException, exactly when two
      recognised elements within reach share a name; otherwise it maps each name to its
      element's record. */
  lemma CaptureOutcome(e: Element, depth: int)
    requires e.Elem?
    ensures Controls(e, depth).Ok? <==> !HasDuplicate(Reachable(e, depth))
    ensures Controls(e, depth).Failure? ==> Controls(e, depth).error == ArgumentException
    ensures Controls(e, depth).Ok? ==> Controls(e, depth).value == ToMap(Records(Reachable(e, depth)))
  {
    var rs := Records(Reachable(e, depth));
    ControlsIsInsertAll(e, depth);
    InsertAllOutcome(map[], rs);
    RecordsDistinct(Reachable(e, depth));
    assert map[] + ToMap(rs) == ToMap(rs);
  }

  /** The keys of a successful capture are exactly the names of the recognised elements
      within reach, none is empty, and each maps to its own element's record. */
  lemma CaptureKeys(e: Element, depth: int)
    requires e.Elem? && Controls(e, depth).Ok?
    ensures var m, xs := Controls(e, depth).value, Reachable(e, depth);
      forall k :: k in m ==>
        && k != ""
        && m[k].name == k
        && exists i :: 0 <= i < |xs| && Recognized(xs[i]) && ConvertDependencyToControl(xs[i]) == Some(m[k])
    ensures var m, xs := Controls(e, depth).value, Reachable(e, depth);
      forall i :: 0 <= i < |xs| && Recognized(xs[i]) ==>
        xs[i].name in m && ConvertDependencyToControl(xs[i]) == Some(m[xs[i].name])
  {
    var xs := Reachable(e, depth);
    var rs := Records(xs);
    CaptureOutcome(e, depth);
    RecordsDistinct(xs);
    RecordsSound(xs);
    RecordsComplete(xs);
    ToMapLookup(rs);
  }

  /** The root passed in is never captured: only its children matter. */
  lemma CaptureIgnoresRoot(e: Element, f: Element, depth: int)
    requires e.Elem? && f.Elem? && e.children == f.children
    ensures Controls(e, depth) == Controls(f, depth)
  {
  }

  /** A null child contributes nothing. */
  lemma {:induction false} CollectSkipsNull(a: seq<Element>, b: seq<Element>, depth: int)
    ensures Collect(a + [Null] + b, depth) == Collect(a + b, depth)
    decreases |b|
  {
    var s, t := a + [Null] + b, a + b;
    if b == [] {
      assert s[..|s| - 1] == a && s[|s| - 1] == Null;
      assert t == a;
    } else {
      var q := b[..|b| - 1];
      assert s[..|s| - 1] == a + [Null] + q && s[|s| - 1] == b[|b| - 1];
      assert t[..|t| - 1] == a + q && t[|t| - 1] == b[|b| - 1];
      CollectSkipsNull(a, q, depth);
    }
  }

  /** Inserting a null child anywhere leaves the capture unchanged. */
  lemma NullChildSkipped(e: Element, i: nat, depth: int)
    requires e.Elem? && i <= |e.children|
    ensures Controls(e.(children := e.children[..i] + [Null] + e.children[i..]), depth) == Controls(e, depth)
  {
    CollectSkipsNull(e.children[..i], e.children[i..], depth);
    assert e.children[..i] + e.children[i..] == e.children;
  }

  /** Nothing more than MaxDepth + 1 - `depth` levels below `e` can reach the result:
      cutting the tree there changes nothing. From depth 0 that is 21 levels. */
  lemma {:induction false} CaptureDepthBound(e: Element, depth: int)
    requires e.Elem? && depth <= MaxDepth
    ensures Controls(Truncate(e, MaxDepth + 1 - depth), depth) == Controls(e, depth)
    decreases e, 0
  {
    CollectTruncate(e.children, depth);
  }

  lemma {:induction false} CollectTruncate(cs: seq<Element>, depth: int)
    requires depth <= MaxDepth
    ensures Collect(TruncateAll(cs, MaxDepth - depth), depth) == Collect(cs, depth)
    decreases cs, 2
  {
    if cs != [] {
      var k := MaxDepth - depth;
      var p, c := cs[..|cs| - 1], cs[|cs| - 1];
      var tp := TruncateAll(p, k);
      assert TruncateAll(cs, k) == tp + [Truncate(c, k)];
      assert (tp + [Truncate(c, k)])[..|tp|] == tp;
      CollectTruncate(p, depth);
      StepTruncate(Collect(p, depth), c, depth);
    }
  }

  lemma {:induction false} StepTruncate(a: Captured, c: Element, depth: int)
    requires depth <= MaxDepth
    ensures Step(a, Truncate(c, MaxDepth - depth), depth) == Step(a, c, depth)
    decreases c, 1
  {
    var t := Truncate(c, MaxDepth - depth);
    if c.Elem? {
      assert ConvertDependencyToControl(t) == ConvertDependencyToControl(c);
      if depth + 1 <= MaxDepth {
        CaptureDepthBound(c, depth + 1);
      }
      assert Controls(t, depth + 1) == Controls(c, depth + 1);
    }
  }
}
