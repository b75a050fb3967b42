/** The visual tree the saver walks, abstracted from the UI toolkit. */
module VisualTree {
  import opened Wrappers

  /** The element kinds the saver distinguishes; every other control class is `Other`. */
  datatype Kind = TextBox | TextBlock | RadioButton | Other

  /** A visual-tree node. `Null` stands for a null child reference. `text` is the `Text`
      property of text-bearing kinds and `isChecked` the `IsChecked` property of radio buttons;
      a kind that lacks the property simply ignores the field. */
  datatype Element =
    | Null
    | Elem(kind: Kind, name: string, text: Option<string>, isChecked: Option<bool>, children: seq<Element>)

  predicate IsTextKind(k: Kind) { k == TextBox || k == TextBlock }

  /** The non-null elements of `cs` and, below each of them, their descendants down to `k`
      further levels, in the depth-first pre-order in which the walks visit them. */
  function Descendants(cs: seq<Element>, k: nat): seq<Element>
    decreases cs
  {
    if cs == [] then []
    else
      var c := cs[|cs| - 1];
      Descendants(cs[..|cs| - 1], k)
        + (if c.Null? then [] else [c] + (if k == 0 then [] else Descendants(c.children, k - 1)))
  }

  lemma {:induction false} DescendantsAreElements(cs: seq<Element>, k: nat)
    ensures forall i :: 0 <= i < |Descendants(cs, k)| ==> Descendants(cs, k)[i].Elem?
    decreases cs
  {
    if cs != [] {
      var c := cs[|cs| - 1];
      DescendantsAreElements(cs[..|cs| - 1], k);
      if c.Elem? && k > 0 {
        DescendantsAreElements(c.children, k - 1);
      }
    }
  }

  /** The tree without its control values: kinds, names and structure only. */
  function Skeleton(e: Element): Element
    decreases e
  {
    if e.Null? then Null else Elem(e.kind, e.name, None, None, SkeletonAll(e.children))
  }

  function SkeletonAll(cs: seq<Element>): seq<Element>
    decreases cs
  {
    if cs == [] then [] else SkeletonAll(cs[..|cs| - 1]) + [Skeleton(cs[|cs| - 1])]
  }

  /** `e` with every node more than `k` levels below it removed. */
  function Truncate(e: Element, k: nat): Element
    decreases e
  {
    if e.Null? then Null
    else if k == 0 then e.(children := [])
    else e.(children := TruncateAll(e.children, k - 1))
  }

  function TruncateAll(cs: seq<Element>, k: nat): seq<Element>
    decreases cs
  {
    if cs == [] then [] else TruncateAll(cs[..|cs| - 1], k) + [Truncate(cs[|cs| - 1], k)]
  }

  lemma {:induction false} SkeletonAllLength(cs: seq<Element>)
    ensures |SkeletonAll(cs)| == |cs|
    decreases cs
  {
    if cs != [] {
      SkeletonAllLength(cs[..|cs| - 1]);
    }
  }

  /** Position by position, the two lists hold nodes of the same skeleton. */
  ghost predicate Parallel(xs: seq<Element>, ys: seq<Element>)
  {
    |xs| == |ys| && forall i :: 0 <= i < |xs| ==> Skeleton(xs[i]) == Skeleton(ys[i])
  }

  lemma ParallelConcat(a: seq<Element>, b: seq<Element>, c: seq<Element>, d: seq<Element>)
    requires Parallel(a, c) && Parallel(b, d)
    ensures Parallel(a + b, c + d)
  {
    forall i | 0 <= i < |a + b|
      ensures Skeleton((a + b)[i]) == Skeleton((c + d)[i])
    {
      if i < |a| {
        assert (a + b)[i] == a[i] && (c + d)[i] == c[i];
      } else {
        assert (a + b)[i] == b[i - |a|] && (c + d)[i] == d[i - |a|];
      }
    }
  }

  /** Two child sequences with the same skeleton list their descendants in lock step:
      position by position the nodes have the same skeleton, hence the same kind and name. */
  lemma {:induction false} SameSkeletonDescendants(cs: seq<Element>, ds: seq<Element>, k: nat)
    requires SkeletonAll(cs) == SkeletonAll(ds)
    ensures Parallel(Descendants(cs, k), Descendants(ds, k))
    decreases cs
  {
    SkeletonAllLength(cs);
    SkeletonAllLength(ds);
    if cs != [] {
      var n := |cs| - 1;
      var c, d := cs[n], ds[n];
      SkeletonAllLength(cs[..n]);
      SkeletonAllLength(ds[..n]);
      assert SkeletonAll(cs[..n]) == SkeletonAll(cs)[..n] == SkeletonAll(ds)[..n] == SkeletonAll(ds[..n]);
      assert Skeleton(c) == SkeletonAll(cs)[n] == SkeletonAll(ds)[n] == Skeleton(d);
      SameSkeletonDescendants(cs[..n], ds[..n], k);
      var sc := if c.Null? then [] else [c] + (if k == 0 then [] else Descendants(c.children, k - 1));
      var sd := if d.Null? then [] else [d] + (if k == 0 then [] else Descendants(d.children, k - 1));
      if c.Elem? {
        var tc := if k == 0 then [] else Descendants(c.children, k - 1);
        var td := if k == 0 then [] else Descendants(d.children, k - 1);
        if k > 0 {
          SameSkeletonDescendants(c.children, d.children, k - 1);
        }
        ParallelConcat([c], tc, [d], td);
      }
      ParallelConcat(Descendants(cs[..n], k), sc, Descendants(ds[..n], k), sd);
    }
  }
}
