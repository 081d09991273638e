/**
 * The loop shape `for _, x := range xs { y, ok := f(x); if !ok { continue }; ys = append(ys, y) }`:
 * keep the elements `f` accepts, in order, each replaced by what `f` makes of it.
 */
module FilterMaps {
  import opened Wrappers

  /** What the loop has appended after visiting all of `xs`. */
  function FilterMap<A, B>(xs: seq<A>, f: A -> Option<B>): (ys: seq<B>)
    ensures |ys| <= |xs|
  {
    if |xs| == 0 then []
    else FilterMap(xs[..|xs| - 1], f) + OptionToSeq(f(xs[|xs| - 1]))
  }

  /** The positions of the elements `f` accepts, in increasing order. */
  function KeptPositions<A, B>(xs: seq<A>, f: A -> Option<B>): seq<nat>
  {
    if |xs| == 0 then []
    else KeptPositions(xs[..|xs| - 1], f) + (if f(xs[|xs| - 1]).Some? then [|xs| - 1] else [])
  }

  /** One more loop iteration appends what `f` makes of the next element, if anything. */
  lemma FilterMapStep<A, B>(xs: seq<A>, i: nat, f: A -> Option<B>)
    requires i < |xs|
    ensures FilterMap(xs[..i + 1], f) == FilterMap(xs[..i], f) + OptionToSeq(f(xs[i]))
  {
    assert xs[..i + 1][..i] == xs[..i];
  }

  /** The kept positions are exactly the accepted positions, each once, in increasing order. */
  lemma {:induction false} KeptPositionsAreAccepted<A, B>(xs: seq<A>, f: A -> Option<B>)
    ensures var kept := KeptPositions(xs, f);
      && (forall k :: 0 <= k < |kept| ==> kept[k] < |xs|)
      && (forall k, l :: 0 <= k < l < |kept| ==> kept[k] < kept[l])
      && (forall i :: 0 <= i < |xs| ==> (i in kept <==> f(xs[i]).Some?))
  {
    if |xs| > 0 {
      var front := xs[..|xs| - 1];
      KeptPositionsAreAccepted(front, f);
      assert forall i :: 0 <= i < |xs| - 1 ==> xs[i] == front[i];
    }
  }

  /** The k-th output is what `f` makes of the element at the k-th kept position. */
  lemma {:induction false} FilterMapAtKept<A, B>(xs: seq<A>, f: A -> Option<B>)
    ensures var ys, kept := FilterMap(xs, f), KeptPositions(xs, f);
      && |kept| == |ys|
      && (forall k :: 0 <= k < |kept| ==> kept[k] < |xs| && f(xs[kept[k]]) == Some(ys[k]))
  {
    if |xs| > 0 {
      var n := |xs| - 1;
      var front := xs[..n];
      FilterMapAtKept(front, f);
      var frontKept := KeptPositions(front, f);
      assert forall k :: 0 <= k < |frontKept| ==> xs[frontKept[k]] == front[frontKept[k]];
    }
  }

  /** When `f` accepts everything, nothing is lost and the order is that of the input. */
  lemma {:induction false} FilterMapAllAccepted<A, B>(xs: seq<A>, f: A -> Option<B>)
    requires forall i :: 0 <= i < |xs| ==> f(xs[i]).Some?
    ensures |FilterMap(xs, f)| == |xs|
    ensures forall k :: 0 <= k < |xs| ==> Some(FilterMap(xs, f)[k]) == f(xs[k])
  {
    if |xs| > 0 {
      FilterMapAllAccepted(xs[..|xs| - 1], f);
    }
  }
}
