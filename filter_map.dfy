/** Keeping the elements a partial function maps to a value, in order:
    what `iter().filter_map(..).collect()` and a loop that pushes only
    some of its items both compute. */
module FilterMaps {
  import opened Wrappers

  /** The value an Option holds, as a sequence of zero or one element. */
  function Items<B>(o: Option<B>): (r: seq<B>)
    ensures |r| <= 1
  {
    match o
    case Some(b) => [b]
    case None => []
  }

  /** The images under `f` of the elements of `s` that `f` keeps, in the
      order of `s`. */
  function FilterMap<A, B>(s: seq<A>, f: A -> Option<B>): (r: seq<B>)
    ensures |r| <= |s|
  {
    if s == [] then [] else FilterMap(s[..|s| - 1], f) + Items(f(s[|s| - 1]))
  }

  /** The positions of `s` that `f` keeps, in increasing order. */
  function KeptPositions<A, B>(s: seq<A>, f: A -> Option<B>): (idx: seq<nat>)
    ensures forall k :: 0 <= k < |idx| ==> idx[k] < |s| && f(s[idx[k]]).Some?
    ensures forall k, l :: 0 <= k < l < |idx| ==> idx[k] < idx[l]
    ensures forall i :: 0 <= i < |s| && f(s[i]).Some? ==> i in idx
  {
    if s == [] then []
    else KeptPositions(s[..|s| - 1], f) + (if f(s[|s| - 1]).Some? then [|s| - 1] else [])
  }

  /** Extending the input by one element extends the output by that
      element's image, if it has one. */
  lemma FilterMapSnoc<A, B>(s: seq<A>, x: A, f: A -> Option<B>)
    ensures FilterMap(s + [x], f) == FilterMap(s, f) + Items(f(x))
  {
    assert (s + [x])[..|s|] == s;
  }

  /** The k-th output is the image of the k-th kept input: one output per
      kept element, none for the others, in input order. */
  lemma {:induction false} FilterMapAtPositions<A, B>(s: seq<A>, f: A -> Option<B>)
    ensures |FilterMap(s, f)| == |KeptPositions(s, f)|
    ensures forall k :: 0 <= k < |FilterMap(s, f)| ==>
              f(s[KeptPositions(s, f)[k]]) == Some(FilterMap(s, f)[k])
  {
    if s != [] {
      var init := s[..|s| - 1];
      FilterMapAtPositions(init, f);
      var r, idx := FilterMap(s, f), KeptPositions(s, f);
      var r0, idx0 := FilterMap(init, f), KeptPositions(init, f);
      assert r[..|r0|] == r0 && idx[..|idx0|] == idx0;
      forall k | 0 <= k < |r|
        ensures f(s[idx[k]]) == Some(r[k])
      {
        if k < |r0| {
          assert r[k] == r0[k] && idx[k] == idx0[k];
          assert s[idx0[k]] == init[idx0[k]];
        }
      }
    }
  }

  /** A value is in the output exactly when some input element maps to it. */
  lemma FilterMapContains<A, B>(s: seq<A>, f: A -> Option<B>, y: B)
    ensures y in FilterMap(s, f) <==> exists i :: 0 <= i < |s| && f(s[i]) == Some(y)
  {
    var r, idx := FilterMap(s, f), KeptPositions(s, f);
    FilterMapAtPositions(s, f);
    if y in r {
      var k :| 0 <= k < |r| && r[k] == y;
      assert f(s[idx[k]]) == Some(y);
    }
    if i :| 0 <= i < |s| && f(s[i]) == Some(y) {
      var k :| 0 <= k < |idx| && idx[k] == i;
      assert r[k] == y;
    }
  }

  /** Nothing is dropped exactly when every element maps to a value. */
  lemma {:induction false} FilterMapKeepsAll<A, B>(s: seq<A>, f: A -> Option<B>)
    ensures |FilterMap(s, f)| == |s| <==> forall i :: 0 <= i < |s| ==> f(s[i]).Some?
  {
    if s != [] {
      var init := s[..|s| - 1];
      FilterMapKeepsAll(init, f);
      assert forall i :: 0 <= i < |init| ==> init[i] == s[i];
    }
  }

  /** Nothing is kept exactly when no element maps to a value. */
  lemma {:induction false} FilterMapDropsAll<A, B>(s: seq<A>, f: A -> Option<B>)
    ensures FilterMap(s, f) == [] <==> forall i :: 0 <= i < |s| ==> f(s[i]).None?
  {
    if s != [] {
      var init := s[..|s| - 1];
      FilterMapDropsAll(init, f);
      assert forall i :: 0 <= i < |init| ==> init[i] == s[i];
    }
  }
}
