/** The loops index.js writes with `forEach` and `each`: a callback run on
    each element in document order, where a throw ends the loop and
    propagates. `Kept` and `Each` push into an array, `Fold` overwrites
    fields of one record. */
module Loops {
  import opened Base

  /** A `forEach` that may push one value per element and stops at the
      first element that throws: the values of the first `items`, or that
      exception. */
  function Kept<E, T>(f: E -> Result<Option<T>>, items: seq<E>): Result<seq<T>>
    decreases |items|
  {
    if items == [] then Ok([])
    else
      var init :- Kept(f, items[..|items| - 1]);
      var entry :- f(items[|items| - 1]);
      if entry.Some? then Ok(init + [entry.value]) else Ok(init)
  }

  /** A `forEach` that pushes one value per element, stopping at the first
      element that throws. */
  function Each<E, T>(f: E -> Result<T>, items: seq<E>): Result<seq<T>>
    decreases |items|
  {
    if items == [] then Ok([])
    else
      var init :- Each(f, items[..|items| - 1]);
      var entry :- f(items[|items| - 1]);
      Ok(init + [entry])
  }

  /** Once an element throws, the whole loop throws the same. */
  lemma {:induction false} KeptErrExtends<E, T>(f: E -> Result<Option<T>>, items: seq<E>, k: nat)
    requires k <= |items|
    requires Kept(f, items[..k]).Err?
    ensures Kept(f, items) == Kept(f, items[..k])
    decreases |items| - k
  {
    if k < |items| {
      assert items[..k + 1][..k] == items[..k];
      KeptErrExtends(f, items, k + 1);
    } else {
      assert items[..k] == items;
    }
  }

  lemma {:induction false} EachErrExtends<E, T>(f: E -> Result<T>, items: seq<E>, k: nat)
    requires k <= |items|
    requires Each(f, items[..k]).Err?
    ensures Each(f, items) == Each(f, items[..k])
    decreases |items| - k
  {
    if k < |items| {
      assert items[..k + 1][..k] == items[..k];
      EachErrExtends(f, items, k + 1);
    } else {
      assert items[..k] == items;
    }
  }

  /** Document order: the values of two runs of elements are those of the
      first followed by those of the second. */
  lemma {:induction false} KeptAppend<E, T>(f: E -> Result<Option<T>>, a: seq<E>, b: seq<E>)
    requires Kept(f, a).Ok? && Kept(f, b).Ok?
    ensures Kept(f, a + b) == Ok(Kept(f, a).value + Kept(f, b).value)
    decreases |b|
  {
    if b == [] {
      assert a + b == a;
      assert Kept(f, b) == Ok([]);
      assert Kept(f, a).value + [] == Kept(f, a).value;
    } else {
      var b' := b[..|b| - 1];
      var last := b[|b| - 1];
      assert Kept(f, b').Ok? && f(last).Ok?;
      KeptAppend(f, a, b');
      assert (a + b)[..|a + b| - 1] == a + b';
      assert (a + b)[|a + b| - 1] == last;
      assert Kept(f, a + b').value == Kept(f, a).value + Kept(f, b').value;
      if f(last).value.Some? {
        var v := f(last).value.value;
        assert Kept(f, b) == Ok(Kept(f, b').value + [v]);
        assert Kept(f, a + b) == Ok(Kept(f, a + b').value + [v]);
        assert (Kept(f, a).value + Kept(f, b').value) + [v] == Kept(f, a).value + (Kept(f, b').value + [v]);
      } else {
        assert Kept(f, b) == Kept(f, b');
        assert Kept(f, a + b) == Kept(f, a + b');
      }
    }
  }

  /** A kept element contributes exactly its own value. */
  lemma KeptSingle<E, T>(f: E -> Result<Option<T>>, item: E)
    ensures Kept(f, [item]).Ok? <==> f(item).Ok?
    ensures f(item).Ok? ==> Kept(f, [item]).value == (if f(item).value.Some? then [f(item).value.value] else [])
  {
    assert [item][..0] == [];
  }

  /** Nothing is dropped: one value per element, each the element's own, in order. */
  lemma {:induction false} EachIndexwise<E, T>(f: E -> Result<T>, items: seq<E>)
    requires Each(f, items).Ok?
    ensures |Each(f, items).value| == |items|
    ensures forall i :: 0 <= i < |items| ==> f(items[i]).Ok? && Each(f, items).value[i] == f(items[i]).value
    decreases |items|
  {
    if items != [] {
      var init := items[..|items| - 1];
      EachIndexwise(f, init);
      forall i | 0 <= i < |items|
        ensures f(items[i]).Ok? && Each(f, items).value[i] == f(items[i]).value
      {
        if i < |init| {
          assert items[i] == init[i];
        }
      }
    }
  }

  /** The loop throws exactly when some element does. */
  lemma {:induction false} EachOkIff<E, T>(f: E -> Result<T>, items: seq<E>)
    ensures Each(f, items).Ok? <==> forall i :: 0 <= i < |items| ==> f(items[i]).Ok?
    decreases |items|
  {
    if items != [] {
      var init := items[..|items| - 1];
      EachOkIff(f, init);
      assert forall i :: 0 <= i < |init| ==> items[i] == init[i];
    }
  }

  /** A `forEach` whose callback updates one record, stopping at the first
      element whose callback throws. */
  function Fold<S, E>(f: (S, E) -> Result<S>, s: S, items: seq<E>): Result<S>
    decreases |items|
  {
    if items == [] then Ok(s)
    else
      var prev :- Fold(f, s, items[..|items| - 1]);
      f(prev, items[|items| - 1])
  }

  lemma {:induction false} FoldErrExtends<S, E>(f: (S, E) -> Result<S>, s: S, items: seq<E>, k: nat)
    requires k <= |items|
    requires Fold(f, s, items[..k]).Err?
    ensures Fold(f, s, items) == Fold(f, s, items[..k])
    decreases |items| - k
  {
    if k < |items| {
      assert items[..k + 1][..k] == items[..k];
      FoldErrExtends(f, s, items, k + 1);
    } else {
      assert items[..k] == items;
    }
  }

  /** The last element acts on the record the others left. */
  lemma FoldSnoc<S, E>(f: (S, E) -> Result<S>, s: S, items: seq<E>, e: E)
    ensures Fold(f, s, items + [e]) == (if Fold(f, s, items).Ok? then f(Fold(f, s, items).value, e) else Fold(f, s, items))
  {
    assert (items + [e])[..|items|] == items;
  }

  /** Looping over `a + b` is looping over `a`, then over `b` from where the
      first loop left off; an error in `a` is the error of the whole. */
  lemma {:induction false} FoldAppend<S, E>(f: (S, E) -> Result<S>, s: S, a: seq<E>, b: seq<E>)
    ensures Fold(f, s, a).Err? ==> Fold(f, s, a + b) == Fold(f, s, a)
    ensures Fold(f, s, a).Ok? ==> Fold(f, s, a + b) == Fold(f, Fold(f, s, a).value, b)
    decreases |b|
  {
    if b == [] {
      EmptyAppend(a);
    } else {
      var init, last := b[..|b| - 1], b[|b| - 1];
      FoldAppend(f, s, a, init);
      Assoc(a, init, [last]);
      assert init + [last] == b;
      FoldSnoc(f, s, a + init, last);
      if Fold(f, s, a).Ok? {
        FoldSnoc(f, Fold(f, s, a).value, init, last);
      }
    }
  }

  /** A property every step keeps holds of the record the whole loop leaves. */
  lemma {:induction false} FoldKeeps<S, E>(f: (S, E) -> Result<S>, s: S, items: seq<E>, P: S -> bool)
    requires P(s)
    requires forall t, i :: 0 <= i < |items| && P(t) && f(t, items[i]).Ok? ==> P(f(t, items[i]).value)
    ensures Fold(f, s, items).Ok? ==> P(Fold(f, s, items).value)
    decreases |items|
  {
    if items != [] {
      var init := items[..|items| - 1];
      assert forall i :: 0 <= i < |init| ==> init[i] == items[i];
      FoldKeeps(f, s, init, P);
    }
  }

  /** A `forEach` whose callback may push one value: the loop stops at the
      first element whose callback throws. */
  method PushKept<E, T>(f: E -> Result<Option<T>>, items: seq<E>) returns (r: Result<seq<T>>)
    ensures r == Kept(f, items)
  {
    var pushed: seq<T> := [];
    var i := 0;
    while i < |items|
      invariant 0 <= i <= |items|
      invariant Kept(f, items[..i]) == Ok(pushed)
    {
      assert items[..i + 1][..i] == items[..i];
      assert items[..i + 1][i] == items[i];
      var entry := f(items[i]);
      if entry.Err? {
        KeptErrExtends(f, items, i + 1);
        return Err(entry.error);
      }
      if entry.value.Some? {
        pushed := pushed + [entry.value.value];
      }
      i := i + 1;
    }
    assert items[..i] == items;
    r := Ok(pushed);
  }

  /** A `forEach` whose callback always pushes one value. */
  method PushEach<E, T>(f: E -> Result<T>, items: seq<E>) returns (r: Result<seq<T>>)
    ensures r == Each(f, items)
  {
    var pushed: seq<T> := [];
    var i := 0;
    while i < |items|
      invariant 0 <= i <= |items|
      invariant Each(f, items[..i]) == Ok(pushed)
    {
      assert items[..i + 1][..i] == items[..i];
      assert items[..i + 1][i] == items[i];
      var entry := f(items[i]);
      if entry.Err? {
        EachErrExtends(f, items, i + 1);
        return Err(entry.error);
      }
      pushed := pushed + [entry.value];
      i := i + 1;
    }
    assert items[..i] == items;
    r := Ok(pushed);
  }

  /** A `forEach` whose callback updates one record in place. */
  method FoldAll<S, E>(f: (S, E) -> Result<S>, s0: S, items: seq<E>) returns (r: Result<S>)
    ensures r == Fold(f, s0, items)
  {
    var s := s0;
    var i := 0;
    while i < |items|
      invariant 0 <= i <= |items|
      invariant Fold(f, s0, items[..i]) == Ok(s)
    {
      assert items[..i + 1][..i] == items[..i];
      assert items[..i + 1][i] == items[i];
      var next := f(s, items[i]);
      if next.Err? {
        FoldErrExtends(f, s0, items, i + 1);
        return next;
      }
      s := next.value;
      i := i + 1;
    }
    assert items[..i] == items;
    r := Ok(s);
  }
}
