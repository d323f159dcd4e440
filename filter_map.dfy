/**
 * The shape both retrievers share: walk a list once and append, for each
 * item, zero or more outputs (`if <tests>: out.append(<convert item>)`).
 * `step(x)` is what item `x` contributes.
 */
module FilterMap {

  /** The outputs of the walk over `s`, in the order of `s`. */
  function Collect<T, U>(step: T -> seq<U>, s: seq<T>): seq<U> {
    if s == [] then [] else Collect(step, s[..|s| - 1]) + step(s[|s| - 1])
  }

  /** One more loop iteration appends what the next item contributes. */
  lemma CollectSnoc<T, U>(step: T -> seq<U>, s: seq<T>, i: nat)
    requires i < |s|
    ensures Collect(step, s[..i + 1]) == Collect(step, s[..i]) + step(s[i])
  {
    assert s[..i + 1][..i] == s[..i];
  }

  /** The last loop iteration has walked the whole list. */
  lemma CollectAll<T, U>(step: T -> seq<U>, s: seq<T>)
    ensures Collect(step, s[..|s|]) == Collect(step, s)
  {
    assert s[..|s|] == s;
  }

  /** Items are handled one at a time, so the walk over `a + b` is the walk over `a`, then over `b`. */
  lemma {:induction false} CollectAppend<T, U>(step: T -> seq<U>, a: seq<T>, b: seq<T>)
    ensures Collect(step, a + b) == Collect(step, a) + Collect(step, b)
    decreases |b|
  {
    if b == [] {
      assert a + b == a;
    } else {
      var bInit := b[..|b| - 1];
      CollectAppend(step, a, bInit);
      assert (a + b)[..|a + b| - 1] == a + bInit;
    }
  }

  /** A walk over two items. */
  lemma CollectPair<T, U>(step: T -> seq<U>, x: T, y: T)
    ensures Collect(step, [x, y]) == step(x) + step(y)
  {
    assert [x, y][..1] == [x];
    assert [x][..0] == [];
    assert Collect(step, [x]) == [] + step(x) == step(x);
  }

  /** An output appears iff some item of the list contributes it. */
  lemma {:induction false} CollectMembers<T, U>(step: T -> seq<U>, s: seq<T>)
    ensures forall y :: y in Collect(step, s) <==> exists x :: x in s && y in step(x)
  {
    if s != [] {
      var init := s[..|s| - 1];
      CollectMembers(step, init);
      assert s == init + [s[|s| - 1]];
    }
  }

  /** When every item contributes exactly one output, the outputs line up with the items. */
  lemma {:induction false} CollectOneEach<T, U>(step: T -> seq<U>, s: seq<T>)
    requires forall x :: x in s ==> |step(x)| == 1
    ensures |Collect(step, s)| == |s|
    ensures forall i :: 0 <= i < |s| ==> Collect(step, s)[i] == step(s[i])[0]
  {
    if s != [] {
      var n := |s| - 1;
      var init := s[..n];
      assert forall x :: x in init ==> x in s;
      CollectOneEach(step, init);
      assert s[n] in s;
      forall i | 0 <= i < n ensures Collect(step, s)[i] == step(s[i])[0] {
        assert s[i] == init[i];
      }
    }
  }

  /** Items that contribute nothing leave nothing. */
  lemma {:induction false} CollectNone<T, U>(step: T -> seq<U>, s: seq<T>)
    requires forall x :: x in s ==> step(x) == []
    ensures Collect(step, s) == []
  {
    if s != [] {
      var init := s[..|s| - 1];
      assert forall x :: x in init ==> x in s;
      CollectNone(step, init);
    }
  }
}
