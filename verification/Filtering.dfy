/** What it means for a list to hold, in order and each once, exactly what a test lets through of another list. */
module Filtering {
  import opened Options

  ghost predicate Increasing(at: seq<nat>) {
    forall i, j | 0 <= i < j < |at| :: at[i] < at[j]
  }

  /** ys[i] comes from place at[i] of xs; no place that yields something is left out. */
  ghost predicate KeptAt<T, U>(xs: seq<T>, ys: seq<U>, f: T -> Option<U>, at: seq<nat>) {
    && |at| == |ys| && Increasing(at)
    && (forall i | 0 <= i < |at| :: at[i] < |xs| && f(xs[at[i]]) == Some(ys[i]))
    && (forall k: nat | k < |xs| && f(xs[k]).Some? :: k in at)
  }

  ghost predicate Keeps<T, U>(xs: seq<T>, ys: seq<U>, f: T -> Option<U>) {
    exists at: seq<nat> :: KeptAt(xs, ys, f, at)
  }

  lemma KeepsNothing<T, U>(f: T -> Option<U>)
    ensures Keeps([], [], f)
  {
    assert KeptAt([], [], f, []);
  }

  lemma SkipsOneMore<T, U>(xs: seq<T>, ys: seq<U>, f: T -> Option<U>, at: seq<nat>, x: T)
    requires KeptAt(xs, ys, f, at) && f(x).None?
    ensures KeptAt(xs + [x], ys, f, at)
  {
  }

  lemma TakesOneMore<T, U>(xs: seq<T>, ys: seq<U>, f: T -> Option<U>, at: seq<nat>, x: T)
    requires KeptAt(xs, ys, f, at) && f(x).Some?
    ensures KeptAt(xs + [x], ys + [f(x).value], f, at + [|xs|])
  {
    var xs', ys', at' := xs + [x], ys + [f(x).value], at + [|xs|];
    forall i | 0 <= i < |at'|
      ensures at'[i] < |xs'| && f(xs'[at'[i]]) == Some(ys'[i])
    {
      if i < |at| {
        assert at'[i] == at[i] && ys'[i] == ys[i] && xs'[at[i]] == xs[at[i]];
      }
    }
    forall k: nat | k < |xs'| && f(xs'[k]).Some?
      ensures k in at'
    {
      if k < |xs| {
        assert xs'[k] == xs[k] && k in at;
      } else {
        assert at'[|at|] == k;
      }
    }
  }

  lemma KeepsOneMore<T, U>(xs: seq<T>, ys: seq<U>, f: T -> Option<U>, x: T)
    requires Keeps(xs, ys, f)
    ensures Keeps(xs + [x], ys + (if f(x).Some? then [f(x).value] else []), f)
  {
    hide KeptAt;
    var at :| KeptAt(xs, ys, f, at);
    if f(x).Some? {
      TakesOneMore(xs, ys, f, at, x);
    } else {
      SkipsOneMore(xs, ys, f, at, x);
      assert ys + [] == ys;
    }
  }

  /** Only what the test answers on the list matters. */
  lemma KeepsSame<T, U>(xs: seq<T>, ys: seq<U>, f: T -> Option<U>, g: T -> Option<U>)
    requires Keeps(xs, ys, f) && forall k | 0 <= k < |xs| :: f(xs[k]) == g(xs[k])
    ensures Keeps(xs, ys, g)
  {
    var at :| KeptAt(xs, ys, f, at);
    assert KeptAt(xs, ys, g, at);
  }

  /** Some place of xs yields y. */
  ghost predicate Yields<T, U>(xs: seq<T>, f: T -> Option<U>, y: U) {
    exists k :: 0 <= k < |xs| && f(xs[k]) == Some(y)
  }

  lemma KeptMember<T, U>(xs: seq<T>, ys: seq<U>, f: T -> Option<U>, at: seq<nat>, y: U)
    requires KeptAt(xs, ys, f, at)
    ensures y in ys <==> Yields(xs, f, y)
  {
    if y in ys {
      var i :| 0 <= i < |ys| && ys[i] == y;
      assert f(xs[at[i]]) == Some(y);
    }
    if Yields(xs, f, y) {
      var k: nat :| k < |xs| && f(xs[k]) == Some(y);
      var i :| 0 <= i < |at| && at[i] == k;
      assert ys[i] == y;
    }
  }

  /** Membership, both ways. */
  lemma KeptMembers<T, U(!new)>(xs: seq<T>, ys: seq<U>, f: T -> Option<U>)
    requires Keeps(xs, ys, f)
    ensures forall y :: y in ys <==> Yields(xs, f, y)
  {
    hide KeptAt, Yields;
    var at :| KeptAt(xs, ys, f, at);
    forall y
      ensures y in ys <==> Yields(xs, f, y)
    {
      KeptMember(xs, ys, f, at, y);
    }
  }

  lemma ShorterKept<T, U>(xs: seq<T>, ys: seq<U>, f: T -> Option<U>, at: seq<nat>)
    requires xs != [] && KeptAt(xs, ys, f, at)
    ensures f(xs[|xs| - 1]).Some? ==> ys != [] && ys[|ys| - 1] == f(xs[|xs| - 1]).value
    ensures f(xs[|xs| - 1]).Some? ==> Keeps(xs[..|xs| - 1], ys[..|ys| - 1], f)
    ensures f(xs[|xs| - 1]).None? ==> Keeps(xs[..|xs| - 1], ys, f)
  {
    var n := |xs| - 1;
    if f(xs[n]).Some? {
      var i :| 0 <= i < |at| && at[i] == n;
      assert i == |at| - 1 by {
        assert at[|at| - 1] < |xs|;
      }
      forall k: nat | k < n && f(xs[k]).Some?
        ensures k in at[..i]
      {
        var j :| 0 <= j < |at| && at[j] == k;
        assert at[..i][j] == k;
      }
      assert KeptAt(xs[..n], ys[..|ys| - 1], f, at[..i]);
    } else {
      assert forall i | 0 <= i < |at| :: at[i] != n;
      assert KeptAt(xs[..n], ys, f, at);
    }
  }

  lemma KeptFits<T, U>(xs: seq<T>, ys: seq<U>, f: T -> Option<U>, at: seq<nat>)
    requires KeptAt(xs, ys, f, at)
    ensures ys != [] ==> xs != []
  {
    assert ys != [] ==> at[0] < |xs|;
  }

  /** There is only one such list. */
  lemma {:induction false} KeptUnique<T, U>(xs: seq<T>, ys: seq<U>, zs: seq<U>, f: T -> Option<U>)
    requires Keeps(xs, ys, f) && Keeps(xs, zs, f)
    ensures ys == zs
    decreases |xs|
  {
    hide KeptAt;
    var at :| KeptAt(xs, ys, f, at);
    var at' :| KeptAt(xs, zs, f, at');
    if xs == [] {
      KeptFits(xs, ys, f, at);
      KeptFits(xs, zs, f, at');
    } else {
      var init, x := xs[..|xs| - 1], xs[|xs| - 1];
      ShorterKept(xs, ys, f, at);
      ShorterKept(xs, zs, f, at');
      if f(x).Some? {
        KeptUnique(init, ys[..|ys| - 1], zs[..|zs| - 1], f);
        assert ys == ys[..|ys| - 1] + [f(x).value] && zs == zs[..|zs| - 1] + [f(x).value];
      } else {
        KeptUnique(init, ys, zs, f);
      }
    }
  }
}
