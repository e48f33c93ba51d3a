/** Arithmetic progressions of times: the common core of every slot
    generator in the source, each of which walks from a start time in fixed
    steps while a guard on the current time holds. */
module Progression {
  import opened Common

  /** Strictly increasing sequence (the slots come out in time order, with no
      repeats). */
  predicate StrictlyAscending(s: seq<int>)
  {
    forall i, j :: 0 <= i < j < |s| ==> s[i] < s[j]
  }

  /** The points `from, from + step, from + 2*step, ...` that are at most
      `last`: what a loop `t := from; while t <= last { emit t; t := t + step }`
      produces. */
  function Steps(from: int, last: int, step: int): (r: seq<int>)
    requires step > 0
    ensures from > last <==> r == []
    ensures forall t :: t in r ==> from <= t <= last
    decreases if from <= last then last - from + 1 else 0
  {
    if from <= last then [from] + Steps(from + step, last, step) else []
  }

  /** The k-th point is exactly k steps after the start, and the last point is
      the largest one not beyond `last`. */
  lemma {:induction false} StepsFormula(from: int, last: int, step: int)
    requires step > 0
    ensures var r := Steps(from, last, step);
      && (forall i :: 0 <= i < |r| ==> r[i] == from + i * step)
      && (|r| > 0 ==> last < r[|r| - 1] + step)
    decreases if from <= last then last - from + 1 else 0
  {
    if from <= last {
      StepsFormula(from + step, last, step);
      var r, rest := Steps(from, last, step), Steps(from + step, last, step);
      forall i | 0 < i < |r| ensures r[i] == from + i * step {
        assert r[i] == rest[i - 1];
      }
    }
  }

  /** The points come out strictly ascending. */
  lemma {:induction false} StepsAscending(from: int, last: int, step: int)
    requires step > 0
    ensures StrictlyAscending(Steps(from, last, step))
    decreases if from <= last then last - from + 1 else 0
  {
    if from <= last {
      StepsAscending(from + step, last, step);
      var r, rest := Steps(from, last, step), Steps(from + step, last, step);
      forall i, j | 0 <= i < j < |r| ensures r[i] < r[j] {
        assert r[j] == rest[j - 1] && r[j] in rest;
        if i > 0 {
          assert r[i] == rest[i - 1];
        }
      }
    }
  }

  /** One more loop iteration: the current point moves from the remaining
      progression to the output. */
  lemma StepsPeel(done: seq<int>, from: int, last: int, step: int)
    requires step > 0 && from <= last
    ensures done + Steps(from, last, step) == (done + [from]) + Steps(from + step, last, step)
  {
    assert Steps(from, last, step) == [from] + Steps(from + step, last, step);
  }

  /** In 30-minute steps, every point is a whole number of steps after the
      start. */
  lemma {:induction false} StepsOnGrid(from: int, last: int)
    ensures forall t :: t in Steps(from, last, PasoMin) ==> (t - from) % PasoMin == 0
    decreases if from <= last then last - from + 1 else 0
  {
    if from <= last {
      StepsOnGrid(from + PasoMin, last);
    }
  }

  /** Two ascending runs, the first entirely below the second, make one
      ascending run. */
  lemma AppendAscending(a: seq<int>, b: seq<int>)
    requires StrictlyAscending(a) && StrictlyAscending(b)
    requires forall x, y :: x in a && y in b ==> x < y
    ensures StrictlyAscending(a + b)
  {
    forall i, j | 0 <= i < j < |a + b| ensures (a + b)[i] < (a + b)[j] {
      if j < |a| {
        assert (a + b)[i] == a[i] && (a + b)[j] == a[j];
      } else if i >= |a| {
        assert (a + b)[i] == b[i - |a|] && (a + b)[j] == b[j - |a|];
      } else {
        assert (a + b)[i] == a[i] && (a + b)[j] == b[j - |a|];
        assert a[i] in a && b[j - |a|] in b;
      }
    }
  }
}
