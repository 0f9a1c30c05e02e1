/**
 fcyc.c: the K-best sampler.  It keeps the kbest smallest measurements in ascending order, by
 one insertion per sample into an array of kbest values.
 */
module Sampling {

  ghost predicate Ascending(s: seq<real>) {
    forall i, j | 0 <= i <= j < |s| :: s[i] <= s[j]
  }

  /** x put in its place in s, after every value that is not larger. */
  function Insert(s: seq<real>, x: real): seq<real> {
    if s == [] || s[|s| - 1] <= x then s + [x] else Insert(s[..|s| - 1], x) + [s[|s| - 1]]
  }

  function Sorted(s: seq<real>): (r: seq<real>)
    ensures |r| == |s|
  {
    if s == [] then [] else
      InsertLength(Sorted(s[..|s| - 1]), s[|s| - 1]);
      Insert(Sorted(s[..|s| - 1]), s[|s| - 1])
  }

  lemma {:induction false} InsertLength(s: seq<real>, x: real)
    ensures |Insert(s, x)| == |s| + 1
  {
    if s != [] {
      InsertLength(s[..|s| - 1], x);
    }
  }

  /** How many of n samples are kept. */
  function Kept(n: int, k: int): int {
    if n < k then n else k
  }

  /** The k smallest samples, all of them while there are fewer. */
  function Best(seen: seq<real>, k: nat): seq<real> {
    Sorted(seen)[..Kept(|seen|, k)]
  }

  // ------------------------------------------------------------------ what Sorted and Best mean

  lemma {:induction false} InsertMembers(s: seq<real>, x: real)
    ensures multiset(Insert(s, x)) == multiset(s) + multiset{x}
  {
    if s != [] && s[|s| - 1] > x {
      InsertMembers(s[..|s| - 1], x);
      assert s == s[..|s| - 1] + [s[|s| - 1]];
    }
  }

  lemma {:induction false} InsertAscending(s: seq<real>, x: real)
    requires Ascending(s)
    ensures Ascending(Insert(s, x))
  {
    if s != [] && s[|s| - 1] > x {
      var front, last := s[..|s| - 1], s[|s| - 1];
      var r := Insert(front, x);
      InsertAscending(front, x);
      InsertMembers(front, x);
      forall i | 0 <= i < |r| ensures r[i] <= last {
        assert r[i] in multiset(r);
        if r[i] != x {
          assert r[i] in multiset(front);
        }
      }
    }
  }

  lemma {:induction false} SortedMeaning(s: seq<real>)
    ensures Ascending(Sorted(s)) && multiset(Sorted(s)) == multiset(s)
  {
    if s != [] {
      SortedMeaning(s[..|s| - 1]);
      InsertAscending(Sorted(s[..|s| - 1]), s[|s| - 1]);
      InsertMembers(Sorted(s[..|s| - 1]), s[|s| - 1]);
      assert s == s[..|s| - 1] + [s[|s| - 1]];
    }
  }

  /**
   Best is an ascending selection from the samples, and what it leaves out is no smaller than
   anything it keeps.
   */
  lemma BestMeaning(seen: seq<real>, k: nat) returns (others: multiset<real>)
    ensures |Best(seen, k)| == (if |seen| < k then |seen| else k) && Ascending(Best(seen, k))
    ensures multiset(seen) == multiset(Best(seen, k)) + others
    ensures forall x, y | x in Best(seen, k) && y in others :: x <= y
  {
    SortedMeaning(seen);
    var s, n := Sorted(seen), Kept(|seen|, k);
    assert s == s[..n] + s[n..];
    others := multiset(s[n..]);
  }

  lemma BestLength(seen: seq<real>, k: nat)
    ensures |Best(seen, k)| == Kept(|seen|, k)
  {
  }

  lemma InsertEmpty(x: real)
    ensures Insert([], x) == [x]
  {
  }

  /** The insertion passes a larger value... */
  lemma InsertPasses(s: seq<real>, pos: int, x: real)
    requires 0 < pos <= |s| && s[pos - 1] > x
    ensures Insert(s[..pos], x) == Insert(s[..pos - 1], x) + [s[pos - 1]]
  {
    assert s[..pos][..pos - 1] == s[..pos - 1];
  }

  /** ... and stops at any other. */
  lemma InsertStops(s: seq<real>, pos: int, x: real)
    requires 0 <= pos <= |s| && (pos > 0 ==> s[pos - 1] <= x)
    ensures Insert(s[..pos], x) == s[..pos] + [x]
  {
  }

  /** Inserting commutes with keeping the first k. */
  lemma {:induction false} InsertKeepsPrefix(s: seq<real>, x: real, k: nat)
    requires Ascending(s) && 0 < k <= |s|
    ensures |Insert(s, x)| == |s| + 1 && |Insert(s[..k - 1], x)| == k
    ensures Insert(s, x)[..k] == if x < s[k - 1] then Insert(s[..k - 1], x) else s[..k]
    decreases |s|
  {
    InsertLength(s, x);
    InsertLength(s[..k - 1], x);
    var front, last := s[..|s| - 1], s[|s| - 1];
    if last <= x {
    } else if k == |s| {
      InsertLength(front, x);
    } else {
      InsertKeepsPrefix(front, x, k);
      assert front[..k - 1] == s[..k - 1] && front[..k] == s[..k];
      InsertLength(front, x);
    }
  }

  /** How one more sample changes the k best. */
  lemma BestStep(seen: seq<real>, x: real, k: nat)
    requires k >= 1
    ensures Best(seen + [x], k) ==
            if |seen| < k then Insert(Best(seen, k), x)
            else if x < Best(seen, k)[k - 1] then Insert(Best(seen, k)[..k - 1], x)
            else Best(seen, k)
  {
    assert (seen + [x])[..|seen|] == seen;
    SortedMeaning(seen);
    var s := Sorted(seen);
    assert Sorted(seen + [x]) == Insert(s, x);
    InsertLength(s, x);
    if |seen| < k {
      assert s[..|seen|] == s;
      assert Insert(s, x)[..|seen| + 1] == Insert(s, x);
    } else {
      InsertKeepsPrefix(s, x, k);
      assert s[..k][..k - 1] == s[..k - 1];
    }
  }

  /** The first of the k best is the smallest sample of all. */
  lemma FirstIsMinimum(seen: seq<real>, k: nat)
    requires k >= 1 && seen != []
    ensures Best(seen, k)[0] in seen && forall x | x in seen :: Best(seen, k)[0] <= x
  {
    SortedMeaning(seen);
    var s := Sorted(seen);
    assert s[0] in multiset(s);
    assert s[0] in multiset(seen);
    forall x | x in seen ensures s[0] <= x {
      assert x in multiset(seen);
      assert x in multiset(s);
      var i :| 0 <= i < |s| && s[i] == x;
    }
  }

  // ------------------------------------------------------------------ convergence

  function Smallest(seen: seq<real>): (m: real)
    requires seen != []
    ensures m in seen && forall x | x in seen :: m <= x
  {
    FirstIsMinimum(seen, 1);
    Best(seen, 1)[0]
  }

  /** How many samples are at most b. */
  function CountAtMost(s: seq<real>, b: real): int {
    if s == [] then 0 else CountAtMost(s[..|s| - 1], b) + if s[|s| - 1] <= b then 1 else 0
  }

  lemma {:induction false} CountIsSize(s: seq<real>, b: real)
    ensures CountAtMost(s, b) == |set i | 0 <= i < |s| && s[i] <= b|
  {
    if s != [] {
      var front, n := s[..|s| - 1], |s| - 1;
      CountIsSize(front, b);
      var low := set i | 0 <= i < |front| && front[i] <= b;
      assert (set i | 0 <= i < |s| && s[i] <= b) == low + if s[n] <= b then {n} else {};
    }
  }

  function Scaled(m: real, epsilon: real): real {
    (1.0 + epsilon) * m
  }

  /** How many samples are at most 1 + epsilon times m. */
  function CountWithin(s: seq<real>, m: real, epsilon: real): int {
    CountAtMost(s, Scaled(m, epsilon))
  }

  lemma CountWithinIsSize(s: seq<real>, m: real, epsilon: real)
    ensures CountWithin(s, m, epsilon) == |set i | 0 <= i < |s| && s[i] <= (1.0 + epsilon) * m|
  {
    CountIsSize(s, (1.0 + epsilon) * m);
  }

  lemma {:induction false} CountInsert(s: seq<real>, x: real, b: real)
    ensures CountAtMost(Insert(s, x), b) == CountAtMost(s, b) + if x <= b then 1 else 0
  {
    if s == [] || s[|s| - 1] <= x {
      assert (s + [x])[..|s|] == s;
    } else {
      var r := Insert(s[..|s| - 1], x);
      CountInsert(s[..|s| - 1], x, b);
      assert (r + [s[|s| - 1]])[..|r|] == r;
    }
  }

  lemma {:induction false} CountSorted(s: seq<real>, b: real)
    ensures CountAtMost(Sorted(s), b) == CountAtMost(s, b)
  {
    if s != [] {
      CountSorted(s[..|s| - 1], b);
      CountInsert(Sorted(s[..|s| - 1]), s[|s| - 1], b);
    }
  }

  /** In ascending order at least k values are at most b exactly when the k-th is. */
  lemma {:induction false} CountAscending(s: seq<real>, k: nat, b: real)
    requires Ascending(s) && 1 <= k <= |s|
    ensures 0 <= CountAtMost(s, b) <= |s|
    ensures CountAtMost(s, b) >= k <==> s[k - 1] <= b
  {
    var front := s[..|s| - 1];
    if |s| == 1 {
      assert front == [];
    } else {
      CountAscending(front, if k < |s| then k else |s| - 1, b);
    }
  }

  lemma {:induction false} CountBound(s: seq<real>, b: real)
    ensures 0 <= CountAtMost(s, b) <= |s|
  {
    if s != [] {
      CountBound(s[..|s| - 1], b);
    }
  }

  /** The test holds exactly when at least k of the samples are at most 1 + epsilon times the smallest. */
  lemma ConvergedMeaning(seen: seq<real>, k: nat, epsilon: real)
    requires k >= 1
    ensures Converged(seen, k, epsilon) <==> seen != [] && CountWithin(seen, Smallest(seen), epsilon) >= k
  {
    hide Scaled, Smallest, Best;
    if seen != [] {
      var b := Scaled(Smallest(seen), epsilon);
      CountBound(seen, b);
      if |seen| >= k {
        BestLength(seen, k);
        FirstIsMinimum(seen, k);
        assert Best(seen, k)[0] == Smallest(seen);
        KthAtMost(seen, k, b);
      }
    }
  }

  /** Where a run that is converged at n, or at no sample before n, stands. */
  lemma Stopped(measured: seq<real>, n: nat, k: nat, epsilon: real, m: real)
    requires k >= 1 && n <= |measured| && m in measured[..n] && forall x | x in measured[..n] :: m <= x
    ensures Converged(measured[..n], k, epsilon) <==> CountWithin(measured[..n], m, epsilon) >= k
    ensures forall i | 1 <= i < n && !Converged(measured[..i], k, epsilon) ::
      CountWithin(measured[..i], Smallest(measured[..i]), epsilon) < k
  {
    hide Converged, Smallest, CountWithin;
    ConvergedMeaning(measured[..n], k, epsilon);
    assert Smallest(measured[..n]) == m;
    forall i | 1 <= i < n && !Converged(measured[..i], k, epsilon)
      ensures CountWithin(measured[..i], Smallest(measured[..i]), epsilon) < k
    {
      ConvergedMeaning(measured[..i], k, epsilon);
    }
  }

  lemma KthAtMost(seen: seq<real>, k: nat, b: real)
    requires 1 <= k <= |seen|
    ensures |Best(seen, k)| == k
    ensures CountAtMost(seen, b) >= k <==> Best(seen, k)[k - 1] <= b
  {
    SortedMeaning(seen);
    CountSorted(seen, b);
    CountAscending(Sorted(seen), k, b);
  }

  // ------------------------------------------------------------------ the sampler

  class Sampler {
    const kbest: nat
    const epsilon: real
    var values: array<real>
    var sampleCount: nat
    ghost var seen: seq<real>

    /** The first values are the best of all samples so far. */
    ghost predicate Valid()
      reads this, values
    {
      && kbest >= 1 && values.Length == kbest && sampleCount == |seen|
      && values[..Kept(|seen|, kbest)] == Best(seen, kbest)
    }

    constructor (kbest: nat, epsilon: real)
      requires kbest >= 1
      ensures Valid() && seen == [] && fresh(values) && this.kbest == kbest && this.epsilon == epsilon
    {
      this.kbest := kbest;
      this.epsilon := epsilon;
      values := new real[kbest];
      sampleCount := 0;
      seen := [];
    }

    /** init_sampler. */
    method InitSampler()
      requires kbest >= 1
      modifies this
      ensures Valid() && seen == [] && fresh(values) && sampleCount == 0
    {
      values := new real[kbest];
      sampleCount := 0;
      seen := [];
    }

    /** add_sample. */
    method AddSample(val: real)
      requires Valid()
      modifies values, `sampleCount, `seen
      ensures Valid() && seen == old(seen) + [val] && values == old(values) && sampleCount == old(sampleCount) + 1
    {
      hide Best, Insert;
      BestStep(seen, val, kbest);
      BestLength(seen, kbest);
      ghost var best := Best(seen, kbest);
      var pos := 0;
      if sampleCount < kbest {
        pos := sampleCount;
        values[pos] := val;
        assert values[..pos] == best;
      } else if val < values[kbest - 1] {
        pos := kbest - 1;
        assert values[..kbest] == best;
        values[pos] := val;
        assert values[..pos] == best[..pos];
      } else {
        InsertEmpty(values[0]);
        assert values[..kbest] == best && values[..pos] == [];
      }
      ghost var rest := values[pos + 1..];
      SwapDown(pos);
      assert values[..] == values[..pos + 1] + rest;
      assert values[..Kept(|seen| + 1, kbest)] == Best(seen + [val], kbest) by {
        if pos + 1 == Kept(|seen| + 1, kbest) {
          assert values[..pos + 1] == Best(seen + [val], kbest);
        } else {
          assert values[..kbest] == best;
        }
      }
      sampleCount := sampleCount + 1;
      seen := seen + [val];
    }

    /** The insertion sort loop of add_sample: values[start] moves down to its place. */
    method SwapDown(start: nat)
      requires start < values.Length
      modifies values
      ensures values[..start + 1] == Insert(old(values[..start]), old(values[start]))
      ensures values[start + 1..] == old(values[start + 1..])
    {
      hide Insert;
      var pos := start;
      ghost var s, x := values[..start], values[start];
      ghost var was := values[..];
      ghost var tail := [];
      while pos > 0 && values[pos - 1] > values[pos]
        invariant 0 <= pos <= start && values[pos] == x && values[..pos] == s[..pos]
        invariant values[pos + 1..start + 1] == tail
        invariant Insert(s, x) == Insert(s[..pos], x) + tail
        invariant values[start + 1..] == was[start + 1..]
      {
        assert values[pos - 1] == s[pos - 1];
        InsertPasses(s, pos, x);
        tail := [s[pos - 1]] + tail;
        var temp := values[pos - 1];
        values[pos - 1] := values[pos];
        values[pos] := temp;
        pos := pos - 1;
      }
      assert pos > 0 ==> s[pos - 1] == values[pos - 1];
      InsertStops(s, pos, x);
      assert values[..start + 1] == values[..pos] + [values[pos]] + values[pos + 1..start + 1];
    }

    /** has_converged. */
    method HasConverged() returns (done: bool)
      requires Valid()
      ensures done <==> Converged(seen, kbest, epsilon)
      ensures done <==> seen != [] && CountWithin(seen, Smallest(seen), epsilon) >= kbest
    {
      done := sampleCount >= kbest && (1.0 + epsilon) * values[0] >= values[kbest - 1];
      if sampleCount >= kbest {
        assert values[..kbest][0] == values[0] && values[..kbest][kbest - 1] == values[kbest - 1];
      }
      ConvergedMeaning(seen, kbest, epsilon);
    }

    /**
     fcyc, where measured lists the cycle counts the successive runs would give.  It stops at
     the first converged sample, or at the first one that makes maxSamples, and returns the
     smallest sample taken.
     */
    method Fcyc(measured: seq<real>, maxSamples: int) returns (result: real, taken: nat)
      requires kbest >= 1 && |measured| >= 1 && |measured| >= maxSamples
      modifies this
      ensures 1 <= taken <= |measured| && (taken == 1 || taken <= maxSamples)
      ensures result in measured[..taken] && forall x | x in measured[..taken] :: result <= x
      ensures CountWithin(measured[..taken], result, epsilon) >= kbest || taken >= maxSamples
      ensures forall n | 1 <= n < taken :: CountWithin(measured[..n], Smallest(measured[..n]), epsilon) < kbest
      ensures Converged(measured[..taken], kbest, epsilon) || taken >= maxSamples
      ensures forall n | 1 <= n < taken :: !Converged(measured[..n], kbest, epsilon)
    {
      hide Valid, Best, Converged, Smallest, CountWithin;
      InitSampler();
      AddSample(measured[0]);
      taken := 1;
      assert measured[..1] == [measured[0]];
      var done := HasConverged();
      while !done && sampleCount < maxSamples
        invariant Valid() && fresh(values) && 1 <= taken <= |measured| && (taken == 1 || taken <= maxSamples)
        invariant seen == measured[..taken] && sampleCount == taken
        invariant done <==> Converged(measured[..taken], kbest, epsilon)
        invariant forall n | 1 <= n < taken :: !Converged(measured[..n], kbest, epsilon)
        decreases |measured| - taken
      {
        AddSample(measured[taken]);
        assert measured[..taken + 1] == measured[..taken] + [measured[taken]];
        taken := taken + 1;
        done := HasConverged();
      }
      FirstIsMinimum(seen, kbest);
      SmallestFirst();
      result := values[0];
      Stopped(measured, taken, kbest, epsilon, result);
    }

    lemma SmallestFirst()
      requires Valid() && seen != []
      ensures values.Length > 0 && values[0] == Best(seen, kbest)[0]
    {
      assert values[..Kept(|seen|, kbest)][0] == values[0];
    }
  }

  /** The k best are there and within epsilon of each other. */
  ghost predicate Converged(seen: seq<real>, k: nat, epsilon: real)
    requires k >= 1
  {
    |seen| >= k && Scaled(Best(seen, k)[0], epsilon) >= Best(seen, k)[k - 1]
  }
}
