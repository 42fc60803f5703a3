/** The CPU-thread plan of an embedding benchmark artifact. */
module ThreadPlan {
  import opened Basics

  datatype Encoded = UpstreamDefault | Threads(threads: seq<int>) | Unreadable

  datatype Telemetry = Telemetry(cpuMathCores: int, gpuLayers: Option<int>, threadCounts: Encoded)

  function Sum(threads: seq<int>): int {
    if threads == [] then 0 else Sum(threads[..|threads| - 1]) + threads[|threads| - 1]
  }

  /** The accepted plans, as the validator tests them. */
  predicate ValidThreadPlan(t: Telemetry, contexts: nat) {
    && t.cpuMathCores >= 1
    && if contexts == 1 then t.threadCounts == UpstreamDefault
       else
         && t.gpuLayers == Some(0) && t.threadCounts.Threads?
         && var threads := t.threadCounts.threads;
            && |threads| == contexts
            && (forall i :: 0 <= i < |threads| ==> threads[i] >= 1)
            && Sum(threads) == t.cpuMathCores
            && (forall i :: 0 < i < |threads| ==> threads[i] <= threads[i - 1])
            && (threads != [] ==> threads[0] - threads[|threads| - 1] <= 1)
  }

  /** The balanced split: the first `cores mod contexts` entries one larger than the rest. */
  function Balanced(cores: nat, contexts: nat): seq<int>
    requires contexts >= 1
  {
    seq(contexts, i requires 0 <= i < contexts => cores / contexts + (if i < cores % contexts then 1 else 0))
  }

  /** `high` entries of low + 1 followed by `n - high` entries of low. */
  predicate Staircase(threads: seq<int>, low: int, high: int) {
    && 0 <= high <= |threads|
    && forall i :: 0 <= i < |threads| ==> threads[i] == (if i < high then low + 1 else low)
  }

  lemma {:induction false} StaircaseSum(threads: seq<int>, low: int, high: int)
    requires Staircase(threads, low, high)
    ensures Sum(threads) == |threads| * low + high
  {
    if threads != [] {
      var shorter := threads[..|threads| - 1];
      var n := |threads|;
      StaircaseSum(shorter, low, if high == n then high - 1 else high);
      assert n * low == (n - 1) * low + low;
    }
  }

  /** A non-increasing list whose ends differ by at most one is a staircase that ends on its low step. */
  lemma {:induction false} DescendingIsStaircase(threads: seq<int>, n: nat) returns (high: int)
    requires 1 <= n <= |threads|
    requires forall i :: 0 < i < |threads| ==> threads[i] <= threads[i - 1]
    requires threads[0] - threads[|threads| - 1] <= 1
    ensures Staircase(threads[..n], threads[|threads| - 1], high)
    ensures high < n || threads[n - 1] == threads[|threads| - 1] + 1
    decreases n
  {
    var low := threads[|threads| - 1];
    Descending(threads, 0, n - 1);
    Descending(threads, n - 1, |threads| - 1);
    if n == 1 {
      high := if threads[0] == low then 0 else 1;
    } else {
      high := DescendingIsStaircase(threads, n - 1);
      assert threads[..n][..n - 1] == threads[..n - 1];
      assert threads[..n - 1][n - 2] == threads[n - 2];
      if threads[n - 1] == low + 1 { high := n; }
      forall i | 0 <= i < n ensures threads[..n][i] == (if i < high then low + 1 else low) {
        if i < n - 1 { assert threads[..n][i] == threads[..n - 1][i]; }
      }
    }
  }

  lemma {:induction false} Descending(threads: seq<int>, i: nat, j: nat)
    requires i <= j < |threads|
    requires forall k :: 0 < k < |threads| ==> threads[k] <= threads[k - 1]
    ensures threads[j] <= threads[i]
    decreases j - i
  {
    if i < j { Descending(threads, i, j - 1); }
  }

  /** For two or more contexts the validator accepts exactly the balanced split of the core count, and one exists exactly
      when there are at least as many cores as contexts. */
  lemma AcceptsExactlyBalanced(t: Telemetry, contexts: nat)
    requires contexts >= 2
    ensures ValidThreadPlan(t, contexts) <==>
              && t.gpuLayers == Some(0) && t.cpuMathCores >= contexts
              && t.threadCounts == Threads(Balanced(t.cpuMathCores, contexts))
  {
    if t.cpuMathCores >= 1 && t.threadCounts.Threads? {
      if ValidThreadPlan(t, contexts) {
        AcceptedIsBalanced(t.threadCounts.threads, t.cpuMathCores, contexts);
      }
      if t.cpuMathCores >= contexts && t.threadCounts.threads == Balanced(t.cpuMathCores, contexts) {
        BalancedIsAccepted(t.cpuMathCores, contexts);
      }
    }
  }

  lemma AcceptedIsBalanced(threads: seq<int>, cores: nat, contexts: nat)
    requires contexts >= 2 && |threads| == contexts && Sum(threads) == cores
    requires forall i :: 0 <= i < |threads| ==> threads[i] >= 1
    requires forall i :: 0 < i < |threads| ==> threads[i] <= threads[i - 1]
    requires threads[0] - threads[|threads| - 1] <= 1
    ensures threads == Balanced(cores, contexts) && cores >= contexts
  {
    var low := threads[contexts - 1];
    var high := DescendingIsStaircase(threads, contexts);
    assert threads[..contexts] == threads;
    StaircaseSum(threads, low, high);
    ProductGrows(contexts, low);
    QuotientUnique(cores, contexts, low, high);
    StaircaseIsBalanced(threads, cores, contexts);
  }

  lemma StaircaseIsBalanced(threads: seq<int>, cores: nat, contexts: nat)
    requires contexts >= 1 && |threads| == contexts && Staircase(threads, cores / contexts, cores % contexts)
    ensures threads == Balanced(cores, contexts)
  {
  }

  lemma BalancedIsAccepted(cores: nat, contexts: nat)
    requires contexts >= 2 && cores >= contexts
    ensures var threads := Balanced(cores, contexts);
            && Sum(threads) == cores && |threads| == contexts
            && (forall i :: 0 <= i < |threads| ==> threads[i] >= 1)
            && (forall i :: 0 < i < |threads| ==> threads[i] <= threads[i - 1])
            && threads[0] - threads[|threads| - 1] <= 1
  {
    var threads := Balanced(cores, contexts);
    StaircaseSum(threads, cores / contexts, cores % contexts);
    assert cores == contexts * (cores / contexts) + cores % contexts;
  }
}
