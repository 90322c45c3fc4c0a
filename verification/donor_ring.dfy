/** The steal-donor wiring of the pool: worker `i` steals from worker `(i + 1) mod n`. */
module DonorRing {

  /** The donor the constructor hands to worker `i` of `n`. */
  function Donor(n: nat, i: nat): (d: nat)
    requires i < n
    ensures d < n
    ensures i + 1 < n ==> d == i + 1
    ensures i + 1 == n ==> d == 0
  {
    (i + 1) % n
  }

  /** The worker that steals from worker `k`: the inverse of the donor map. */
  function Thief(n: nat, k: nat): (t: nat)
    requires k < n
    ensures t < n
    ensures Donor(n, t) == k
  {
    if k == 0 then n - 1 else k - 1
  }

  /** The donor map is a bijection on `[0, n)`: `Thief` undoes it on both sides. */
  lemma DonorIsBijection(n: nat, i: nat, k: nat)
    requires i < n && k < n
    ensures Thief(n, Donor(n, i)) == i
    ensures Donor(n, Thief(n, k)) == k
  {
  }

  /** Distinct workers have distinct donors. */
  lemma DonorInjective(n: nat, i: nat, j: nat)
    requires i < n && j < n
    ensures Donor(n, i) == Donor(n, j) ==> i == j
  {
    DonorIsBijection(n, i, 0);
    DonorIsBijection(n, j, 0);
  }

  /** A worker is its own donor exactly when it is the only worker. */
  lemma SelfDonorIffAlone(n: nat, i: nat)
    requires i < n
    ensures Donor(n, i) == i <==> n == 1
  {
  }

  /** Following the donor chain `k` times from worker `i`. */
  function Walk(n: nat, i: nat, k: nat): (w: nat)
    requires i < n
    ensures w < n
  {
    if k == 0 then i else Donor(n, Walk(n, i, k - 1))
  }

  /** Within one lap, `k` steps from `i` land on `i + k`, wrapped once. */
  lemma {:induction false} WalkOffset(n: nat, i: nat, k: nat)
    requires i < n && k <= n
    ensures Walk(n, i, k) == if i + k < n then i + k else i + k - n
  {
    if k > 0 {
      WalkOffset(n, i, k - 1);
    }
  }

  /** How many donor steps lead from worker `i` to worker `j`. */
  function Distance(n: nat, i: nat, j: nat): (k: nat)
    requires i < n && j < n
    ensures k < n
  {
    if i <= j then j - i else j + n - i
  }

  /** The donor map is one cycle through all `n` workers: from any worker the
      chain returns home after exactly `n` steps, not earlier, and reaches every worker. */
  lemma {:induction false} DonorRingIsSingleCycle(n: nat, i: nat)
    requires i < n
    ensures Walk(n, i, n) == i
    ensures forall k :: 0 < k < n ==> Walk(n, i, k) != i
    ensures forall j :: 0 <= j < n ==> Walk(n, i, Distance(n, i, j)) == j
  {
    WalkOffset(n, i, n);
    forall k | 0 < k < n
      ensures Walk(n, i, k) != i
    {
      WalkOffset(n, i, k);
    }
    forall j | 0 <= j < n
      ensures Walk(n, i, Distance(n, i, j)) == j
    {
      WalkOffset(n, i, Distance(n, i, j));
    }
  }

  /** The first lap from any worker meets no worker twice. */
  lemma FirstLapIsDistinct(n: nat, i: nat)
    requires i < n
    ensures forall j, k :: 0 <= j < k < n ==> Walk(n, i, j) != Walk(n, i, k)
  {
    forall j, k | 0 <= j < k < n
      ensures Walk(n, i, j) != Walk(n, i, k)
    {
      WalkOffset(n, i, j);
      WalkOffset(n, i, k);
    }
  }
}
