/** Division of a stream into blocks of k, kept apart so that other proofs stay linear. */
module Blocking {

  /** The position of the first frame of a block. */
  function Start(id: nat, k: nat): nat
  {
    id * k
  }

  function Quot(n: nat, k: nat): nat
    requires k >= 1
  {
    n / k
  }

  function Rem(n: nat, k: nat): nat
    requires k >= 1
  {
    n % k
  }

  lemma StartSucc(id: nat, k: nat)
    ensures Start(id + 1, k) == Start(id, k) + k
  {
  }

  lemma StartZero(k: nat)
    ensures Start(0, k) == 0
  {
  }

  lemma StartMono(a: nat, b: nat, k: nat)
    requires a < b
    ensures Start(a, k) + k <= Start(b, k)
    decreases b
  {
    hide *;
    StartSucc(b - 1, k);
    if a < b - 1 {
      StartMono(a, b - 1, k);
    }
  }

  lemma QuotRem(n: nat, k: nat)
    requires k >= 1
    ensures n == Start(Quot(n, k), k) + Rem(n, k)
    ensures Rem(n, k) < k
  {
  }

  /** Quotient and remainder are determined by the position they add up to. */
  lemma QuotUnique(n: nat, k: nat, q: nat, m: nat)
    requires k >= 1 && n == Start(q, k) + m && m < k
    ensures Quot(n, k) == q && Rem(n, k) == m
  {
    hide *;
    QuotRem(n, k);
    var d := Quot(n, k);
    if d < q {
      StartMono(d, q, k);
    } else if d > q {
      StartMono(q, d, k);
    }
  }
}
