/** Positions on a ring of `k` slots, shared by the queue, the two logs and the background ring. */
module Ring {

  function Next(i: nat, k: nat): nat
    requires k > 0
  {
    (i + 1) % k
  }

  lemma NextWraps(i: nat, k: nat)
    requires i < k
    ensures Next(i, k) == if i + 1 == k then 0 else i + 1
  {
  }

  /** Where `n` single advances from slot 0 lead. */
  function Pos(n: nat, k: nat): (p: nat)
    requires k > 0
    ensures p < k
  {
    if n == 0 then 0 else Next(Pos(n - 1, k), k)
  }

  /** `d` more advances, at most one lap, in closed form. */
  lemma {:induction false} Ahead(n: nat, d: nat, k: nat)
    requires k > 0 && d <= k
    ensures Pos(n + d, k) == if Pos(n, k) + d < k then Pos(n, k) + d else Pos(n, k) + d - k
    decreases d
  {
    if d > 0 {
      Ahead(n, d - 1, k);
      NextWraps(Pos(n + d - 1, k), k);
    }
  }

  /** The number of slots from `tail` up to `head`, computed as every ring in the system does. */
  function Distance(head: nat, tail: nat, k: nat): int {
    if head >= tail then head - tail else k - tail + head
  }

  lemma DistanceOf(a: nat, p: nat, k: nat)
    requires k > 0 && p <= a < p + k
    ensures Distance(Pos(a, k), Pos(p, k), k) == a - p
  {
    Ahead(p, a - p, k);
  }

  /** Different counts less than a lap apart are different slots. */
  lemma Distinct(p: nat, a: nat, k: nat)
    requires k > 0 && p < a < p + k
    ensures Pos(p, k) != Pos(a, k)
  {
    Ahead(p, a - p, k);
  }

  /** `n` items of the ring, from `tail` on. */
  function Items<T>(slots: seq<T>, tail: nat, n: nat): (r: seq<T>)
    requires tail < |slots|
    ensures |r| == n
    decreases n
  {
    if n == 0 then [] else [slots[tail]] + Items(slots, Next(tail, |slots|), n - 1)
  }

  /** Reading the ring from count `p` returns what was stored at counts `p`, `p + 1`, ... */
  lemma {:induction false} ItemsOf<T>(slots: seq<T>, p: nat, s: seq<T>)
    requires |slots| > 0
    requires forall i :: 0 <= i < |s| ==> slots[Pos(p + i, |slots|)] == s[i]
    ensures Items(slots, Pos(p, |slots|), |s|) == s
    decreases |s|
  {
    if s != [] {
      assert slots[Pos(p + 0, |slots|)] == s[0];
      forall i | 0 <= i < |s[1..]| ensures slots[Pos(p + 1 + i, |slots|)] == s[1..][i] {
        assert slots[Pos(p + (i + 1), |slots|)] == s[i + 1];
      }
      ItemsOf(slots, p + 1, s[1..]);
      assert s == [s[0]] + s[1..];
    }
  }
}
