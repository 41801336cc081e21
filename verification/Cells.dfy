/** Strictly increasing numberings of the integers into consecutive cells `[f(k), f(k + 1))`, and
    the repeated application of a function that steps from one cell start to the next. */
module Cells {

  predicate Steps(f: int -> int, k: int) { f(k) < f(k + 1) }

  ghost predicate Increasing(f: int -> int) {
    forall k :: Steps(f, k)
  }

  function Distance(f: int -> int, n: int, k: int): nat {
    if n < f(k) then f(k) - n else if f(k + 1) <= n then n - f(k + 1) + 1 else 0
  }

  /** The cell of `n`, searched from cell `k`. */
  function Search(f: int -> int, n: int, k: int): (r: int)
    requires Increasing(f)
    ensures f(r) <= n < f(r + 1)
    decreases Distance(f, n, k)
  {
    if n < f(k) then
      assert Steps(f, k - 1);
      Search(f, n, k - 1)
    else if f(k + 1) <= n then
      assert Steps(f, k + 1);
      Search(f, n, k + 1)
    else k
  }

  function CellOf(f: int -> int, n: int): (k: int)
    requires Increasing(f)
    ensures f(k) <= n < f(k + 1)
  {
    Search(f, n, 0)
  }

  lemma {:induction false} Order(f: int -> int, j: int, k: int)
    requires Increasing(f) && j < k
    ensures f(j) < f(j + 1) <= f(k)
    decreases k - j
  {
    assert Steps(f, j);
    if j + 1 < k {
      Order(f, j + 1, k);
    }
  }

  lemma Unique(f: int -> int, n: int, j: int, k: int)
    requires Increasing(f)
    requires f(j) <= n < f(j + 1) && f(k) <= n < f(k + 1)
    ensures j == k
  {
    if j < k {
      Order(f, j, k);
    } else if k < j {
      Order(f, k, j);
    }
  }

  /** The start of the first cell after `n` is the least start after `n`. */
  lemma NextIsLeastStart(f: int -> int, n: int, k: int, j: int)
    requires Increasing(f) && f(k) <= n < f(k + 1)
    ensures n < f(j) <==> k < j
    ensures k < j ==> f(k + 1) <= f(j)
  {
    if j < k {
      Order(f, j, k);
    } else if k + 1 < j {
      Order(f, k + 1, j);
    }
  }

  // ---- Stepping ----

  function Iterate(next: int -> int, from: int, k: nat): int {
    if k == 0 then from else next(Iterate(next, from, k - 1))
  }

  ghost predicate MovesOn(next: int -> int) {
    forall n :: n < next(n)
  }

  lemma {:induction false} IteratesInOrder(next: int -> int, from: int, j: nat, k: nat)
    requires MovesOn(next) && j < k
    ensures Iterate(next, from, j) < Iterate(next, from, k)
  {
    if j + 1 < k {
      IteratesInOrder(next, from, j, k - 1);
    }
  }

  lemma {:induction false} IterateShift(next: int -> int, from: int, k: nat)
    ensures Iterate(next, next(from), k) == Iterate(next, from, k + 1)
  {
    if k > 0 {
      IterateShift(next, from, k - 1);
    }
  }

  /** `next` leads from any point to the start of the cell after it. */
  ghost predicate Advances(f: int -> int, next: int -> int) {
    forall n :: AdvancesFrom(f, next, n)
  }

  ghost predicate AdvancesFrom(f: int -> int, next: int -> int, n: int) {
    exists k :: f(k) <= n < f(k + 1) && next(n) == f(k + 1)
  }

  /** `t` is iterate number `i + 1`, the first being `next(from)`. */
  predicate Reached(next: int -> int, from: int, i: nat, t: int) { t == Iterate(next, from, i + 1) }

  lemma {:induction false} IterateIsStart(f: int -> int, next: int -> int, from: int, k: int, i: nat)
    requires Increasing(f) && Advances(f, next)
    requires f(k) <= from < f(k + 1)
    ensures Iterate(next, from, i + 1) == f(k + i + 1)
  {
    var n := Iterate(next, from, i);
    if i > 0 {
      IterateIsStart(f, next, from, k, i - 1);
      assert Steps(f, k + i);
    }
    assert AdvancesFrom(f, next, n);
    var j :| f(j) <= n < f(j + 1) && next(n) == f(j + 1);
    Unique(f, n, j, k + i);
  }

  /** Iterating enumerates: the iterates come in strict order, and are exactly the starts after
      `from`. */
  lemma IterateEnumerates(f: int -> int, next: int -> int, from: int, t: int, i: nat)
    requires Increasing(f) && Advances(f, next)
    ensures Iterate(next, from, i + 1) < Iterate(next, from, i + 2)
    ensures (exists n: nat :: Reached(next, from, n, t)) <==> from < t && exists j :: t == f(j)
  {
    var k := CellOf(f, from);
    IterateIsStart(f, next, from, k, i);
    IterateIsStart(f, next, from, k, i + 1);
    assert Steps(f, k + i + 1);
    if n: nat :| Reached(next, from, n, t) {
      IterateIsStart(f, next, from, k, n);
      NextIsLeastStart(f, from, k, k + n + 1);
    }
    if j :| from < t && t == f(j) {
      NextIsLeastStart(f, from, k, j);
      IterateIsStart(f, next, from, k, j - k - 1);
      assert Reached(next, from, j - k - 1, t);
    }
  }
}
