/** The memoised integer square root: a table from n to floor(sqrt(n)) that is
    extended one square at a time until it covers the query. */
module IntSqrt {
  import opened JsValues

  /** floor(sqrt(x)), found by counting up from sqrt(0) == 0. */
  function FloorSqrt(x: nat): (r: nat)
    ensures r * r <= x < (r + 1) * (r + 1)
  {
    if x == 0 then 0
    else
      var s := FloorSqrt(x - 1);
      assert (s + 2) * (s + 2) == (s + 1) * (s + 1) + 2 * s + 3;
      if (s + 1) * (s + 1) <= x then s + 1 else s
  }

  lemma SquareMonotone(a: nat, b: nat)
    requires a <= b
    ensures a * a <= b * b
  {
    assert a * a <= a * b;
    assert a * b <= b * b;
  }

  /** The bound r*r <= x < (r+1)*(r+1) determines r: whatever satisfies it is FloorSqrt(x). */
  lemma FloorSqrtUnique(r: nat, x: nat)
    requires r * r <= x < (r + 1) * (r + 1)
    ensures FloorSqrt(x) == r
  {
    var s := FloorSqrt(x);
    if s < r {
      SquareMonotone(s + 1, r);
    } else if r < s {
      SquareMonotone(r + 1, s);
    }
  }

  /** Every x with k*k <= x < (k+1)*(k+1) has floor(sqrt(x)) == k. */
  lemma FloorSqrtRow(k: nat, lo: int, hi: int)
    requires lo == k * k && hi == (k + 1) * (k + 1)
    ensures lo < hi
    ensures forall x :: lo <= x < hi ==> FloorSqrt(x) == k
  {
    SquareMonotone(k, k + 1);
    forall x | lo <= x < hi
      ensures FloorSqrt(x) == k
    {
      FloorSqrtUnique(k, x);
    }
  }

  lemma FloorSqrtOfSquare(k: nat)
    ensures FloorSqrt(k * k) == k
  {
    FloorSqrtRow(k, k * k, (k + 1) * (k + 1));
  }

  lemma FloorSqrtMonotone(a: nat, b: nat)
    requires a <= b
    ensures FloorSqrt(a) <= FloorSqrt(b)
  {
    var fa, fb := FloorSqrt(a), FloorSqrt(b);
    if fb < fa {
      SquareMonotone(fb + 1, fa);
    }
  }

  /** t maps exactly the n in [0, m] to floor(sqrt(n)). */
  ghost predicate SqrtTable(t: map<int, int>, m: int) {
    (forall i :: 0 <= i <= m ==> i in t && t[i] == FloorSqrt(i)) &&
    (forall i :: i in t ==> 0 <= i <= m)
  }

  /** Entering (k+1)^2 and filling [k^2, (k+1)^2) with k extends a table that is
      exact up to k^2 to one exact up to (k+1)^2. */
  lemma RowAdded(t0: map<int, int>, t: map<int, int>, k: nat, lo: int, hi: int)
    requires lo == k * k && hi == (k + 1) * (k + 1) && SqrtTable(t0, lo)
    requires forall i :: i in t <==> i in t0[hi := k + 1] || lo <= i < hi
    requires forall i :: i in t ==> t[i] == if lo <= i < hi then k else t0[hi := k + 1][i]
    ensures SqrtTable(t, hi)
    ensures forall i :: i in t0 ==> i in t && t[i] == t0[i]
  {
    FloorSqrtRow(k, lo, hi);
    FloorSqrtOfSquare(k + 1);
    RowEntered(t0, t, k, lo, hi);
  }

  /** RowAdded, given the values floor(sqrt) takes on the new row and at its end. */
  lemma RowEntered(t0: map<int, int>, t: map<int, int>, k: int, lo: int, hi: int)
    requires 0 <= lo < hi && SqrtTable(t0, lo)
    requires forall x :: lo <= x < hi ==> FloorSqrt(x) == k
    requires FloorSqrt(hi) == k + 1
    requires forall i :: i in t <==> i in t0[hi := k + 1] || lo <= i < hi
    requires forall i :: i in t ==> t[i] == if lo <= i < hi then k else t0[hi := k + 1][i]
    ensures SqrtTable(t, hi)
    ensures forall i :: i in t0 ==> i in t && t[i] == t0[i]
  {
    forall i | 0 <= i <= hi
      ensures i in t && t[i] == FloorSqrt(i)
    {
      if i < lo {
        assert i in t0;
      }
    }
  }

  /** The closure behind `isqrt`: `table` maps every n in [0, n2] to floor(sqrt(n)),
      and n2 == n1 * n1 is the largest square entered so far. */
  class MemoSqrt {
    var table: map<int, int>
    var n1: int
    var n2: int

    ghost predicate Valid()
      reads this
    {
      0 <= n1 && n2 == n1 * n1 && SqrtTable(table, n2)
    }

    constructor ()
      ensures Valid()
      ensures table == map[0 := 0] && n1 == 0 && n2 == 0
    {
      table := map[0 := 0];
      n1 := 0;
      n2 := 0;
    }

    /** The inner loop of one extension round: every i in [lo, hi) now maps to n1. */
    method FillRow(lo: int, hi: int)
      modifies this
      ensures n1 == old(n1) && n2 == old(n2)
      ensures forall i :: i in table <==> i in old(table) || lo <= i < hi
      ensures forall i :: i in table ==> table[i] == if lo <= i < hi then n1 else old(table)[i]
    {
      if hi < lo {
        return;
      }
      for i := lo to hi
        invariant n1 == old(n1) && n2 == old(n2)
        invariant forall j :: j in table <==> j in old(table) || lo <= j < i
        invariant forall j :: j in table ==> table[j] == if lo <= j < i then n1 else old(table)[j]
      {
        table := table[i := n1];
      }
    }

    /** One round of the extension loop: enter the next square (n1 + 1)^2, fill
        the row [n2, (n1 + 1)^2) with n1, and move both high-water marks up. */
    method AddSquare()
      requires Valid()
      modifies this
      ensures Valid()
      ensures n1 == old(n1) + 1 && n2 == n1 * n1 && old(n2) < n2
      ensures forall i :: i in old(table) ==> i in table && table[i] == old(table)[i]
    {
      ghost var before := table;
      var sq := (n1 + 1) * (n1 + 1);
      table := table[sq := n1 + 1];
      FillRow(n2, sq);
      RowAdded(before, table, n1, n2, sq);
      n1 := n1 + 1;
      n2 := sq;
    }

    /** isqrt(x2): rejects anything but a nonnegative BigInt before touching the
        table; otherwise extends the table square by square and looks x2 up. */
    method Query(x2: JsValue) returns (r: Result<int>)
      requires Valid()
      modifies this
      ensures Valid()
      ensures !(x2.BigInt? && x2.big >= 0) ==>
                r == Err(NonNegativeExpected) && table == old(table) && n1 == old(n1) && n2 == old(n2)
      ensures x2.BigInt? && x2.big >= 0 ==>
                && r == Ok(FloorSqrt(x2.big))
                && r.value * r.value <= x2.big < (r.value + 1) * (r.value + 1)
                && x2.big <= n2
                && (x2.big <= old(n2) ==> table == old(table) && n1 == old(n1) && n2 == old(n2))
                && (old(n2) < x2.big ==> (n1 - 1) * (n1 - 1) < x2.big)
      ensures old(n1) <= n1 && old(n2) <= n2
      ensures forall i :: i in old(table) ==> i in table && table[i] == old(table)[i]
    {
      if !(x2.BigInt? && x2.big >= 0) {
        return Err(NonNegativeExpected);
      }
      var x := x2.big;
      while n2 < x
        invariant Valid()
        invariant old(n1) <= n1 && old(n2) <= n2
        invariant forall i :: i in old(table) ==> i in table && table[i] == old(table)[i]
        invariant n2 == old(n2) ==> table == old(table) && n1 == old(n1)
        invariant n2 == old(n2) || (old(n2) < x && (n1 - 1) * (n1 - 1) < x)
        decreases x - n2
      {
        ghost var before := n2;
        AddSquare();
        assert (n1 - 1) * (n1 - 1) == before;
      }
      r := Ok(table[x]);
    }
  }
}
