/**
 * In-place LU factorisation with implicit row scaling and partial pivoting
 * (Crout / Numerical Recipes style) of an n x n matrix of reals.
 *
 * Each step of the factorisation is specified on a value of type
 * Factoring (the matrix as rows, the row scales, the permutation record and
 * the swap parity); the method is proved to leave A, permute and the parity
 * exactly as n such steps do.
 */
module LU {

  /** The value substituted for a pivot that is exactly zero. */
  const Epsilon: real := 0.000000000000001

  /** A matrix as a sequence of rows. */
  type Matrix = seq<seq<real>>

  predicate Square(m: Matrix, n: nat)
  {
    |m| == n && forall r :: 0 <= r < n ==> |m[r]| == n
  }

  function Abs(x: real): real
  {
    if x < 0.0 then -x else x
  }

  /**
   * The product of two reals, as one term of the specifications. Naming the
   * product keeps the solver from expanding non-linear real arithmetic in
   * every proof that mentions it.
   */
  function Mul(a: real, b: real): real
  {
    a * b
  }

  /**
   * The quotient of two reals: multiplying it back by the divisor gives the
   * dividend. Named for the same reason as Mul.
   */
  function Div(a: real, b: real): (r: real)
    requires b != 0.0
    ensures Mul(r, b) == a
  {
    a / b
  }

  /**
   * The row maximum the scaling loop finds: the largest absolute entry,
   * starting from 0.
   */
  function RowMax(row: seq<real>): (r: real)
    ensures r >= 0.0
    ensures forall c :: 0 <= c < |row| ==> Abs(row[c]) <= r
    ensures r == 0.0 || exists c :: 0 <= c < |row| && Abs(row[c]) == r
    ensures r == 0.0 <==> forall c :: 0 <= c < |row| ==> row[c] == 0.0
  {
    if |row| == 0 then 0.0
    else
      var m := RowMax(row[..|row| - 1]);
      var a := Abs(row[|row| - 1]);
      if a > m then a else m
  }

  /** No row of the matrix is entirely zero. */
  predicate NoZeroRow(m: Matrix)
  {
    forall r :: 0 <= r < |m| ==> RowMax(m[r]) != 0.0
  }

  /** The reciprocal of a positive number. */
  function Inverse(x: real): (y: real)
    requires x > 0.0
    ensures y > 0.0 && y * x == 1.0
  {
    1.0 / x
  }

  /** The implicit scaling of every row: the reciprocal of its maximum. */
  function Scales(m: Matrix): (s: seq<real>)
    requires NoZeroRow(m)
    ensures |s| == |m|
    ensures forall r :: 0 <= r < |m| ==> s[r] > 0.0
  {
    seq(|m|, r requires 0 <= r < |m| => Inverse(RowMax(m[r])))
  }

  /**
   * The index of the first maximum among keys[0..hi): it is no smaller than
   * any other key, and strictly larger than every key before it.
   */
  function FirstArgMax(keys: seq<real>, hi: nat): (p: nat)
    requires 0 < hi <= |keys|
    ensures p < hi
    ensures forall r :: 0 <= r < hi ==> keys[r] <= keys[p]
    ensures forall r :: 0 <= r < p ==> keys[r] < keys[p]
  {
    if hi == 1 then 0
    else
      var p := FirstArgMax(keys, hi - 1);
      if keys[hi - 1] > keys[p] then hi - 1 else p
  }

  /** The pivot criterion of a row in column loop: its scale times the absolute entry. */
  function Key(m: Matrix, scale: seq<real>, loop: nat, row: nat): real
    requires Square(m, |m|) && |scale| == |m| && loop < |m| && row < |m|
  {
    Mul(scale[row], Abs(m[row][loop]))
  }

  function Keys(m: Matrix, scale: seq<real>, loop: nat): (k: seq<real>)
    requires Square(m, |m|) && |scale| == |m| && loop < |m|
    ensures |k| == |m| - loop
  {
    seq(|m| - loop, q requires 0 <= q < |m| - loop => Key(m, scale, loop, loop + q))
  }

  /**
   * The pivot row of column loop: among rows loop..n-1 it maximises the
   * key, and the first maximum wins.
   */
  function PivotRow(m: Matrix, scale: seq<real>, loop: nat): (p: nat)
    requires Square(m, |m|) && |scale| == |m| && loop < |m|
    ensures loop <= p < |m|
    ensures forall r :: loop <= r < |m| ==> Key(m, scale, loop, r) <= Key(m, scale, loop, p)
    ensures forall r :: loop <= r < p ==> Key(m, scale, loop, r) < Key(m, scale, loop, p)
  {
    var keys := Keys(m, scale, loop);
    var q := FirstArgMax(keys, |m| - loop);
    assert forall r :: loop <= r < |m| ==> keys[r - loop] == Key(m, scale, loop, r);
    loop + q
  }

  /** The matrix with rows a and b exchanged. */
  function Swapped(m: Matrix, a: nat, b: nat): (r: Matrix)
    requires a < |m| && b < |m|
    ensures |r| == |m| && r[a] == m[b] && r[b] == m[a]
    ensures forall q :: 0 <= q < |m| && q != a && q != b ==> r[q] == m[q]
  {
    m[a := m[b]][b := m[a]]
  }

  /** Exchanging the same two rows twice gives the matrix back. */
  lemma {:induction false} SwappedTwice(m: Matrix, a: nat, b: nat)
    requires a < |m| && b < |m|
    ensures Swapped(Swapped(m, a, b), a, b) == m
  {
    var s := Swapped(Swapped(m, a, b), a, b);
    assert forall q :: 0 <= q < |m| ==> s[q] == m[q];
  }

  /** The matrix with a zero pivot at (loop, loop) replaced by Epsilon. */
  function FixPivot(m: Matrix, loop: nat): (r: Matrix)
    requires Square(m, |m|) && loop < |m|
    ensures Square(r, |m|) && r[loop][loop] != 0.0
    ensures m[loop][loop] != 0.0 ==> r == m
    ensures forall q :: 0 <= q < |m| && q != loop ==> r[q] == m[q]
    ensures forall q, c :: 0 <= q < |m| && 0 <= c < |m| && (q != loop || c != loop) ==> r[q][c] == m[q][c]
  {
    if m[loop][loop] == 0.0 then m[loop := m[loop][loop := Epsilon]] else m
  }

  function EliminatedEntry(m: Matrix, loop: nat, q: nat, c: nat): real
    requires Square(m, |m|) && loop < |m| && q < |m| && c < |m| && m[loop][loop] != 0.0
  {
    if q <= loop || c < loop then m[q][c]
    else if c == loop then Div(m[q][loop], m[loop][loop])
    else m[q][c] - Mul(Div(m[q][loop], m[loop][loop]), m[loop][c])
  }

  /**
   * One elimination step below the pivot (loop, loop): rows up to loop and
   * columns before loop are untouched.
   */
  function Eliminated(m: Matrix, loop: nat): (r: Matrix)
    requires Square(m, |m|) && loop < |m| && m[loop][loop] != 0.0
    ensures Square(r, |m|)
    ensures forall q :: 0 <= q <= loop ==> r[q] == m[q]
    ensures forall q, c :: loop < q < |m| && 0 <= c < loop ==> r[q][c] == m[q][c]
  {
    var r := seq(|m|, q requires 0 <= q < |m| => seq(|m|, c requires 0 <= c < |m| => EliminatedEntry(m, loop, q, c)));
    assert forall q :: 0 <= q <= loop ==> r[q] == m[q];
    r
  }

  /**
   * Elimination can be undone: below the pivot, column loop holds the row's
   * multiplier, which times the pivot gives back the old entry, and an
   * entry right of the pivot plus multiplier times pivot-row entry gives
   * back the old entry.
   */
  lemma {:induction false} EliminatedInverts(m: Matrix, loop: nat, q: nat, c: nat)
    requires Square(m, |m|) && loop < q < |m| && loop < c < |m| && m[loop][loop] != 0.0
    ensures var r := Eliminated(m, loop);
            && Mul(r[q][loop], m[loop][loop]) == m[q][loop]
            && r[q][c] + Mul(r[q][loop], m[loop][c]) == m[q][c]
  {
    var r := Eliminated(m, loop);
    assert r[q][loop] == EliminatedEntry(m, loop, q, loop);
    assert r[q][c] == EliminatedEntry(m, loop, q, c);
  }

  /** The state of a factorisation: matrix, row scales, permutation record, swap parity. */
  datatype Factoring = Factoring(m: Matrix, scale: seq<real>, permute: seq<int>, parity: int)

  predicate Shaped(st: Factoring, n: nat)
  {
    && Square(st.m, n) && |st.scale| == n && |st.permute| == n
    && (forall r :: 0 <= r < n ==> st.scale[r] > 0.0)
    && (st.parity == 1 || st.parity == -1)
  }

  /**
   * The first k columns are done: every recorded pivot row q < k lies in
   * [q, n) and every diagonal entry q < k is nonzero.
   */
  predicate Settled(st: Factoring, n: nat, k: nat)
    requires Shaped(st, n) && k <= n
  {
    forall q :: 0 <= q < k ==> q <= st.permute[q] < n && st.m[q][q] != 0.0
  }

  /** The state before the first column: the scales of the rows and parity 1. */
  function Start(m: Matrix, permute: seq<int>): (st: Factoring)
    requires Square(m, |m|) && |permute| == |m| && NoZeroRow(m)
    ensures Shaped(st, |m|)
  {
    Factoring(m, Scales(m), permute, 1)
  }

  /**
   * Column loop's matrix before elimination: the pivot row p swapped into
   * row loop (and row loop into row p), and a zero pivot replaced by Epsilon.
   */
  function Pivoted(st: Factoring, n: nat, loop: nat): (m: Matrix)
    requires Shaped(st, n) && loop < n
    ensures Square(m, n) && m[loop][loop] != 0.0
    ensures var p := PivotRow(st.m, st.scale, loop);
            && (forall q :: 0 <= q < loop ==> m[q] == st.m[q])
            && m[loop][loop] == (if st.m[p][loop] == 0.0 then Epsilon else st.m[p][loop])
            && (forall c :: 0 <= c < n && c != loop ==> m[loop][c] == st.m[p][c])
            && (forall q :: loop < q < n ==> m[q] == st.m[if q == p then loop else q])
  {
    var p := PivotRow(st.m, st.scale, loop);
    FixPivot(if p != loop then Swapped(st.m, loop, p) else st.m, loop)
  }

  /**
   * Column loop of the factorisation: pick the pivot row, swap it into
   * place carrying its scale and flipping the parity, record it, patch a
   * zero pivot, eliminate below it. Rows above loop and earlier permutation
   * entries stay as they were; the recorded row lies in [loop, n) and the
   * new pivot is not zero.
   */
  function Step(st: Factoring, n: nat, loop: nat): (r: Factoring)
    requires Shaped(st, n) && loop < n
    ensures Shaped(r, n)
    ensures forall q :: 0 <= q < loop ==> r.m[q] == st.m[q] && r.permute[q] == st.permute[q]
    ensures loop <= r.permute[loop] < n && r.m[loop][loop] != 0.0
  {
    var p := PivotRow(st.m, st.scale, loop);
    var scale := if p != loop then st.scale[p := st.scale[loop]] else st.scale;
    var parity := if p != loop then -st.parity else st.parity;
    Factoring(Eliminated(Pivoted(st, n, loop), loop), scale, st.permute[loop := p], parity)
  }

  /** A step keeps the columns already settled and settles its own. */
  lemma {:induction false} StepSettles(st: Factoring, n: nat, loop: nat)
    requires Shaped(st, n) && loop < n && Settled(st, n, loop)
    ensures Settled(Step(st, n, loop), n, loop + 1)
  {
    var r := Step(st, n, loop);
    forall q | 0 <= q < loop + 1
      ensures q <= r.permute[q] < n && r.m[q][q] != 0.0
    {
      if q < loop {
        assert r.m[q] == st.m[q] && r.permute[q] == st.permute[q];
      }
    }
  }

  /** The state after columns 0..k-1. */
  function Steps(st: Factoring, n: nat, k: nat): (r: Factoring)
    requires Shaped(st, n) && k <= n
    ensures Shaped(r, n)
  {
    if k == 0 then st else Step(Steps(st, n, k - 1), n, k - 1)
  }

  /** After k columns the first k are settled: later columns never touch them. */
  lemma {:induction false} StepsSettled(st: Factoring, n: nat, k: nat)
    requires Shaped(st, n) && k <= n
    ensures Settled(Steps(st, n, k), n, k)
  {
    if k > 0 {
      StepsSettled(st, n, k - 1);
      StepSettles(Steps(st, n, k - 1), n, k - 1);
    }
  }

  /**
   * The swap of column loop exchanges whole rows: the pivot row p moves to
   * row loop, row loop moves to row p (seen in the columns elimination
   * leaves alone), each row keeps its own scale, and the parity flips
   * exactly when p differs from loop.
   */
  lemma {:induction false} StepSwap(st: Factoring, n: nat, loop: nat)
    requires Shaped(st, n) && loop < n
    ensures var r := Step(st, n, loop);
            var p := r.permute[loop];
            && p == PivotRow(st.m, st.scale, loop)
            && r.m[loop][loop] == (if st.m[p][loop] == 0.0 then Epsilon else st.m[p][loop])
            && (forall c :: 0 <= c < n && c != loop ==> r.m[loop][c] == st.m[p][c])
            && (forall q, c :: loop < q < n && 0 <= c < loop ==> r.m[q][c] == st.m[if q == p then loop else q][c])
            && (forall q :: loop < q < n ==> r.scale[q] == st.scale[if q == p then loop else q])
            && r.parity == (if p != loop then -st.parity else st.parity)
  {
    var pm := Pivoted(st, n, loop);
    assert Step(st, n, loop).m == Eliminated(pm, loop);
  }

  /**
   * Elimination of column loop, seen from the rows before the step: below
   * the pivot, row q holds the multiplier of the row swapped into it, which
   * times the pivot gives back that row's entry in column loop, and right of
   * the pivot its entry plus multiplier times pivot-row entry gives back
   * that row's entry.
   */
  lemma {:induction false} StepMultipliers(st: Factoring, n: nat, loop: nat, q: nat, c: nat)
    requires Shaped(st, n) && loop < q < n && loop < c < n
    ensures var r := Step(st, n, loop);
            var src := if q == r.permute[loop] then loop else q;
            && Mul(r.m[q][loop], r.m[loop][loop]) == st.m[src][loop]
            && r.m[q][c] + Mul(r.m[q][loop], r.m[loop][c]) == st.m[src][c]
  {
    var p := PivotRow(st.m, st.scale, loop);
    var pm := Pivoted(st, n, loop);
    var r := Step(st, n, loop);
    var e := Eliminated(pm, loop);
    assert r.m == e && r.permute[loop] == p;
    EliminatedInverts(pm, loop, q, c);
    var src := if q == p then loop else q;
    assert pm[q] == st.m[src];
    assert e[loop] == pm[loop];
    var mult, piv, right := e[q][loop], pm[loop][loop], pm[loop][c];
    assert r.m[q][loop] == mult && r.m[loop][loop] == piv && r.m[loop][c] == right;
    assert Mul(mult, piv) == st.m[src][loop];
    assert e[q][c] + Mul(mult, right) == st.m[src][c];
  }

  // ---------------------------------------------------------------------------
  // The in-place algorithm.

  /** The rows of a two-dimensional array. */
  ghost function Rows(A: array2<real>): (m: Matrix)
    reads A
    ensures |m| == A.Length0 && forall r :: 0 <= r < |m| ==> |m[r]| == A.Length1
  {
    seq(A.Length0, r requires 0 <= r < A.Length0 reads A =>
      seq(A.Length1, c requires 0 <= c < A.Length1 reads A => A[r, c]))
  }

  lemma RowsEqual(A: array2<real>, m: Matrix)
    requires |m| == A.Length0 && forall r :: 0 <= r < |m| ==> |m[r]| == A.Length1
    requires forall r, c :: 0 <= r < A.Length0 && 0 <= c < A.Length1 ==> A[r, c] == m[r][c]
    ensures Rows(A) == m
  {
    assert forall r :: 0 <= r < |m| ==> Rows(A)[r] == m[r];
  }

  /** The running maximum over one more entry of a row. */
  lemma RowMaxExtend(row: seq<real>, col: nat)
    requires col < |row|
    ensures RowMax(row[..col + 1]) == (if Abs(row[col]) > RowMax(row[..col]) then Abs(row[col]) else RowMax(row[..col]))
  {
    assert row[..col + 1][..col] == row[..col];
  }

  /** The scaling loop's maximum of one row. */
  method RowMaximum(A: array2<real>, n: nat, row: nat) returns (maximum: real)
    requires A.Length0 == n && A.Length1 == n && row < n
    ensures maximum == RowMax(Rows(A)[row])
  {
    ghost var whole := Rows(A)[row];
    maximum := 0.0;
    var col := 0;
    while col < n
      invariant 0 <= col <= n
      invariant maximum == RowMax(whole[..col])
    {
      var temp := Abs(A[row, col]);
      RowMaxExtend(whole, col);
      if temp > maximum {
        maximum := temp;
      }
      col := col + 1;
    }
    assert whole[..n] == whole;
  }

  /**
   * One step of a running maximum that starts from 0 and keeps the first
   * row attaining it: over non-negative keys it tracks FirstArgMax.
   */
  lemma {:induction false} ArgMaxStep(keys: seq<real>, h: nat, best: nat, maximum: real)
    requires h < |keys| && forall q :: 0 <= q < |keys| ==> keys[q] >= 0.0
    requires h == 0 ==> maximum == 0.0 && best == 0
    requires h > 0 ==> best == FirstArgMax(keys, h) && maximum == keys[best]
    ensures var best' := if keys[h] > maximum then h else best;
            best' == FirstArgMax(keys, h + 1) && keys[best'] == (if keys[h] > maximum then keys[h] else maximum)
  {
  }

  /** The pivot keys of a column are not negative when the scales are positive. */
  lemma {:induction false} KeysNonNegative(m: Matrix, scale: seq<real>, loop: nat)
    requires Square(m, |m|) && |scale| == |m| && loop < |m| && forall r :: 0 <= r < |m| ==> scale[r] > 0.0
    ensures forall q :: 0 <= q < |m| - loop ==> Keys(m, scale, loop)[q] >= 0.0
  {
    forall q | 0 <= q < |m| - loop
      ensures Keys(m, scale, loop)[q] >= 0.0
    {
      var a := Abs(m[loop + q][loop]);
      assert Keys(m, scale, loop)[q] == Key(m, scale, loop, loop + q) == Mul(scale[loop + q], a);
      assert a >= 0.0;
    }
  }

  /** The pivot key of one row, read off the array. */
  lemma KeyOfRow(A: array2<real>, n: nat, scale: array<real>, loop: nat, row: nat)
    requires A.Length0 == n && A.Length1 == n && scale.Length == n && loop <= row < n
    ensures Keys(Rows(A), scale[..], loop)[row - loop] == scale[row] * Abs(A[row, loop])
  {
    assert Keys(Rows(A), scale[..], loop)[row - loop] == Key(Rows(A), scale[..], loop, row);
    assert Rows(A)[row][loop] == A[row, loop];
  }

  /** The pivot search of column loop over rows loop..n-1. */
  method SearchPivot(A: array2<real>, n: nat, scale: array<real>, loop: nat) returns (rowMax: nat)
    requires A.Length0 == n && A.Length1 == n && scale.Length == n && loop < n
    requires forall r :: 0 <= r < n ==> scale[r] > 0.0
    ensures rowMax == PivotRow(Rows(A), scale[..], loop)
  {
    ghost var keys := Keys(Rows(A), scale[..], loop);
    KeysNonNegative(Rows(A), scale[..], loop);
    var maximum := 0.0;
    rowMax := loop;
    var row := loop;
    while row < n
      invariant loop <= row <= n && loop <= rowMax < n
      invariant row == loop ==> maximum == 0.0 && rowMax == loop
      invariant row > loop ==> rowMax - loop == FirstArgMax(keys, row - loop) && maximum == keys[rowMax - loop]
    {
      KeyOfRow(A, n, scale, loop, row);
      rowMax, maximum := ConsiderRow(A, n, scale, loop, row, rowMax, maximum, keys);
      row := row + 1;
    }
  }

  /**
   * One step of the pivot search: row replaces the best row so far when its
   * key, keys[row - loop], is larger.
   */
  method ConsiderRow(A: array2<real>, n: nat, scale: array<real>, loop: nat, row: nat, rowMax: nat, maximum: real,
                     ghost keys: seq<real>)
    returns (rowMax': nat, maximum': real)
    requires A.Length0 == n && A.Length1 == n && scale.Length == n && loop <= row < n && |keys| == n - loop
    requires forall q :: 0 <= q < n - loop ==> keys[q] >= 0.0
    requires keys[row - loop] == scale[row] * Abs(A[row, loop])
    requires row == loop ==> maximum == 0.0 && rowMax == loop
    requires row > loop ==> loop <= rowMax && rowMax - loop == FirstArgMax(keys, row - loop) && maximum == keys[rowMax - loop]
    ensures loop <= rowMax' < n
    ensures rowMax' - loop == FirstArgMax(keys, row + 1 - loop) && maximum' == keys[rowMax' - loop]
  {
    var temp := scale[row] * Abs(A[row, loop]);
    ArgMaxStep(keys, row - loop, rowMax - loop, maximum);
    rowMax', maximum' := rowMax, maximum;
    if temp > maximum {
      maximum' := temp;
      rowMax' := row;
    }
  }

  /** Exchanges rows a and b column by column. */
  method SwapRows(A: array2<real>, n: nat, a: nat, b: nat)
    requires A.Length0 == n && A.Length1 == n && a < n && b < n
    modifies A
    ensures Rows(A) == Swapped(old(Rows(A)), a, b)
  {
    ghost var m0 := Rows(A);
    ghost var s := Swapped(m0, a, b);
    var col := 0;
    while col < n
      invariant 0 <= col <= n
      invariant forall r, c :: 0 <= r < n && 0 <= c < n ==> A[r, c] == if c < col then s[r][c] else m0[r][c]
    {
      var temp := A[b, col];
      A[b, col] := A[a, col];
      A[a, col] := temp;
      col := col + 1;
    }
    RowsEqual(A, s);
  }

  /** Stores the multipliers below the pivot (loop, loop) and updates the rows beneath it. */
  method EliminateBelow(A: array2<real>, n: nat, loop: nat)
    requires A.Length0 == n && A.Length1 == n && loop < n && A[loop, loop] != 0.0
    modifies A
    ensures Rows(A) == Eliminated(old(Rows(A)), loop)
  {
    ghost var m0 := Rows(A);
    ghost var e := Eliminated(m0, loop);
    var row := loop + 1;
    while row < n
      invariant loop + 1 <= row <= n
      invariant forall r, c :: 0 <= r < n && 0 <= c < n ==> A[r, c] == if r < row then e[r][c] else m0[r][c]
    {
      EliminateRow(A, n, loop, row, m0);
      row := row + 1;
    }
    RowsEqual(A, e);
  }

  /** One row of the elimination below the pivot (loop, loop). */
  method EliminateRow(A: array2<real>, n: nat, loop: nat, row: nat, ghost m0: Matrix)
    requires A.Length0 == n && A.Length1 == n && loop < row < n && Square(m0, n) && m0[loop][loop] != 0.0
    requires forall r, c :: 0 <= r < n && 0 <= c < n ==>
               A[r, c] == if r < row then Eliminated(m0, loop)[r][c] else m0[r][c]
    modifies A
    ensures forall r, c :: 0 <= r < n && 0 <= c < n ==>
              A[r, c] == if r <= row then Eliminated(m0, loop)[r][c] else m0[r][c]
  {
    ghost var e := Eliminated(m0, loop);
    assert e[row][loop] == EliminatedEntry(m0, loop, row, loop);
    A[row, loop] := A[row, loop] / A[loop, loop];
    var col := loop + 1;
    while col < n
      invariant loop + 1 <= col <= n
      invariant forall r, c :: 0 <= r < n && 0 <= c < n ==>
                  A[r, c] == if r < row || (r == row && loop <= c < col) then e[r][c] else m0[r][c]
    {
      assert e[row][col] == EliminatedEntry(m0, loop, row, col);
      A[row, col] := A[row, col] - A[row, loop] * A[loop, col];
      col := col + 1;
    }
  }

  /**
   * First half of the column loop, in place: pivot search, row swap with
   * scale and parity update, permutation record and zero-pivot patch.
   */
  method PivotColumn(A: array2<real>, n: nat, scale: array<real>, permute: array<int>, loop: nat, flag: int,
                     ghost st: Factoring) returns (newFlag: int)
    requires A.Length0 == n && A.Length1 == n && scale.Length == n && permute.Length == n && loop < n
    requires Shaped(st, n) && Rows(A) == st.m && scale[..] == st.scale && permute[..] == st.permute && flag == st.parity
    modifies A, scale, permute
    ensures var r := Step(st, n, loop);
            Rows(A) == Pivoted(st, n, loop) && scale[..] == r.scale && permute[..] == r.permute && newFlag == r.parity
  {
    newFlag := flag;
    var rowMax := SearchPivot(A, n, scale, loop);
    if loop != rowMax {
      SwapRows(A, n, loop, rowMax);
      newFlag := -newFlag;
      scale[rowMax] := scale[loop];
    }
    permute[loop] := rowMax;
    PatchPivot(A, n, loop);
  }

  /** Replaces an exactly zero pivot (loop, loop) by Epsilon. */
  method PatchPivot(A: array2<real>, n: nat, loop: nat)
    requires A.Length0 == n && A.Length1 == n && loop < n
    modifies A
    ensures Rows(A) == FixPivot(old(Rows(A)), loop)
  {
    ghost var m0 := Rows(A);
    if A[loop, loop] == 0.0 {
      A[loop, loop] := Epsilon;
    }
    RowsEqual(A, FixPivot(m0, loop));
  }

  /** Column loop of the factorisation, in place: the body of the main loop. */
  method FactorColumn(A: array2<real>, n: nat, scale: array<real>, permute: array<int>, loop: nat, flag: int,
                      ghost st: Factoring) returns (newFlag: int)
    requires A.Length0 == n && A.Length1 == n && scale.Length == n && permute.Length == n && loop < n
    requires Shaped(st, n) && Rows(A) == st.m && scale[..] == st.scale && permute[..] == st.permute && flag == st.parity
    modifies A, scale, permute
    ensures var r := Step(st, n, loop);
            Rows(A) == r.m && scale[..] == r.scale && permute[..] == r.permute && newFlag == r.parity
  {
    newFlag := PivotColumn(A, n, scale, permute, loop, flag, st);
    EliminateBelow(A, n, loop);
  }

  /**
   * The main loop of the factorisation: the n column steps from st0, after
   * which every permute[q] lies in [q, n) and the diagonal has no zero.
   */
  method FactorColumns(A: array2<real>, n: nat, scale: array<real>, permute: array<int>, ghost st0: Factoring)
    returns (flag: int)
    requires A.Length0 == n && A.Length1 == n && scale.Length == n && permute.Length == n
    requires Shaped(st0, n) && st0.parity == 1
    requires Rows(A) == st0.m && scale[..] == st0.scale && permute[..] == st0.permute
    modifies A, scale, permute
    ensures var st := Steps(st0, n, n);
            Rows(A) == st.m && permute[..] == st.permute && flag == st.parity
    ensures forall q :: 0 <= q < n ==> q <= permute[q] < n && A[q, q] != 0.0
  {
    flag := 1;
    var loop := 0;
    ghost var cur := st0;
    while loop < n
      invariant 0 <= loop <= n && Shaped(cur, n) && cur == Steps(st0, n, loop)
      invariant Rows(A) == cur.m && scale[..] == cur.scale && permute[..] == cur.permute && flag == cur.parity
    {
      flag := FactorColumn(A, n, scale, permute, loop, flag, cur);
      cur := Step(cur, n, loop);
      loop := loop + 1;
    }
    StepsSettled(st0, n, n);
    SettledDiagonal(A, n, Steps(st0, n, n));
  }

  /** A settled factoring held in A has no zero on A's diagonal. */
  lemma SettledDiagonal(A: array2<real>, n: nat, st: Factoring)
    requires A.Length0 == n && A.Length1 == n && Shaped(st, n) && Settled(st, n, n) && Rows(A) == st.m
    ensures forall q :: 0 <= q < n ==> q <= st.permute[q] < n && A[q, q] != 0.0
  {
    forall q | 0 <= q < n
      ensures A[q, q] != 0.0
    {
      assert A[q, q] == Rows(A)[q][q];
    }
  }

  /**
   * The scaling loop: a row whose maximum is zero is the fatal error;
   * otherwise every scale is the reciprocal of its row's maximum.
   */
  method RowScales(A: array2<real>, n: nat, scale: array<real>) returns (singular: bool)
    requires A.Length0 == n && A.Length1 == n && scale.Length == n
    modifies scale
    ensures singular <==> !NoZeroRow(Rows(A))
    ensures !singular ==> scale[..] == Scales(Rows(A))
  {
    ghost var m := Rows(A);
    var row := 0;
    while row < n
      invariant 0 <= row <= n
      invariant forall r :: 0 <= r < row ==> RowMax(m[r]) != 0.0 && scale[r] == Inverse(RowMax(m[r]))
    {
      var maximum := RowMaximum(A, n, row);
      if maximum == 0.0 {
        return true;
      }
      scale[row] := Inverse(maximum);
      row := row + 1;
    }
    return false;
  }

  /** The outcome of the factorisation: the swap parity, or the fatal singular-matrix error. */
  datatype Outcome = Factored(parity: int) | Singular

  /**
   * Factorises A in place. A matrix with a zero row is the fatal error, and
   * then nothing has been written. Otherwise A, permute and the parity are
   * those of the n column steps, every permute[q] lies in [q, n) and the
   * diagonal of the result has no zero.
   */
  method LUFactorization(A: array2<real>, n: nat, permute: array<int>) returns (outcome: Outcome)
    requires A.Length0 == n && A.Length1 == n && permute.Length == n
    modifies A, permute
    ensures outcome.Singular? <==> !NoZeroRow(old(Rows(A)))
    ensures outcome.Singular? ==> Rows(A) == old(Rows(A)) && permute[..] == old(permute[..])
    ensures outcome.Factored? ==>
              var st := Steps(Start(old(Rows(A)), old(permute[..])), n, n);
              Rows(A) == st.m && permute[..] == st.permute && outcome.parity == st.parity
    ensures outcome.Factored? ==> forall q :: 0 <= q < n ==> q <= permute[q] < n && A[q, q] != 0.0
  {
    ghost var m0 := Rows(A);
    ghost var p0 := permute[..];
    var scale := new real[n];
    var singular := RowScales(A, n, scale);
    if singular {
      return Singular;
    }
    ghost var st0 := Start(m0, p0);
    var flag := FactorColumns(A, n, scale, permute, st0);
    outcome := Factored(flag);
  }
}
