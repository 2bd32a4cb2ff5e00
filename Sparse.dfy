/** The square compressed-column admittance matrix (Eigen's `SparseMatrix`
    in compressed mode) and the triplet list it is built from.
    Column c holds rows `ai[ap[c]..ap[c+1]]` with values `ax[ap[c]..ap[c+1]]`. */
module Sparse {
  import opened ComplexArith

  /** A pending zero-based (row, col, value) contribution. */
  datatype Triplet = Triplet(row: int, col: int, value: Complex)

  /** Column pointers, row indices and values of a compressed-column matrix. */
  datatype Csc = Csc(ap: seq<int>, ai: seq<int>, ax: seq<Complex>)

  predicate Increasing(s: seq<int>)
  {
    forall a, b :: 0 <= a < b < |s| ==> s[a] < s[b]
  }

  /** The array shapes of an n-by-n compressed-column matrix. */
  predicate Shape(m: Csc, n: nat)
  {
    && |m.ap| == n + 1 && m.ap[0] == 0 && m.ap[n] == |m.ai| && |m.ax| == |m.ai|
    && (forall c1, c2 :: 0 <= c1 <= c2 <= n ==> m.ap[c1] <= m.ap[c2])
    && (forall k :: 0 <= k < |m.ai| ==> 0 <= m.ai[k] < n)
  }

  function ColRows(m: Csc, n: nat, c: int): seq<int>
    requires Shape(m, n) && 0 <= c < n
  {
    m.ai[m.ap[c]..m.ap[c + 1]]
  }

  function ColVals(m: Csc, n: nat, c: int): seq<Complex>
    requires Shape(m, n) && 0 <= c < n
  {
    m.ax[m.ap[c]..m.ap[c + 1]]
  }

  /** Compressed form: the row indices of every column strictly increase. */
  predicate WellFormed(m: Csc, n: nat)
  {
    Shape(m, n) && forall c :: 0 <= c < n ==> Increasing(ColRows(m, n, c))
  }

  /** `SparseMatrix(n, n)`: n columns, no stored entries. */
  function Empty(n: nat): (m: Csc)
    ensures WellFormed(m, n) && |m.ai| == 0
    ensures forall r, c :: 0 <= r < n && 0 <= c < n ==> !Stored(m, n, r, c) && Coeff(m, n, r, c) == Zero
  {
    Csc(seq(n + 1, _ => 0), [], [])
  }

  /** The value stored for row r in one column, zero when r is absent. */
  function Lookup(rows: seq<int>, vals: seq<Complex>, r: int): Complex
    requires |rows| == |vals|
  {
    if rows == [] then Zero
    else if rows[0] == r then vals[0]
    else Lookup(rows[1..], vals[1..], r)
  }

  /** Eigen's `coeff(r, c)`: the stored value, or zero when (r, c) is not stored. */
  function Coeff(m: Csc, n: nat, r: int, c: int): Complex
    requires Shape(m, n) && 0 <= r < n && 0 <= c < n
  {
    Lookup(ColRows(m, n, c), ColVals(m, n, c), r)
  }

  /** (r, c) belongs to the stored pattern. */
  predicate Stored(m: Csc, n: nat, r: int, c: int)
    requires Shape(m, n) && 0 <= r < n && 0 <= c < n
  {
    r in ColRows(m, n, c)
  }

  lemma {:induction false} LookupAbsent(rows: seq<int>, vals: seq<Complex>, r: int)
    requires |rows| == |vals| && r !in rows
    ensures Lookup(rows, vals, r) == Zero
  {
    if rows != [] {
      LookupAbsent(rows[1..], vals[1..], r);
    }
  }

  lemma {:induction false} LookupAt(rows: seq<int>, vals: seq<Complex>, i: int)
    requires |rows| == |vals| && Increasing(rows) && 0 <= i < |rows|
    ensures Lookup(rows, vals, rows[i]) == vals[i]
  {
    if i > 0 {
      assert rows[0] < rows[i];
      LookupAt(rows[1..], vals[1..], i - 1);
    }
  }

  lemma {:induction false} LookupUpdate(rows: seq<int>, vals: seq<Complex>, i: int, x: Complex, r: int)
    requires |rows| == |vals| && Increasing(rows) && 0 <= i < |rows|
    ensures Lookup(rows, vals[i := x], r) == if r == rows[i] then x else Lookup(rows, vals, r)
  {
    if i > 0 {
      assert rows[0] < rows[i];
      assert vals[i := x][1..] == vals[1..][i - 1 := x];
      LookupUpdate(rows[1..], vals[1..], i - 1, x, r);
    }
  }

  lemma {:induction false} LookupInsert(rows: seq<int>, vals: seq<Complex>, i: int, r: int, x: Complex, q: int)
    requires |rows| == |vals| && 0 <= i <= |rows| && r !in rows
    ensures Lookup(rows[..i] + [r] + rows[i..], vals[..i] + [x] + vals[i..], q)
         == if q == r then x else Lookup(rows, vals, q)
  {
    if i == 0 {
      assert rows[..0] + [r] + rows[0..] == [r] + rows;
      assert vals[..0] + [x] + vals[0..] == [x] + vals;
      assert ([r] + rows)[1..] == rows;
      assert ([x] + vals)[1..] == vals;
    } else {
      assert (rows[..i] + [r] + rows[i..])[1..] == rows[1..][..i - 1] + [r] + rows[1..][i - 1..];
      assert (vals[..i] + [x] + vals[i..])[1..] == vals[1..][..i - 1] + [x] + vals[1..][i - 1..];
      LookupInsert(rows[1..], vals[1..], i - 1, r, x, q);
    }
  }

  /** The first index p in [lo, hi) with `a[p] >= x`, or hi: what
      `std::lower_bound` returns on a sorted range. */
  function FirstNotBelow(a: seq<int>, lo: int, hi: int, x: int): (p: int)
    requires 0 <= lo <= hi <= |a|
    decreases hi - lo
    ensures lo <= p <= hi
    ensures forall i :: lo <= i < p ==> a[i] < x
    ensures p < hi ==> x <= a[p]
  {
    if lo == hi || x <= a[lo] then lo else FirstNotBelow(a, lo + 1, hi, x)
  }

  /** `std::lower_bound(a + lo, a + hi, x)` as a binary search over a
      nondecreasing range. */
  method LowerBound(a: seq<int>, lo: int, hi: int, x: int) returns (p: int)
    requires 0 <= lo <= hi <= |a|
    requires forall i, j :: lo <= i <= j < hi ==> a[i] <= a[j]
    ensures p == FirstNotBelow(a, lo, hi, x)
    ensures forall i :: p <= i < hi ==> x <= a[i]
  {
    var first, count := lo, hi - lo;
    while count > 0
      invariant lo <= first && 0 <= count && first + count <= hi
      invariant forall i :: lo <= i < first ==> a[i] < x
      invariant forall i :: first + count <= i < hi ==> x <= a[i]
    {
      var step := count / 2;
      var it := first + step;
      if a[it] < x {
        first := it + 1;
        count := count - step - 1;
      } else {
        count := step;
      }
    }
    p := first;
    FirstNotBelowUnique(a, lo, hi, x, p);
  }

  lemma FirstNotBelowUnique(a: seq<int>, lo: int, hi: int, x: int, p: int)
    requires 0 <= lo <= p <= hi <= |a|
    requires forall i :: lo <= i < p ==> a[i] < x
    requires p < hi ==> x <= a[p]
    ensures p == FirstNotBelow(a, lo, hi, x)
  {
  }

  /** The row indices of one column, as a slice of `ai`, are sorted. */
  lemma ColumnSorted(m: Csc, n: nat, c: int)
    requires WellFormed(m, n) && 0 <= c < n
    ensures forall i, j :: m.ap[c] <= i <= j < m.ap[c + 1] ==> m.ai[i] <= m.ai[j]
  {
    var lo := m.ap[c];
    var rows := ColRows(m, n, c);
    forall i, j | lo <= i <= j < m.ap[c + 1] ensures m.ai[i] <= m.ai[j] {
      assert rows[i - lo] == m.ai[i] && rows[j - lo] == m.ai[j];
      if i < j { assert rows[i - lo] < rows[j - lo]; }
    }
  }

  /** Within a strictly increasing column, the lower bound of r is r's own
      slot exactly when r is stored there. */
  lemma SlotOfRow(m: Csc, n: nat, r: int, c: int)
    requires WellFormed(m, n) && 0 <= r < n && 0 <= c < n
    ensures var p := FirstNotBelow(m.ai, m.ap[c], m.ap[c + 1], r);
      (p < m.ap[c + 1] && m.ai[p] == r) <==> Stored(m, n, r, c)
  {
    if Stored(m, n, r, c) {
      SlotOfStored(m, n, r, c);
    } else {
      var p := FirstNotBelow(m.ai, m.ap[c], m.ap[c + 1], r);
      if p < m.ap[c + 1] {
        assert ColRows(m, n, c)[p - m.ap[c]] == m.ai[p];
      }
    }
  }

  lemma SlotOfStored(m: Csc, n: nat, r: int, c: int)
    requires Shape(m, n) && 0 <= r < n && 0 <= c < n && Increasing(ColRows(m, n, c)) && Stored(m, n, r, c)
    ensures var p := FirstNotBelow(m.ai, m.ap[c], m.ap[c + 1], r);
      p < m.ap[c + 1] && m.ai[p] == r
  {
    var lo, hi := m.ap[c], m.ap[c + 1];
    var rows := ColRows(m, n, c);
    var q :| 0 <= q < |rows| && rows[q] == r;
    assert m.ai[lo + q] == r;
    forall k | lo <= k < lo + q ensures m.ai[k] < r {
      assert rows[k - lo] == m.ai[k];
      assert rows[k - lo] < rows[q];
    }
    FirstNotBelowUnique(m.ai, lo, hi, r, lo + q);
  }

  /** Overwriting one value slot keeps the pattern and changes exactly one
      coefficient. */
  lemma UpdateSlot(m: Csc, n: nat, c: int, p: int, x: Complex)
    requires WellFormed(m, n) && 0 <= c < n && m.ap[c] <= p < m.ap[c + 1]
    ensures WellFormed(m.(ax := m.ax[p := x]), n)
    ensures forall r', c' :: 0 <= r' < n && 0 <= c' < n ==>
      Stored(m.(ax := m.ax[p := x]), n, r', c') == Stored(m, n, r', c')
    ensures forall r', c' :: 0 <= r' < n && 0 <= c' < n ==>
      Coeff(m.(ax := m.ax[p := x]), n, r', c')
        == if r' == m.ai[p] && c' == c then x else Coeff(m, n, r', c')
  {
    var m' := m.(ax := m.ax[p := x]);
    forall c' | 0 <= c' < n ensures ColRows(m', n, c') == ColRows(m, n, c') {
    }
    forall r', c' | 0 <= r' < n && 0 <= c' < n
      ensures Coeff(m', n, r', c') == if r' == m.ai[p] && c' == c then x else Coeff(m, n, r', c')
    {
      assert ColRows(m', n, c') == ColRows(m, n, c');
      if c' == c {
        assert ColVals(m', n, c) == ColVals(m, n, c)[p - m.ap[c] := x];
        LookupUpdate(ColRows(m, n, c), ColVals(m, n, c), p - m.ap[c], x, r');
      } else if c' < c {
        assert m.ap[c' + 1] <= m.ap[c];
        assert ColVals(m', n, c') == ColVals(m, n, c');
      } else {
        assert m.ap[c + 1] <= m.ap[c'];
        assert ColVals(m', n, c') == ColVals(m, n, c');
      }
    }
  }

  /** `coeffRef(r, c) += x` on the slot p of a stored (r, c). */
  lemma AddToSlot(m: Csc, n: nat, r: int, c: int, p: int, x: Complex)
    requires WellFormed(m, n) && 0 <= r < n && 0 <= c < n && m.ap[c] <= p < m.ap[c + 1] && m.ai[p] == r
    ensures WellFormed(m.(ax := m.ax[p := Add(m.ax[p], x)]), n)
    ensures forall r', c' :: 0 <= r' < n && 0 <= c' < n ==>
      Stored(m.(ax := m.ax[p := Add(m.ax[p], x)]), n, r', c') == (Stored(m, n, r', c') || (r' == r && c' == c))
    ensures forall r', c' :: 0 <= r' < n && 0 <= c' < n ==>
      Coeff(m.(ax := m.ax[p := Add(m.ax[p], x)]), n, r', c')
        == if r' == r && c' == c then Add(Coeff(m, n, r, c), x) else Coeff(m, n, r', c')
  {
    assert ColRows(m, n, c)[p - m.ap[c]] == r;
    assert Stored(m, n, r, c);
    UpdateSlot(m, n, c, p, Add(m.ax[p], x));
    LookupAt(ColRows(m, n, c), ColVals(m, n, c), p - m.ap[c]);
  }

  lemma SliceBeforeInsert<T>(s: seq<T>, p: int, x: T, lo: int, hi: int)
    requires 0 <= lo <= hi <= p <= |s|
    ensures (s[..p] + [x] + s[p..])[lo..hi] == s[lo..hi]
  {
    var t := s[..p] + [x] + s[p..];
    assert forall k :: lo <= k < hi ==> t[k] == s[k];
  }

  lemma SliceAfterInsert<T>(s: seq<T>, p: int, x: T, lo: int, hi: int)
    requires 0 <= p <= lo <= hi <= |s|
    ensures (s[..p] + [x] + s[p..])[lo + 1..hi + 1] == s[lo..hi]
  {
    var t := s[..p] + [x] + s[p..];
    assert forall k :: lo + 1 <= k < hi + 1 ==> t[k] == s[k - 1];
  }

  lemma SliceAroundInsert<T>(s: seq<T>, p: int, x: T, lo: int, hi: int)
    requires 0 <= lo <= p <= hi <= |s|
    ensures (s[..p] + [x] + s[p..])[lo..hi + 1] == s[lo..p] + [x] + s[p..hi]
  {
    var t := s[..p] + [x] + s[p..];
    var u := s[lo..p] + [x] + s[p..hi];
    assert |t[lo..hi + 1]| == |u|;
    forall k | 0 <= k < |u| ensures t[lo..hi + 1][k] == u[k] {
      if lo + k < p { assert t[lo + k] == s[lo + k]; }
      else if lo + k > p { assert t[lo + k] == s[lo + k - 1]; }
    }
  }

  /** The matrix after a new entry (r, c) = x is inserted at slot p. */
  function InsertAt(m: Csc, n: nat, c: int, p: int, r: int, x: Complex): Csc
    requires Shape(m, n) && 0 <= c < n && m.ap[c] <= p <= m.ap[c + 1]
  {
    Csc(seq(n + 1, i requires 0 <= i <= n => if i <= c then m.ap[i] else m.ap[i] + 1),
        m.ai[..p] + [r] + m.ai[p..],
        m.ax[..p] + [x] + m.ax[p..])
  }

  lemma InsertShape(m: Csc, n: nat, c: int, p: int, r: int, x: Complex)
    requires Shape(m, n) && 0 <= c < n && m.ap[c] <= p <= m.ap[c + 1] && 0 <= r < n
    ensures Shape(InsertAt(m, n, c, p, r, x), n)
  {
    var m' := InsertAt(m, n, c, p, r, x);
    assert |m'.ai| == |m.ai| + 1;
    forall c1, c2 | 0 <= c1 <= c2 <= n ensures m'.ap[c1] <= m'.ap[c2] {
      assert m.ap[c1] <= m.ap[c2];
    }
    forall k | 0 <= k < |m'.ai| ensures 0 <= m'.ai[k] < n {
      if k < p { assert m'.ai[k] == m.ai[k]; }
      else if k > p { assert m'.ai[k] == m.ai[k - 1]; }
    }
  }

  /** The insertion leaves every other column as it was. */
  lemma InsertOtherColumn(m: Csc, n: nat, c: int, p: int, r: int, x: Complex, c': int)
    requires Shape(m, n) && 0 <= c < n && m.ap[c] <= p <= m.ap[c + 1] && 0 <= r < n
    requires 0 <= c' < n && c' != c
    ensures Shape(InsertAt(m, n, c, p, r, x), n)
    ensures ColRows(InsertAt(m, n, c, p, r, x), n, c') == ColRows(m, n, c')
    ensures ColVals(InsertAt(m, n, c, p, r, x), n, c') == ColVals(m, n, c')
  {
    InsertShape(m, n, c, p, r, x);
    var m' := InsertAt(m, n, c, p, r, x);
    if c' < c {
      assert m.ap[c' + 1] <= m.ap[c];
      assert m'.ap[c'] == m.ap[c'] && m'.ap[c' + 1] == m.ap[c' + 1];
      SliceBeforeInsert(m.ai, p, r, m.ap[c'], m.ap[c' + 1]);
      SliceBeforeInsert(m.ax, p, x, m.ap[c'], m.ap[c' + 1]);
    } else {
      assert m.ap[c + 1] <= m.ap[c'];
      assert m'.ap[c'] == m.ap[c'] + 1 && m'.ap[c' + 1] == m.ap[c' + 1] + 1;
      SliceAfterInsert(m.ai, p, r, m.ap[c'], m.ap[c' + 1]);
      SliceAfterInsert(m.ax, p, x, m.ap[c'], m.ap[c' + 1]);
    }
  }

  lemma InsertColumns(m: Csc, n: nat, c: int, p: int, r: int, x: Complex)
    requires Shape(m, n) && 0 <= c < n && m.ap[c] <= p <= m.ap[c + 1] && 0 <= r < n
    ensures Shape(InsertAt(m, n, c, p, r, x), n)
    ensures forall c' :: 0 <= c' < n && c' != c ==>
      ColRows(InsertAt(m, n, c, p, r, x), n, c') == ColRows(m, n, c') &&
      ColVals(InsertAt(m, n, c, p, r, x), n, c') == ColVals(m, n, c')
    ensures ColRows(InsertAt(m, n, c, p, r, x), n, c)
      == m.ai[m.ap[c]..p] + [r] + m.ai[p..m.ap[c + 1]]
    ensures ColVals(InsertAt(m, n, c, p, r, x), n, c)
      == m.ax[m.ap[c]..p] + [x] + m.ax[p..m.ap[c + 1]]
  {
    var m' := InsertAt(m, n, c, p, r, x);
    InsertShape(m, n, c, p, r, x);
    forall c' | 0 <= c' < n && c' != c
      ensures ColRows(m', n, c') == ColRows(m, n, c') && ColVals(m', n, c') == ColVals(m, n, c')
    {
      InsertOtherColumn(m, n, c, p, r, x, c');
    }
    assert m'.ap[c] == m.ap[c] && m'.ap[c + 1] == m.ap[c + 1] + 1;
    SliceAroundInsert(m.ai, p, r, m.ap[c], m.ap[c + 1]);
    SliceAroundInsert(m.ax, p, x, m.ap[c], m.ap[c + 1]);
  }

  /** Eigen's `coeffRef(r, c) += x` on a compressed matrix: adds to the stored
      slot, or inserts (r, c) = x at its sorted place in column c. */
  function AddCoeff(m: Csc, n: nat, r: int, c: int, x: Complex): (m': Csc)
    requires WellFormed(m, n) && 0 <= r < n && 0 <= c < n
    ensures WellFormed(m', n)
    ensures forall r', c' :: 0 <= r' < n && 0 <= c' < n ==>
      Stored(m', n, r', c') == (Stored(m, n, r', c') || (r' == r && c' == c))
    ensures forall r', c' :: 0 <= r' < n && 0 <= c' < n ==>
      Coeff(m', n, r', c') == if r' == r && c' == c then Add(Coeff(m, n, r, c), x) else Coeff(m, n, r', c')
  {
    var lo, hi := m.ap[c], m.ap[c + 1];
    var p := FirstNotBelow(m.ai, lo, hi, r);
    SlotOfRow(m, n, r, c);
    if p < hi && m.ai[p] == r then
      AddToSlot(m, n, r, c, p, x);
      m.(ax := m.ax[p := Add(m.ax[p], x)])
    else
      InsertNewEntry(m, n, r, c, p, x);
      InsertAt(m, n, c, p, r, x)
  }

  lemma InsertKeepsIncreasing(rows: seq<int>, i: int, r: int)
    requires Increasing(rows) && 0 <= i <= |rows|
    requires forall j :: 0 <= j < i ==> rows[j] < r
    requires forall j :: i <= j < |rows| ==> r < rows[j]
    ensures Increasing(rows[..i] + [r] + rows[i..])
  {
    var t := rows[..i] + [r] + rows[i..];
    forall a, b | 0 <= a < b < |t| ensures t[a] < t[b] {
      if b < i { assert t[a] == rows[a] && t[b] == rows[b]; }
      else if b == i { assert t[a] == rows[a]; }
      else if a > i { assert t[a] == rows[a - 1] && t[b] == rows[b - 1]; }
      else if a == i { assert t[b] == rows[b - 1]; }
      else { assert t[a] == rows[a] && t[b] == rows[b - 1]; }
    }
  }

  /** Rows before the lower bound of r are below it. */
  lemma BelowLowerBound(m: Csc, n: nat, r: int, c: int, p: int)
    requires Shape(m, n) && 0 <= c < n
    requires p == FirstNotBelow(m.ai, m.ap[c], m.ap[c + 1], r)
    ensures forall j :: 0 <= j < p - m.ap[c] ==> ColRows(m, n, c)[j] < r
  {
    var lo := m.ap[c];
    var rows := ColRows(m, n, c);
    forall j | 0 <= j < p - lo ensures rows[j] < r { assert rows[j] == m.ai[lo + j]; }
  }

  /** Rows from the lower bound of an absent r on are above it. */
  lemma AboveLowerBound(m: Csc, n: nat, r: int, c: int, p: int)
    requires Shape(m, n) && 0 <= r < n && 0 <= c < n && Increasing(ColRows(m, n, c)) && !Stored(m, n, r, c)
    requires p == FirstNotBelow(m.ai, m.ap[c], m.ap[c + 1], r)
    ensures forall j :: p - m.ap[c] <= j < |ColRows(m, n, c)| ==> r < ColRows(m, n, c)[j]
  {
    var lo := m.ap[c];
    var rows := ColRows(m, n, c);
    if p < m.ap[c + 1] {
      assert r <= rows[p - lo] by { assert rows[p - lo] == m.ai[p]; }
      forall j | p - lo <= j < |rows| ensures r < rows[j] {
        assert rows[j] != r by { assert rows[j] in rows; }
        if j > p - lo { assert rows[p - lo] < rows[j]; }
      }
    }
  }

  /** Inserting an absent row r at its sorted place i keeps a column
      increasing, adds r to its rows and gives r the value x. */
  lemma InsertIntoColumn(rows: seq<int>, vals: seq<Complex>, i: int, r: int, x: Complex)
    requires |rows| == |vals| && Increasing(rows) && 0 <= i <= |rows|
    requires forall j :: 0 <= j < i ==> rows[j] < r
    requires forall j :: i <= j < |rows| ==> r < rows[j]
    ensures Increasing(rows[..i] + [r] + rows[i..])
    ensures forall q :: q in rows[..i] + [r] + rows[i..] <==> q in rows || q == r
    ensures forall q :: (Lookup(rows[..i] + [r] + rows[i..], vals[..i] + [x] + vals[i..], q)
                         == if q == r then Add(Lookup(rows, vals, r), x) else Lookup(rows, vals, q))
  {
    InsertKeepsIncreasing(rows, i, r);
    assert r !in rows by {
      forall j | 0 <= j < |rows| ensures rows[j] != r {
        if j < i { assert rows[j] < r; } else { assert r < rows[j]; }
      }
    }
    LookupAbsent(rows, vals, r);
    assert rows == rows[..i] + rows[i..];
    forall q ensures Lookup(rows[..i] + [r] + rows[i..], vals[..i] + [x] + vals[i..], q)
      == if q == r then Add(Lookup(rows, vals, r), x) else Lookup(rows, vals, q)
    {
      LookupInsert(rows, vals, i, r, x, q);
    }
  }

  /** Column c of the matrix after the insertion at slot p, in terms of the old column. */
  lemma InsertedColumn(m: Csc, n: nat, c: int, p: int, r: int, x: Complex)
    requires Shape(m, n) && 0 <= c < n && m.ap[c] <= p <= m.ap[c + 1] && 0 <= r < n
    ensures Shape(InsertAt(m, n, c, p, r, x), n)
    ensures var i := p - m.ap[c];
      && ColRows(InsertAt(m, n, c, p, r, x), n, c) == ColRows(m, n, c)[..i] + [r] + ColRows(m, n, c)[i..]
      && ColVals(InsertAt(m, n, c, p, r, x), n, c) == ColVals(m, n, c)[..i] + [x] + ColVals(m, n, c)[i..]
  {
    InsertColumns(m, n, c, p, r, x);
    var lo, hi, i := m.ap[c], m.ap[c + 1], p - m.ap[c];
    var rows, vals := ColRows(m, n, c), ColVals(m, n, c);
    SubSlices(m.ai, lo, p, hi);
    SubSlices(m.ax, lo, p, hi);
  }

  lemma SubSlices<T>(s: seq<T>, lo: int, p: int, hi: int)
    requires 0 <= lo <= p <= hi <= |s|
    ensures s[lo..hi][..p - lo] == s[lo..p] && s[lo..hi][p - lo..] == s[p..hi]
  {
  }

  lemma InsertNewEntry(m: Csc, n: nat, r: int, c: int, p: int, x: Complex)
    requires WellFormed(m, n) && 0 <= r < n && 0 <= c < n && !Stored(m, n, r, c)
    requires p == FirstNotBelow(m.ai, m.ap[c], m.ap[c + 1], r)
    ensures WellFormed(InsertAt(m, n, c, p, r, x), n)
    ensures forall r', c' :: 0 <= r' < n && 0 <= c' < n ==>
      Stored(InsertAt(m, n, c, p, r, x), n, r', c') == (Stored(m, n, r', c') || (r' == r && c' == c))
    ensures forall r', c' :: 0 <= r' < n && 0 <= c' < n ==>
      Coeff(InsertAt(m, n, c, p, r, x), n, r', c')
        == if r' == r && c' == c then Add(Coeff(m, n, r, c), x) else Coeff(m, n, r', c')
  {
    InsertEntry(m, n, r, c, p, x);
    InsertSorted(m, InsertAt(m, n, c, p, r, x), n, c);
  }

  /** The insertion of an absent entry, looking only at the column it goes into. */
  lemma InsertEntry(m: Csc, n: nat, r: int, c: int, p: int, x: Complex)
    requires Shape(m, n) && 0 <= r < n && 0 <= c < n && Increasing(ColRows(m, n, c)) && !Stored(m, n, r, c)
    requires p == FirstNotBelow(m.ai, m.ap[c], m.ap[c + 1], r)
    ensures Shape(InsertAt(m, n, c, p, r, x), n)
    ensures Increasing(ColRows(InsertAt(m, n, c, p, r, x), n, c))
    ensures forall c' :: 0 <= c' < n && c' != c ==>
      ColRows(InsertAt(m, n, c, p, r, x), n, c') == ColRows(m, n, c')
    ensures forall r', c' :: 0 <= r' < n && 0 <= c' < n ==>
      Stored(InsertAt(m, n, c, p, r, x), n, r', c') == (Stored(m, n, r', c') || (r' == r && c' == c))
    ensures forall r', c' :: 0 <= r' < n && 0 <= c' < n ==>
      Coeff(InsertAt(m, n, c, p, r, x), n, r', c')
        == if r' == r && c' == c then Add(Coeff(m, n, r, c), x) else Coeff(m, n, r', c')
  {
    var m' := InsertAt(m, n, c, p, r, x);
    InsertColumns(m, n, c, p, r, x);
    InsertedColumn(m, n, c, p, r, x);
    BelowLowerBound(m, n, r, c, p);
    AboveLowerBound(m, n, r, c, p);
    ColumnGains(m, m', n, r, c, p - m.ap[c], x);
  }

  /** A matrix that differs from m only in column c, where row r is inserted
      at its sorted place i with value x, stores and holds what the `+=`
      promises. */
  lemma ColumnGains(m: Csc, m': Csc, n: nat, r: int, c: int, i: int, x: Complex)
    requires Shape(m, n) && Shape(m', n) && 0 <= r < n && 0 <= c < n
    requires Increasing(ColRows(m, n, c)) && 0 <= i <= |ColRows(m, n, c)|
    requires forall j :: 0 <= j < i ==> ColRows(m, n, c)[j] < r
    requires forall j :: i <= j < |ColRows(m, n, c)| ==> r < ColRows(m, n, c)[j]
    requires ColRows(m', n, c) == ColRows(m, n, c)[..i] + [r] + ColRows(m, n, c)[i..]
    requires ColVals(m', n, c) == ColVals(m, n, c)[..i] + [x] + ColVals(m, n, c)[i..]
    requires forall c' :: 0 <= c' < n && c' != c ==>
      ColRows(m', n, c') == ColRows(m, n, c') && ColVals(m', n, c') == ColVals(m, n, c')
    ensures Increasing(ColRows(m', n, c))
    ensures forall r', c' :: 0 <= r' < n && 0 <= c' < n ==>
      Stored(m', n, r', c') == (Stored(m, n, r', c') || (r' == r && c' == c))
    ensures forall r', c' :: 0 <= r' < n && 0 <= c' < n ==>
      Coeff(m', n, r', c') == if r' == r && c' == c then Add(Coeff(m, n, r, c), x) else Coeff(m, n, r', c')
  {
    InsertIntoColumn(ColRows(m, n, c), ColVals(m, n, c), i, r, x);
    forall r', c' | 0 <= r' < n && 0 <= c' < n
      ensures Stored(m', n, r', c') == (Stored(m, n, r', c') || (r' == r && c' == c))
      ensures Coeff(m', n, r', c') == if r' == r && c' == c then Add(Coeff(m, n, r, c), x) else Coeff(m, n, r', c')
    {
      if c' != c {
        assert ColRows(m', n, c') == ColRows(m, n, c') && ColVals(m', n, c') == ColVals(m, n, c');
      }
    }
  }

  /** A matrix that differs from a compressed one only in column c, where it
      is increasing, is compressed. */
  lemma InsertSorted(m: Csc, m': Csc, n: nat, c: int)
    requires WellFormed(m, n) && Shape(m', n) && 0 <= c < n && Increasing(ColRows(m', n, c))
    requires forall c' :: 0 <= c' < n && c' != c ==> ColRows(m', n, c') == ColRows(m, n, c')
    ensures WellFormed(m', n)
  {
    forall c' | 0 <= c' < n ensures Increasing(ColRows(m', n, c')) {
      if c' != c {
        assert ColRows(m', n, c') == ColRows(m, n, c');
      }
    }
  }

  // ---------------------------------------------------------------------
  // Building the compressed matrix from triplets (`setFromTriplets`)

  /** Some triplet addresses (r, c). */
  predicate HasKey(ts: seq<Triplet>, r: int, c: int)
  {
    exists i :: 0 <= i < |ts| && ts[i].row == r && ts[i].col == c
  }

  /** The sum of every triplet value addressed to (r, c). */
  function SumAt(ts: seq<Triplet>, r: int, c: int): Complex
  {
    if ts == [] then Zero
    else
      var rest := SumAt(ts[1..], r, c);
      if ts[0].row == r && ts[0].col == c then Add(ts[0].value, rest) else rest
  }

  /** The rows in [r, n) that some triplet addresses in column c, ascending. */
  function KeyRows(ts: seq<Triplet>, c: int, r: int, n: nat): seq<int>
    decreases n - r
  {
    if r >= n then [] else (if HasKey(ts, r, c) then [r] else []) + KeyRows(ts, c, r + 1, n)
  }

  function SumsOf(ts: seq<Triplet>, rows: seq<int>, c: int): (vs: seq<Complex>)
    ensures |vs| == |rows|
  {
    if rows == [] then [] else [SumAt(ts, rows[0], c)] + SumsOf(ts, rows[1..], c)
  }

  /** Columns 0..c-1 of the matrix built from ts. */
  function Columns(ts: seq<Triplet>, n: nat, c: nat): Csc
    requires c <= n
  {
    if c == 0 then Csc([0], [], [])
    else
      var m := Columns(ts, n, c - 1);
      var rows := KeyRows(ts, c - 1, 0, n);
      Csc(m.ap + [|m.ai| + |rows|], m.ai + rows, m.ax + SumsOf(ts, rows, c - 1))
  }

  lemma {:induction false} KeyRowsProps(ts: seq<Triplet>, c: int, r: int, n: nat)
    requires 0 <= r
    decreases n - r
    ensures Increasing(KeyRows(ts, c, r, n))
    ensures forall x :: x in KeyRows(ts, c, r, n) <==> r <= x < n && HasKey(ts, x, c)
  {
    if r < n {
      KeyRowsProps(ts, c, r + 1, n);
      var t := KeyRows(ts, c, r + 1, n);
      var h := if HasKey(ts, r, c) then [r] else [];
      assert KeyRows(ts, c, r, n) == h + t;
      forall a, b | 0 <= a < b < |h + t| ensures (h + t)[a] < (h + t)[b] {
        if a < |h| {
          assert (h + t)[b] == t[b - |h|] && t[b - |h|] in t;
        }
      }
    }
  }

  lemma {:induction false} SumAtNoKey(ts: seq<Triplet>, r: int, c: int)
    requires !HasKey(ts, r, c)
    ensures SumAt(ts, r, c) == Zero
  {
    if ts != [] {
      forall i | 0 <= i < |ts[1..]| ensures !(ts[1..][i].row == r && ts[1..][i].col == c) {
        assert ts[1..][i] == ts[i + 1];
      }
      SumAtNoKey(ts[1..], r, c);
    }
  }

  lemma {:induction false} LookupSums(ts: seq<Triplet>, rows: seq<int>, c: int, r: int)
    ensures Lookup(rows, SumsOf(ts, rows, c), r) == if r in rows then SumAt(ts, r, c) else Zero
  {
    if rows != [] {
      LookupSums(ts, rows[1..], c, r);
      assert rows == [rows[0]] + rows[1..];
    }
  }

  predicate Nondecreasing(s: seq<int>)
  {
    forall i, j :: 0 <= i <= j < |s| ==> s[i] <= s[j]
  }

  predicate AllBelow(s: seq<int>, n: int)
  {
    forall k :: 0 <= k < |s| ==> 0 <= s[k] < n
  }

  lemma {:induction false} ColumnsLengths(ts: seq<Triplet>, n: nat, c: nat)
    requires c <= n
    ensures var m := Columns(ts, n, c); |m.ap| == c + 1 && m.ap[0] == 0 && m.ap[c] == |m.ai| == |m.ax|
  {
    if c > 0 { ColumnsLengths(ts, n, c - 1); }
  }

  lemma {:induction false} ColumnsPointers(ts: seq<Triplet>, n: nat, c: nat)
    requires c <= n
    ensures Nondecreasing(Columns(ts, n, c).ap)
  {
    if c > 0 {
      ColumnsPointers(ts, n, c - 1);
      ColumnsLengths(ts, n, c - 1);
      var prev := Columns(ts, n, c - 1);
      var ap := prev.ap + [|prev.ai| + |KeyRows(ts, c - 1, 0, n)|];
      assert Columns(ts, n, c).ap == ap;
      forall i, j | 0 <= i <= j < |ap| ensures ap[i] <= ap[j] {
        if j < c { assert ap[i] == prev.ap[i] && ap[j] == prev.ap[j]; }
        else if i < c { assert ap[i] == prev.ap[i] <= prev.ap[c - 1]; }
      }
    }
  }

  lemma {:induction false} ColumnsRowIndices(ts: seq<Triplet>, n: nat, c: nat)
    requires c <= n
    ensures AllBelow(Columns(ts, n, c).ai, n)
  {
    if c > 0 {
      ColumnsRowIndices(ts, n, c - 1);
      var prev := Columns(ts, n, c - 1);
      var rows := KeyRows(ts, c - 1, 0, n);
      KeyRowsProps(ts, c - 1, 0, n);
      var ai := prev.ai + rows;
      assert Columns(ts, n, c).ai == ai;
      forall k | 0 <= k < |ai| ensures 0 <= ai[k] < n {
        if k >= |prev.ai| { assert ai[k] == rows[k - |prev.ai|] && ai[k] in rows; }
        else { assert ai[k] == prev.ai[k]; }
      }
    }
  }

  lemma ColumnsShape(ts: seq<Triplet>, n: nat)
    ensures Shape(Columns(ts, n, n), n)
  {
    ColumnsLengths(ts, n, n);
    ColumnsPointers(ts, n, n);
    ColumnsRowIndices(ts, n, n);
  }

  lemma SliceOfLeft<T>(a: seq<T>, b: seq<T>, lo: int, hi: int)
    requires 0 <= lo <= hi <= |a|
    ensures (a + b)[lo..hi] == a[lo..hi]
  {
  }

  lemma SliceOfRight<T>(a: seq<T>, b: seq<T>)
    ensures (a + b)[|a|..|a| + |b|] == b
  {
  }

  /** Column c' of the matrix built from ts holds the rows that address it,
      with their sums. */
  predicate Segment(m: Csc, ts: seq<Triplet>, n: nat, c': nat)
  {
    && c' + 1 < |m.ap| && 0 <= m.ap[c'] <= m.ap[c' + 1] <= |m.ai| == |m.ax|
    && m.ai[m.ap[c']..m.ap[c' + 1]] == KeyRows(ts, c', 0, n)
    && m.ax[m.ap[c']..m.ap[c' + 1]] == SumsOf(ts, KeyRows(ts, c', 0, n), c')
  }

  lemma {:induction false} ColumnsSegment(ts: seq<Triplet>, n: nat, c: nat, c': nat)
    requires c' < c <= n
    ensures |Columns(ts, n, c).ap| == c + 1 && Segment(Columns(ts, n, c), ts, n, c')
  {
    ColumnsLengths(ts, n, c);
    if c' < c - 1 {
      ColumnsSegment(ts, n, c - 1, c');
      SegmentOfPrev(ts, n, c, c');
    } else {
      SegmentOfLast(ts, n, c);
    }
  }

  /** Appending a column keeps the earlier columns. */
  lemma SegmentOfPrev(ts: seq<Triplet>, n: nat, c: nat, c': nat)
    requires c' < c - 1 && c <= n && Segment(Columns(ts, n, c - 1), ts, n, c')
    ensures Segment(Columns(ts, n, c), ts, n, c')
  {
    ColumnsLengths(ts, n, c - 1);
    var prev := Columns(ts, n, c - 1);
    var rows := KeyRows(ts, c - 1, 0, n);
    var vals := SumsOf(ts, rows, c - 1);
    var m := Columns(ts, n, c);
    assert m.ap == prev.ap + [|prev.ai| + |rows|];
    assert m.ai == prev.ai + rows && m.ax == prev.ax + vals;
    assert m.ap[c'] == prev.ap[c'] && m.ap[c' + 1] == prev.ap[c' + 1];
    SliceOfLeft(prev.ai, rows, prev.ap[c'], prev.ap[c' + 1]);
    SliceOfLeft(prev.ax, vals, prev.ap[c'], prev.ap[c' + 1]);
  }

  /** Appending rows and values after the last column pointer makes them
      the last column. */
  lemma AppendSegment(ap: seq<int>, ai: seq<int>, ax: seq<Complex>, rows: seq<int>, vals: seq<Complex>)
    requires |ap| >= 1 && ap[|ap| - 1] == |ai| == |ax| && |rows| == |vals|
    ensures var ap', ai', ax' := ap + [|ai| + |rows|], ai + rows, ax + vals;
      && ap'[|ap| - 1] == |ai| && ap'[|ap|] == |ai'| == |ax'|
      && ai'[|ai|..|ai'|] == rows && ax'[|ax|..|ax'|] == vals
  {
    SliceOfRight(ai, rows);
    SliceOfRight(ax, vals);
  }

  /** The appended column is the last segment. */
  lemma SegmentOfLast(ts: seq<Triplet>, n: nat, c: nat)
    requires 0 < c <= n
    ensures Segment(Columns(ts, n, c), ts, n, c - 1)
  {
    ColumnsLengths(ts, n, c - 1);
    var prev := Columns(ts, n, c - 1);
    var rows := KeyRows(ts, c - 1, 0, n);
    AppendSegment(prev.ap, prev.ai, prev.ax, rows, SumsOf(ts, rows, c - 1));
  }

  /** Eigen's `setFromTriplets`: duplicates are summed, every column's rows
      are sorted, and the previous contents play no part. */
  function FromTriplets(ts: seq<Triplet>, n: nat): (m: Csc)
    ensures WellFormed(m, n)
    ensures forall r, c :: 0 <= r < n && 0 <= c < n ==>
      (Stored(m, n, r, c) <==> HasKey(ts, r, c)) && Coeff(m, n, r, c) == SumAt(ts, r, c)
  {
    ColumnsShape(ts, n);
    var m := Columns(ts, n, n);
    forall c | 0 <= c < n
      ensures Increasing(ColRows(m, n, c))
      ensures forall r :: 0 <= r < n ==>
        (Stored(m, n, r, c) <==> HasKey(ts, r, c)) && Coeff(m, n, r, c) == SumAt(ts, r, c)
    {
      ColumnsSegment(ts, n, n, c);
      KeyRowsProps(ts, c, 0, n);
      forall r | 0 <= r < n
        ensures (Stored(m, n, r, c) <==> HasKey(ts, r, c)) && Coeff(m, n, r, c) == SumAt(ts, r, c)
      {
        LookupSums(ts, KeyRows(ts, c, 0, n), c, r);
        if !HasKey(ts, r, c) { SumAtNoKey(ts, r, c); }
      }
    }
    m
  }

  // ---------------------------------------------------------------------
  // Exporting the compressed matrix as triplets (column by column)

  /** The stored entries of column c as triplets, in row order. */
  function ColumnTriplets(m: Csc, n: nat, c: int): (ts: seq<Triplet>)
    requires Shape(m, n) && 0 <= c < n
    ensures |ts| == m.ap[c + 1] - m.ap[c]
    ensures forall i :: 0 <= i < |ts| ==> ts[i] == Triplet(m.ai[m.ap[c] + i], c, m.ax[m.ap[c] + i])
  {
    seq(m.ap[c + 1] - m.ap[c], i requires 0 <= i < m.ap[c + 1] - m.ap[c] =>
      Triplet(m.ai[m.ap[c] + i], c, m.ax[m.ap[c] + i]))
  }

  /** The stored entries of columns 0..c-1, column-major. */
  function TripletsUpTo(m: Csc, n: nat, c: nat): (ts: seq<Triplet>)
    requires Shape(m, n) && c <= n
    ensures |ts| == m.ap[c]
  {
    if c == 0 then [] else TripletsUpTo(m, n, c - 1) + ColumnTriplets(m, n, c - 1)
  }

  /** Slot k of column c' is exported as that column's entry. */
  lemma {:induction false} TripletsUpToAt(m: Csc, n: nat, c: nat, c': int, k: int)
    requires Shape(m, n) && c <= n && 0 <= c' < c && m.ap[c'] <= k < m.ap[c' + 1]
    ensures TripletsUpTo(m, n, c)[k] == Triplet(m.ai[k], c', m.ax[k])
  {
    var prev := TripletsUpTo(m, n, c - 1);
    assert TripletsUpTo(m, n, c) == prev + ColumnTriplets(m, n, c - 1);
    if c' < c - 1 {
      assert m.ap[c' + 1] <= m.ap[c - 1];
      TripletsUpToAt(m, n, c - 1, c', k);
    }
  }

  /** What `GetTripletMatrix` writes: every stored entry, column by column. */
  function ToTriplets(m: Csc, n: nat): (ts: seq<Triplet>)
    requires Shape(m, n)
    ensures |ts| == |m.ai|
  {
    TripletsUpTo(m, n, n)
  }

  /** Every slot of the row-index array lies in exactly one column. */
  lemma ColumnOfSlot(m: Csc, n: nat, k: int) returns (c: int)
    requires Shape(m, n) && 0 <= k < |m.ai|
    ensures 0 <= c < n && m.ap[c] <= k < m.ap[c + 1]
  {
    c := 0;
    while m.ap[c + 1] <= k
      invariant 0 <= c < n && m.ap[c] <= k
      decreases n - c
    {
      c := c + 1;
    }
  }

  lemma {:induction false} SumAtOnly(ts: seq<Triplet>, r: int, c: int, p: int)
    requires 0 <= p < |ts| && ts[p].row == r && ts[p].col == c
    requires forall i :: 0 <= i < |ts| && i != p ==> !(ts[i].row == r && ts[i].col == c)
    ensures SumAt(ts, r, c) == ts[p].value
  {
    if p == 0 {
      assert forall i :: 0 <= i < |ts[1..]| ==> ts[1..][i] == ts[i + 1];
      SumAtNoKey(ts[1..], r, c);
    } else {
      assert forall i :: 0 <= i < |ts[1..]| ==> ts[1..][i] == ts[i + 1];
      SumAtOnly(ts[1..], r, c, p - 1);
    }
  }

  /** The head of an increasing sequence is its least element, and the rest
      holds the other elements. */
  lemma IncreasingHead(s: seq<int>, r: int)
    requires Increasing(s) && r in s && forall x :: x in s ==> r <= x
    ensures s == [r] + s[1..]
    ensures forall x :: x in s[1..] <==> x in s && x != r
  {
    var q :| 0 <= q < |s| && s[q] == r;
    assert s[0] in s;
    IncreasingPair(s, 0, q);
    assert q == 0;
    forall x | x in s[1..] ensures x in s && x != r {
      var i :| 0 <= i < |s[1..]| && s[1..][i] == x;
      assert s[0] < s[i + 1];
    }
    forall x | x in s && x != r ensures x in s[1..] {
      var i :| 0 <= i < |s| && s[i] == x;
      assert s[1..][i - 1] == x;
    }
  }

  lemma IncreasingPair(s: seq<int>, i: int, j: int)
    ensures Increasing(s) && 0 <= i < j < |s| ==> s[i] < s[j]
  {
  }

  lemma HeadIsMember(s: seq<int>)
    ensures s != [] ==> s[0] in s
  {
  }

  /** An increasing sequence of rows in [r, n) is determined by which rows it holds. */
  lemma {:induction false} IncreasingIsKeyRows(s: seq<int>, ts: seq<Triplet>, c: int, r: int, n: nat)
    requires 0 <= r && Increasing(s)
    requires forall x :: x in s <==> r <= x < n && HasKey(ts, x, c)
    decreases n - r
    ensures s == KeyRows(ts, c, r, n)
  {
    if r < n {
      if HasKey(ts, r, c) {
        IncreasingHead(s, r);
        var t := s[1..];
        assert Increasing(t);
        IncreasingIsKeyRows(t, ts, c, r + 1, n);
      } else {
        IncreasingIsKeyRows(s, ts, c, r + 1, n);
      }
    } else {
      HeadIsMember(s);
    }
  }

  /** Slot i of the export is the entry stored there, in the column that holds slot i. */
  lemma ExportSlot(m: Csc, n: nat, i: int) returns (c: int)
    requires Shape(m, n) && 0 <= i < |m.ai|
    ensures 0 <= c < n && m.ap[c] <= i < m.ap[c + 1]
    ensures ToTriplets(m, n)[i] == Triplet(m.ai[i], c, m.ax[i])
  {
    c := ColumnOfSlot(m, n, i);
    TripletsUpToAt(m, n, n, c, i);
  }

  /** A stored (r, c) appears in the export once, with its value. */
  lemma ExportStored(m: Csc, n: nat, r: int, c: int)
    requires WellFormed(m, n) && 0 <= r < n && 0 <= c < n && Stored(m, n, r, c)
    ensures HasKey(ToTriplets(m, n), r, c)
    ensures SumAt(ToTriplets(m, n), r, c) == Coeff(m, n, r, c)
  {
    var rows, vals := ColRows(m, n, c), ColVals(m, n, c);
    var q :| 0 <= q < |rows| && rows[q] == r;
    var p := m.ap[c] + q;
    var ts := ToTriplets(m, n);
    assert m.ai[p] == r && vals[q] == m.ax[p];
    TripletsUpToAt(m, n, n, c, p);
    assert ts[p] == Triplet(r, c, m.ax[p]);
    ExportOnce(m, n, c, q);
    SumAtOnly(ts, r, c, p);
    LookupAt(rows, vals, q);
    assert Coeff(m, n, r, c) == vals[q];
  }

  /** No other slot of the export addresses the entry stored at position q of column c. */
  lemma ExportOnce(m: Csc, n: nat, c: int, q: int)
    requires WellFormed(m, n) && 0 <= c < n && 0 <= q < m.ap[c + 1] - m.ap[c]
    ensures forall i :: 0 <= i < |ToTriplets(m, n)| && i != m.ap[c] + q ==>
      !(ToTriplets(m, n)[i].row == m.ai[m.ap[c] + q] && ToTriplets(m, n)[i].col == c)
  {
    var ts := ToTriplets(m, n);
    var rows := ColRows(m, n, c);
    forall i | 0 <= i < |ts| && i != m.ap[c] + q ensures !(ts[i].row == rows[q] && ts[i].col == c) {
      var c' := ExportSlot(m, n, i);
      if c' == c {
        var j := i - m.ap[c];
        assert rows[j] == m.ai[i];
        if j < q { assert rows[j] < rows[q]; } else { assert rows[q] < rows[j]; }
      }
    }
  }

  /** An entry that is not stored does not appear in the export. */
  lemma ExportAbsent(m: Csc, n: nat, r: int, c: int)
    requires WellFormed(m, n) && 0 <= r < n && 0 <= c < n && !Stored(m, n, r, c)
    ensures !HasKey(ToTriplets(m, n), r, c)
    ensures SumAt(ToTriplets(m, n), r, c) == Coeff(m, n, r, c)
  {
    var ts := ToTriplets(m, n);
    var rows, vals := ColRows(m, n, c), ColVals(m, n, c);
    forall i | 0 <= i < |ts| ensures !(ts[i].row == r && ts[i].col == c) {
      var c' := ExportSlot(m, n, i);
      if c' == c {
        assert rows[i - m.ap[c]] == m.ai[i];
      }
    }
    SumAtNoKey(ts, r, c);
    LookupAbsent(rows, vals, r);
  }

  /** The export holds (r, c) exactly when it is stored, with its value. */
  lemma ExportKeys(m: Csc, n: nat, r: int, c: int)
    requires WellFormed(m, n) && 0 <= r < n && 0 <= c < n
    ensures HasKey(ToTriplets(m, n), r, c) <==> Stored(m, n, r, c)
    ensures SumAt(ToTriplets(m, n), r, c) == Coeff(m, n, r, c)
  {
    if Stored(m, n, r, c) { ExportStored(m, n, r, c); } else { ExportAbsent(m, n, r, c); }
  }

  lemma ExportColumn(m: Csc, n: nat, c: int)
    requires WellFormed(m, n) && 0 <= c < n
    ensures KeyRows(ToTriplets(m, n), c, 0, n) == ColRows(m, n, c)
    ensures SumsOf(ToTriplets(m, n), ColRows(m, n, c), c) == ColVals(m, n, c)
  {
    var ts := ToTriplets(m, n);
    var rows, vals := ColRows(m, n, c), ColVals(m, n, c);
    forall x ensures x in rows <==> 0 <= x < n && HasKey(ts, x, c) {
      if x in rows {
        var q :| 0 <= q < |rows| && rows[q] == x;
        assert m.ai[m.ap[c] + q] == x;
      }
      if 0 <= x < n { ExportKeys(m, n, x, c); }
    }
    IncreasingIsKeyRows(rows, ts, c, 0, n);
    forall j | 0 <= j < |rows| ensures SumAt(ts, rows[j], c) == vals[j] {
      assert 0 <= rows[j] < n by { assert rows[j] == m.ai[m.ap[c] + j]; }
      ExportKeys(m, n, rows[j], c);
      LookupAt(rows, vals, j);
    }
    SumsMatch(ts, rows, vals, c, 0);
  }

  lemma {:induction false} SumsMatch(ts: seq<Triplet>, rows: seq<int>, vals: seq<Complex>, c: int, i: nat)
    requires |rows| == |vals| && i <= |rows|
    requires forall j :: i <= j < |rows| ==> SumAt(ts, rows[j], c) == vals[j]
    decreases |rows| - i
    ensures SumsOf(ts, rows[i..], c) == vals[i..]
  {
    if i < |rows| {
      SumsMatch(ts, rows, vals, c, i + 1);
      assert rows[i..][1..] == rows[i + 1..];
      assert vals[i..] == [vals[i]] + vals[i + 1..];
    }
  }

  /** Appending column c-1 to the first c-1 columns of m gives its first c columns. */
  lemma AppendColumn(m: Csc, n: nat, c: nat, prev: Csc, rows: seq<int>, vals: seq<Complex>)
    requires Shape(m, n) && 0 < c <= n
    requires prev == Csc(m.ap[..c], m.ai[..m.ap[c - 1]], m.ax[..m.ap[c - 1]])
    requires rows == m.ai[m.ap[c - 1]..m.ap[c]] && vals == m.ax[m.ap[c - 1]..m.ap[c]]
    ensures Csc(prev.ap + [|prev.ai| + |rows|], prev.ai + rows, prev.ax + vals) ==
            Csc(m.ap[..c + 1], m.ai[..m.ap[c]], m.ax[..m.ap[c]])
  {
    var lo, hi := m.ap[c - 1], m.ap[c];
    assert m.ap[c - 1] <= m.ap[c];
    assert m.ap[..c + 1] == m.ap[..c] + [hi];
    assert m.ai[..hi] == m.ai[..lo] + m.ai[lo..hi];
    assert m.ax[..hi] == m.ax[..lo] + m.ax[lo..hi];
  }

  /** Compacting ts gives the rows and values of column c of m. */
  predicate ColumnMatches(m: Csc, n: nat, ts: seq<Triplet>, c: int)
    requires Shape(m, n) && 0 <= c < n
  {
    KeyRows(ts, c, 0, n) == ColRows(m, n, c) && SumsOf(ts, ColRows(m, n, c), c) == ColVals(m, n, c)
  }

  /** Triplets whose every column compacts to the column of m compact to m's
      first c columns. */
  lemma {:induction false} ColumnsOfMatching(m: Csc, n: nat, ts: seq<Triplet>, c: nat)
    requires Shape(m, n) && c <= n
    requires forall c' :: 0 <= c' < n ==> ColumnMatches(m, n, ts, c')
    ensures Columns(ts, n, c) == Csc(m.ap[..c + 1], m.ai[..m.ap[c]], m.ax[..m.ap[c]])
  {
    if c > 0 {
      ColumnsOfMatching(m, n, ts, c - 1);
      ColumnsStep(m, n, ts, c);
    }
  }

  lemma ColumnsStep(m: Csc, n: nat, ts: seq<Triplet>, c: nat)
    requires Shape(m, n) && 0 < c <= n && ColumnMatches(m, n, ts, c - 1)
    requires Columns(ts, n, c - 1) == Csc(m.ap[..c], m.ai[..m.ap[c - 1]], m.ax[..m.ap[c - 1]])
    ensures Columns(ts, n, c) == Csc(m.ap[..c + 1], m.ai[..m.ap[c]], m.ax[..m.ap[c]])
  {
    var prev, rows, vals := Columns(ts, n, c - 1), ColRows(m, n, c - 1), ColVals(m, n, c - 1);
    assert Columns(ts, n, c) == Csc(prev.ap + [|prev.ai| + |rows|], prev.ai + rows, prev.ax + vals);
    AppendColumn(m, n, c, prev, rows, vals);
  }

  /** Exporting the compressed matrix as triplets and compacting them again
      gives back the same compressed matrix. */
  lemma RoundTrip(m: Csc, n: nat)
    requires WellFormed(m, n)
    ensures FromTriplets(ToTriplets(m, n), n) == m
  {
    var ts := ToTriplets(m, n);
    forall c' | 0 <= c' < n ensures ColumnMatches(m, n, ts, c') {
      ExportColumn(m, n, c');
    }
    ColumnsOfMatching(m, n, ts, n);
    assert m.ap[..n + 1] == m.ap && m.ai[..m.ap[n]] == m.ai && m.ax[..m.ap[n]] == m.ax;
  }
}
