/** What a sort of rows by keys promises, and the insertions that keep it (Dataset::sort of
    src/sl3/dataset.cpp). */
module RowSorts {
  import opened Orders
  import opened Results
  import opened RowOrders
  import opened Rows

  /** The rows can be sorted: every index exists in every row, and the row order is a strict weak
      order on them, as std::sort asks. */
  ghost predicate Sortable(idxs: seq<nat>, cmp: Comparator, f: seq<Row>) {
    KeysExist(idxs, iset r | r in f) && StrictWeakOrder(RowOrder(idxs, cmp), iset r | r in f)
  }

  ghost predicate IndexesExist(idxs: seq<nat>, f: seq<Row>) {
    forall q, k :: 0 <= q < |idxs| && 0 <= k < |f| ==> idxs[q] < |f[k]|
  }

  ghost predicate Sorted(less: (Row, Row) -> bool, f: seq<Row>, n: nat)
    requires n <= |f|
  {
    forall p, q :: 0 <= p < q < n ==> !less(f[q], f[p])
  }

  ghost predicate StrictlySorted(less: (Row, Row) -> bool, f: seq<Row>, n: nat)
    requires n <= |f|
  {
    forall p, q :: 0 <= p < q < n ==> less(f[p], f[q])
  }

  /** Two rows whose comparison gets to an index that one of them does not have. */
  ghost predicate BadComparison(idxs: seq<nat>, cmp: Comparator, s: seq<Row>) {
    exists a: Row, b: Row :: multiset{a, b} <= multiset(s) && CompareRows(idxs, cmp, a, b).Err?
  }

  /** No row has the index at p, and the rows can be sorted by the keys before it. */
  ghost predicate InvalidFrom(idxs: seq<nat>, cmp: Comparator, f: seq<Row>, p: nat) {
    p < |idxs| && (forall k :: 0 <= k < |f| ==> |f[k]| <= idxs[p]) && Sortable(idxs[..p], cmp, f)
  }

  ghost predicate TiedRows(less: (Row, Row) -> bool, f: seq<Row>) {
    exists a: Row, b: Row :: multiset{a, b} <= multiset(f) && Tie(less, a, b)
  }

  /** What may be left when a comparison throws while a row is in a temporary: the row is gone and
      its slot is empty, everything else is there. */
  ghost predicate OneRowLost(before: seq<Row>, after: seq<Row>) {
    exists h: nat, row: Row :: RowLostAt(before, after, h, row)
  }

  ghost predicate RowLostAt(before: seq<Row>, after: seq<Row>, h: nat, row: Row) {
    h < |after| && after[h] == [] && multiset(after[h := row]) == multiset(before)
  }

  /** How sorting by the keys idxs may end. This holds for any sort by comparisons: that an invalid
      index is noticed exactly when two rows tie in the keys before it, too, since rows that are
      neighbours in the result were compared. */
  ghost predicate SortEnds(idxs: seq<nat>, cmp: Option<Comparator>, before: seq<Row>, after: seq<Row>, r: Outcome) {
    if cmp.None? then r == Thrown(NullValueAccess) && after == before
    else
      && |after| == |before|
      && (IndexesExist(idxs, before) ==> r == Done)
      && (r == Done ==> multiset(after) == multiset(before))
      && (r == Done && Sortable(idxs, cmp.value, before) ==> Sorted(RowOrder(idxs, cmp.value), after, |after|))
      && (r != Done ==> r == Thrown(OutOfRange) && BadComparison(idxs, cmp.value, before))
      && (r != Done ==> multiset(after) == multiset(before) || OneRowLost(before, after))
      && forall p: nat :: InvalidFrom(idxs, cmp.value, before, p) ==>
           && (r != Done <==> TiedRows(RowOrder(idxs[..p], cmp.value), before))
           && (r == Done ==> StrictlySorted(RowOrder(idxs[..p], cmp.value), after, |after|))
  }

  // ----- rows of one width: whether a sort throws can be told before it

  /** The first index that is out of range for rows of that width. */
  ghost predicate FirstInvalid(idxs: seq<nat>, width: nat, p: nat) {
    p < |idxs| && idxs[p] >= width && forall q :: 0 <= q < p ==> idxs[q] < width
  }

  ghost predicate ThrowsAt(idxs: seq<nat>, cmp: Comparator, f: seq<Row>, width: nat, p: nat) {
    FirstInvalid(idxs, width, p) && TiedRows(RowOrder(idxs[..p], cmp), f)
  }

  /** The comparator is a strict weak order on the rows by the keys before an invalid index, which
      std::sort takes for granted. */
  ghost predicate ProperBefore(idxs: seq<nat>, cmp: Comparator, f: seq<Row>, width: nat) {
    forall p: nat :: FirstInvalid(idxs, width, p) ==> StrictWeakOrder(RowOrder(idxs[..p], cmp), iset r | r in f)
  }

  ghost predicate AllOfWidth(f: seq<Row>, width: nat) {
    forall k :: 0 <= k < |f| ==> |f[k]| == width
  }

  /** There are two rows that tie, or of a comparator that is no order, two rows that are compared
      at the invalid index. */
  ghost predicate MayThrow(idxs: seq<nat>, cmp: Comparator, f: seq<Row>, width: nat) {
    if ProperBefore(idxs, cmp, f, width) then exists p: nat :: ThrowsAt(idxs, cmp, f, width, p)
    else BadComparison(idxs, cmp, f)
  }

  lemma {:induction false} FindFirstInvalid(idxs: seq<nat>, width: nat, q: nat) returns (p: nat)
    requires q < |idxs| && idxs[q] >= width
    ensures FirstInvalid(idxs, width, p)
  {
    if n: nat :| n < q && idxs[n] >= width {
      p := FindFirstInvalid(idxs, width, n);
    } else {
      p := q;
    }
  }

  lemma InvalidFromFirst(idxs: seq<nat>, cmp: Comparator, f: seq<Row>, width: nat, p: nat)
    requires AllOfWidth(f, width) && FirstInvalid(idxs, width, p)
    requires StrictWeakOrder(RowOrder(idxs[..p], cmp), iset r | r in f)
    ensures InvalidFrom(idxs, cmp, f, p)
  {
  }

  lemma TiedIsBad(idxs: seq<nat>, cmp: Comparator, f: seq<Row>, width: nat, p: nat)
    requires AllOfWidth(f, width) && ThrowsAt(idxs, cmp, f, width, p)
    ensures BadComparison(idxs, cmp, f)
  {
    var a: Row, b: Row :| multiset{a, b} <= multiset(f) && Tie(RowOrder(idxs[..p], cmp), a, b);
    assert a in multiset(f) && b in multiset(f);
    CompareUpToInvalid(idxs, cmp, a, b, p);
  }

  /** It is one when the comparator is one on each of these columns. */
  lemma ProperByColumns(idxs: seq<nat>, cmp: Comparator, f: seq<Row>, width: nat)
    requires AllOfWidth(f, width)
    requires forall q :: 0 <= q < |idxs| && idxs[q] < width ==> StrictWeakOrder(cmp, Column((iset r | r in f), idxs[q]))
    ensures ProperBefore(idxs, cmp, f, width)
  {
    forall p: nat | FirstInvalid(idxs, width, p) ensures StrictWeakOrder(RowOrder(idxs[..p], cmp), iset r | r in f) {
      RowOrderIsStrictWeak(idxs[..p], cmp, iset r | r in f);
    }
  }

  /** A sort that throws was one that may throw. */
  lemma ThrownMayThrow(idxs: seq<nat>, cmp: Comparator, f: seq<Row>, after: seq<Row>, width: nat, r: Outcome)
    requires AllOfWidth(f, width) && SortEnds(idxs, Some(cmp), f, after, r) && r != Done
    ensures MayThrow(idxs, cmp, f, width)
  {
    if ProperBefore(idxs, cmp, f, width) {
      var q: nat, k: nat :| q < |idxs| && k < |f| && idxs[q] >= |f[k]|;
      var p := FindFirstInvalid(idxs, width, q);
      InvalidFromFirst(idxs, cmp, f, width, p);
      assert ThrowsAt(idxs, cmp, f, width, p);
    }
  }

  /** Sorting rows of one width throws exactly when two of them tie in the keys before the first
      invalid index. */
  lemma ThrowsExactly(idxs: seq<nat>, cmp: Comparator, f: seq<Row>, after: seq<Row>, width: nat, r: Outcome)
    requires AllOfWidth(f, width) && ProperBefore(idxs, cmp, f, width) && SortEnds(idxs, Some(cmp), f, after, r)
    ensures r != Done <==> exists p: nat :: ThrowsAt(idxs, cmp, f, width, p)
  {
    if r != Done { ThrownMayThrow(idxs, cmp, f, after, width, r); }
    forall p: nat | ThrowsAt(idxs, cmp, f, width, p) ensures r != Done {
      InvalidFromFirst(idxs, cmp, f, width, p);
    }
  }

  lemma MayThrowIsBad(idxs: seq<nat>, cmp: Comparator, f: seq<Row>, width: nat)
    requires AllOfWidth(f, width) && MayThrow(idxs, cmp, f, width)
    ensures BadComparison(idxs, cmp, f)
  {
    if p: nat :| ThrowsAt(idxs, cmp, f, width, p) { TiedIsBad(idxs, cmp, f, width, p); }
  }

  lemma BadHasRows(idxs: seq<nat>, cmp: Comparator, f: seq<Row>)
    requires BadComparison(idxs, cmp, f)
    ensures f != [] && !IndexesExist(idxs, f)
  {
    var a: Row, b: Row :| multiset{a, b} <= multiset(f) && CompareRows(idxs, cmp, a, b).Err?;
    assert a in multiset(f) && b in multiset(f);
    if IndexesExist(idxs, f) { IndexesExistFor(idxs, cmp, f, a, b); }
  }

  lemma FirstRowLost(f: seq<Row>)
    requires f != []
    ensures OneRowLost(f, f[0 := []])
  {
    assert f[0 := []][0 := f[0]] == f;
    assert RowLostAt(f, f[0 := []], 0, f[0]);
  }

  lemma InvalidIsFirst(idxs: seq<nat>, cmp: Comparator, f: seq<Row>, width: nat, p: nat)
    requires AllOfWidth(f, width) && f != [] && InvalidFrom(idxs, cmp, f, p) && MayThrow(idxs, cmp, f, width)
    ensures TiedRows(RowOrder(idxs[..p], cmp), f)
  {
    assert f[0] in f;
    forall q | 0 <= q < p ensures idxs[q] < width { assert idxs[..p][q] == idxs[q]; }
    assert FirstInvalid(idxs, width, p);
    assert forall n: nat :: FirstInvalid(idxs, width, n) ==> n == p;
  }

  /** A sort that may throw may lose a row. */
  lemma MayLoseRow(idxs: seq<nat>, cmp: Comparator, f: seq<Row>, width: nat) returns (after: seq<Row>)
    requires AllOfWidth(f, width) && MayThrow(idxs, cmp, f, width)
    ensures SortEnds(idxs, Some(cmp), f, after, Thrown(OutOfRange)) && OneRowLost(f, after)
  {
    MayThrowIsBad(idxs, cmp, f, width);
    BadHasRows(idxs, cmp, f);
    after := f[0 := []];
    FirstRowLost(f);
    forall p: nat | InvalidFrom(idxs, cmp, f, p) ensures TiedRows(RowOrder(idxs[..p], cmp), f) {
      InvalidIsFirst(idxs, cmp, f, width, p);
    }
  }

  // ----- insertion in a sorted prefix, on plain rows

  /** The row at i moved down to j; the rows between give way. */
  function MovedDown(s: seq<Row>, i: nat, j: nat): (f: seq<Row>)
    requires j <= i < |s|
    ensures |f| == |s|
  {
    s[..j] + [s[i]] + s[j..i] + s[i + 1..]
  }

  lemma MovedDownKeepsRows(s: seq<Row>, i: nat, j: nat)
    requires j <= i < |s|
    ensures multiset(MovedDown(s, i, j)) == multiset(s)
  {
    assert s == s[..j] + s[j..i] + [s[i]] + s[i + 1..];
  }

  /** The rows that are at k after the move. */
  lemma MovedDownIs(f: seq<Row>, s: seq<Row>, i: nat, j: nat)
    requires j <= i < |s| && |f| == |s|
    ensures f == MovedDown(s, i, j) <==>
            && f[j] == s[i]
            && (forall k :: 0 <= k < j ==> f[k] == s[k])
            && (forall k :: j < k <= i ==> f[k] == s[k - 1])
            && (forall k :: i < k < |s| ==> f[k] == s[k])
  {
  }

  lemma InsertionSorts(less: (Row, Row) -> bool, s: seq<Row>, i: nat, j: nat)
    requires j <= i < |s| && Sorted(less, s, i) && StrictWeakOrder(less, iset r | r in s)
    requires forall k :: j <= k < i ==> less(s[i], s[k])
    requires j > 0 ==> !less(s[i], s[j - 1])
    ensures Sorted(less, MovedDown(s, i, j), i + 1)
  {
    var all, f := (iset r | r in s), MovedDown(s, i, j);
    MovedDownIs(f, s, i, j);
    forall p, q | 0 <= p < q < i + 1 ensures !less(f[q], f[p]) {
      if p == j {
        NotBoth(less, all, s[i], s[q - 1]);
      } else if q == j && p < j - 1 {
        assert !less(s[j - 1], s[p]);
        NotLessTransitive(less, all, s[i], s[j - 1], s[p]);
      }
    }
  }

  lemma SameRows(f: seq<Row>, g: seq<Row>)
    requires multiset(f) == multiset(g)
    ensures |f| == |g|
    ensures forall r :: r in f <==> r in g
  {
    assert |multiset(f)| == |f| && |multiset(g)| == |g|;
    assert forall r :: r in f <==> r in multiset(f);
    assert forall r :: r in g <==> r in multiset(g);
  }

  lemma IndexesExistFor(idxs: seq<nat>, cmp: Comparator, f: seq<Row>, a: Row, b: Row)
    requires IndexesExist(idxs, f) && a in f && b in f
    ensures CompareRows(idxs, cmp, a, b).Ok?
  {
  }

  lemma PermutationKeeps(idxs: seq<nat>, cmp: Comparator, s: seq<Row>, f: seq<Row>)
    requires multiset(f) == multiset(s)
    ensures Sortable(idxs, cmp, s) <==> Sortable(idxs, cmp, f)
  {
    SameRows(f, s);
    assert (iset r | r in f) == (iset r | r in s);
  }

  lemma IndexesStay(idxs: seq<nat>, s: seq<Row>, f: seq<Row>)
    requires multiset(f) == multiset(s) && IndexesExist(idxs, s)
    ensures IndexesExist(idxs, f)
  {
    SameRows(f, s);
    forall q, k | 0 <= q < |idxs| && 0 <= k < |f| ensures idxs[q] < |f[k]| {
      assert f[k] in s;
    }
  }

  lemma PairOfRows(f: seq<Row>, i: nat, k: nat)
    requires k < i < |f|
    ensures multiset{f[i], f[k]} <= multiset(f)
  {
    assert f == f[..k] + [f[k]] + f[k + 1..i] + [f[i]] + f[i + 1..];
  }

  lemma {:induction false} CompareThrows(idxs: seq<nat>, cmp: Comparator, a: Row, b: Row)
    ensures CompareRows(idxs, cmp, a, b).Err? ==> CompareRows(idxs, cmp, a, b) == Err(OutOfRange)
  {
    if idxs != [] { CompareThrows(idxs[1..], cmp, a, b); }
  }

  // ----- one insertion

  /** From s to f, with the row at i put at j, or lost when the comparison with
      the row before j threw. */
  ghost predicate Inserted(idxs: seq<nat>, cmp: Comparator, s: seq<Row>, f: seq<Row>, i: nat, j: nat, r: Outcome) {
    && j <= i < |s|
    && (forall k :: j <= k < i ==> RowLess(idxs, cmp, s[i], s[k]))
    && (if j == 0 then r == Done
        else if r == Done then CompareRows(idxs, cmp, s[i], s[j - 1]) == Ok(false)
        else CompareRows(idxs, cmp, s[i], s[j - 1]) == Err(r.error))
    && f == if r == Done then MovedDown(s, i, j) else MovedDown(s, i, j)[j := []]
  }

  /** The rows of s while the one at i is in a temporary and its slot has moved down to n. */
  function WithHole(s: seq<Row>, i: nat, n: nat): (h: seq<Row>)
    requires n <= i < |s|
    ensures |h| == |s| && h[n] == []
    ensures forall k :: 0 <= k < n ==> h[k] == s[k]
  {
    MovedDown(s, i, n)[n := []]
  }

  lemma HoleMoves(s: seq<Row>, i: nat, n: nat)
    requires 0 < n <= i < |s|
    ensures WithHole(s, i, n)[n := s[n - 1]][n - 1 := []] == WithHole(s, i, n - 1)
  {
  }

  /** Putting the row back into the empty slot completes the insertion. */
  lemma InsertionCompletes(idxs: seq<nat>, cmp: Comparator, s: seq<Row>, i: nat, n: nat, r: Outcome)
    requires n <= i < |s|
    requires forall k :: n <= k < i ==> RowLess(idxs, cmp, s[i], s[k])
    requires if n == 0 then r == Done
             else if r == Done then CompareRows(idxs, cmp, s[i], s[n - 1]) == Ok(false)
             else CompareRows(idxs, cmp, s[i], s[n - 1]) == Err(r.error)
    ensures var h := WithHole(s, i, n);
            Inserted(idxs, cmp, s, if r == Done then h[n := s[i]] else h, i, n, r)
  {
  }

  /** What the sort has established before row i. */
  ghost predicate SortedUpTo(idxs: seq<nat>, cmp: Comparator, s: seq<Row>, f: seq<Row>, i: nat) {
    && multiset(f) == multiset(s) && |f| == |s| && i <= |f|
    && (Sortable(idxs, cmp, s) ==> Sorted(RowOrder(idxs, cmp), f, i))
  }

  lemma InsertionSucceeds(idxs: seq<nat>, cmp: Comparator, s: seq<Row>, f: seq<Row>, g: seq<Row>, i: nat, j: nat)
    requires SortedUpTo(idxs, cmp, s, f, i) && Inserted(idxs, cmp, f, g, i, j, Done)
    ensures SortedUpTo(idxs, cmp, s, g, i + 1)
  {
    MovedDownKeepsRows(f, i, j);
    if Sortable(idxs, cmp, s) {
      PermutationKeeps(idxs, cmp, s, f);
      InsertionSorts(RowOrder(idxs, cmp), f, i, j);
    }
  }

  lemma ThrowsOutOfRange(idxs: seq<nat>, cmp: Comparator, s: seq<Row>, f: seq<Row>, g: seq<Row>, i: nat, j: nat, r: Outcome)
    requires multiset(f) == multiset(s) && Inserted(idxs, cmp, f, g, i, j, r) && r != Done
    ensures r == Thrown(OutOfRange) && !IndexesExist(idxs, s)
  {
    CompareThrows(idxs, cmp, f[i], f[j - 1]);
    if IndexesExist(idxs, s) {
      IndexesStay(idxs, s, f);
      IndexesExistFor(idxs, cmp, f, f[i], f[j - 1]);
    }
  }

  lemma ThrowsAtPair(idxs: seq<nat>, cmp: Comparator, s: seq<Row>, f: seq<Row>, g: seq<Row>, i: nat, j: nat, r: Outcome)
    requires multiset(f) == multiset(s) && Inserted(idxs, cmp, f, g, i, j, r) && r != Done
    ensures BadComparison(idxs, cmp, s)
  {
    PairOfRows(f, i, j - 1);
  }

  lemma ThrowingLosesRow(idxs: seq<nat>, cmp: Comparator, s: seq<Row>, f: seq<Row>, g: seq<Row>, i: nat, j: nat, r: Outcome)
    requires multiset(f) == multiset(s) && Inserted(idxs, cmp, f, g, i, j, r) && r != Done
    ensures OneRowLost(s, g)
  {
    MovedDownKeepsRows(f, i, j);
    assert g[j := f[i]] == MovedDown(f, i, j);
    assert RowLostAt(s, g, j, f[i]);
  }

  lemma InsertionThrows(idxs: seq<nat>, cmp: Comparator, s: seq<Row>, f: seq<Row>, g: seq<Row>, i: nat, j: nat, r: Outcome)
    requires multiset(f) == multiset(s) && Inserted(idxs, cmp, f, g, i, j, r) && r != Done
    ensures r == Thrown(OutOfRange) && !IndexesExist(idxs, s) && OneRowLost(s, g) && BadComparison(idxs, cmp, s)
  {
    ThrowsOutOfRange(idxs, cmp, s, f, g, i, j, r);
    ThrowsAtPair(idxs, cmp, s, f, g, i, j, r);
    ThrowingLosesRow(idxs, cmp, s, f, g, i, j, r);
  }

  // ----- an invalid index: the sort throws exactly when two rows tie in the keys before it

  lemma InsertionStrictlySorts(less: (Row, Row) -> bool, s: seq<Row>, i: nat, j: nat)
    requires j <= i < |s| && StrictlySorted(less, s, i) && StrictWeakOrder(less, iset r | r in s)
    requires forall k :: j <= k < i ==> less(s[i], s[k])
    requires j > 0 ==> less(s[j - 1], s[i])
    ensures StrictlySorted(less, MovedDown(s, i, j), i + 1)
  {
    var f := MovedDown(s, i, j);
    MovedDownIs(f, s, i, j);
    forall p, q | 0 <= p < q < i + 1 ensures less(f[p], f[q]) {
      if q == j && p < j - 1 { assert less(s[p], s[j - 1]) && less(s[j - 1], s[i]); }
    }
  }

  lemma TwoPositions(f: seq<Row>, a: Row, b: Row) returns (i: nat, k: nat)
    requires multiset{a, b} <= multiset(f)
    ensures i < |f| && k < |f| && i != k && f[i] == a && f[k] == b
  {
    assert a in multiset(f);
    i :| i < |f| && f[i] == a;
    assert f == f[..i] + [a] + f[i + 1..];
    assert b in multiset(f[..i]) + multiset(f[i + 1..]);
    if b in f[..i] {
      k :| k < i && f[..i][k] == b;
    } else {
      var m: nat :| m < |f[i + 1..]| && f[i + 1..][m] == b;
      k := i + 1 + m;
    }
  }

  lemma StrictlySortedHasNoTies(less: (Row, Row) -> bool, f: seq<Row>)
    requires StrictlySorted(less, f, |f|)
    ensures !TiedRows(less, f)
  {
    forall a: Row, b: Row | multiset{a, b} <= multiset(f) ensures !Tie(less, a, b) {
      var i, k := TwoPositions(f, a, b);
    }
  }

  lemma InvalidInPermutation(idxs: seq<nat>, cmp: Comparator, s: seq<Row>, f: seq<Row>, p: nat)
    requires multiset(f) == multiset(s) && InvalidFrom(idxs, cmp, s, p)
    ensures InvalidFrom(idxs, cmp, f, p)
  {
    SameRows(f, s);
    PermutationKeeps(idxs[..p], cmp, s, f);
    forall k | 0 <= k < |f| ensures |f[k]| <= idxs[p] { assert f[k] in s; }
  }

  lemma CompareInvalid(idxs: seq<nat>, cmp: Comparator, f: seq<Row>, i: nat, k: nat, p: nat)
    requires InvalidFrom(idxs, cmp, f, p) && i < |f| && k < |f|
    ensures var less := RowOrder(idxs[..p], cmp);
            CompareRows(idxs, cmp, f[i], f[k]) == if less(f[i], f[k]) then Ok(true)
                                                  else if less(f[k], f[i]) then Ok(false)
                                                  else Err(OutOfRange)
  {
    assert f[i] in f && f[k] in f;
    CompareUpToInvalid(idxs, cmp, f[i], f[k], p);
  }

  /** What the sort has established before row i, when there is an invalid index. */
  ghost predicate DistinctUpTo(idxs: seq<nat>, cmp: Comparator, s: seq<Row>, f: seq<Row>, i: nat)
    requires i <= |f|
  {
    forall p: nat :: InvalidFrom(idxs, cmp, s, p) ==> StrictlySorted(RowOrder(idxs[..p], cmp), f, i)
  }

  lemma InsertionDistinguishes(idxs: seq<nat>, cmp: Comparator, s: seq<Row>, f: seq<Row>, g: seq<Row>, i: nat, j: nat)
    requires SortedUpTo(idxs, cmp, s, f, i) && DistinctUpTo(idxs, cmp, s, f, i) && Inserted(idxs, cmp, f, g, i, j, Done)
    ensures DistinctUpTo(idxs, cmp, s, g, i + 1)
  {
    forall p: nat | InvalidFrom(idxs, cmp, s, p) ensures StrictlySorted(RowOrder(idxs[..p], cmp), g, i + 1) {
      var less := RowOrder(idxs[..p], cmp);
      InvalidInPermutation(idxs, cmp, s, f, p);
      forall k | j <= k < i ensures less(f[i], f[k]) { CompareInvalid(idxs, cmp, f, i, k, p); }
      if j > 0 { CompareInvalid(idxs, cmp, f, i, j - 1, p); }
      InsertionStrictlySorts(less, f, i, j);
    }
  }

  lemma ThrowsAtTie(idxs: seq<nat>, cmp: Comparator, s: seq<Row>, f: seq<Row>, g: seq<Row>, i: nat, j: nat, r: Outcome, p: nat)
    requires multiset(f) == multiset(s) && Inserted(idxs, cmp, f, g, i, j, r) && r != Done && InvalidFrom(idxs, cmp, s, p)
    ensures TiedRows(RowOrder(idxs[..p], cmp), s)
  {
    InvalidInPermutation(idxs, cmp, s, f, p);
    CompareInvalid(idxs, cmp, f, i, j - 1, p);
    PairOfRows(f, i, j - 1);
  }

  lemma DoneHasNoTies(idxs: seq<nat>, cmp: Comparator, s: seq<Row>, f: seq<Row>, p: nat)
    requires multiset(f) == multiset(s) && DistinctUpTo(idxs, cmp, s, f, |f|) && InvalidFrom(idxs, cmp, s, p)
    ensures !TiedRows(RowOrder(idxs[..p], cmp), s)
  {
    StrictlySortedHasNoTies(RowOrder(idxs[..p], cmp), f);
  }
}
