/** Dataset::sort with its default comparator, dbval_lt (include/sl3/dataset.hpp). */
module DefaultSort {
  import opened DatasetObjects
  import opened Datasets
  import opened Doubles
  import opened Orders
  import opened Results
  import opened RowOrders
  import opened RowSorts
  import opened Rows
  import opened TypedValueOrders
  import opened TypedValues
  import opened ValueOrders
  import opened Values

  ghost function ValuesOf(s: iset<DbVal>): iset<Val> {
    iset d | d in s :: d.val
  }

  /** The values of a key column. */
  ghost function KeyValues(f: seq<Row>, k: nat): iset<Val> {
    ValuesOf(Column((iset r | r in f), k))
  }

  lemma DbValLtOnValues(s: iset<DbVal>)
    ensures StrictWeakOrder(DbValLt, s) <==> StrictWeakOrder(ValueLt, ValuesOf(s))
  {
    var t := ValuesOf(s);
    assert forall d :: d in s ==> d.val in t;
    if StrictWeakOrder(ValueLt, t) {
      assert forall a, b :: Tie(DbValLt, a, b) <==> Tie(ValueLt, a.val, b.val);
    }
    if StrictWeakOrder(DbValLt, s) {
      LtPartial(t);
      forall x, y, z | x in t && y in t && z in t && Tie(ValueLt, x, y) && Tie(ValueLt, y, z)
        ensures Tie(ValueLt, x, z)
      {
        var a :| a in s && a.val == x;
        var b :| b in s && b.val == y;
        var c :| c in s && c.val == z;
        assert Tie(DbValLt, a, b) && Tie(DbValLt, b, c);
        assert Tie(DbValLt, a, c);
      }
    }
  }

  // ----- several keys: a clash is harmful when no key before it and no key after it decides

  /** Two different Ints that are rounded to the Real. */
  predicate Clash(x: Val, y: Val, z: Val) {
    x.IntVal? && y.IntVal? && z.RealVal? && x.i < y.i && ToDouble(x.i) == z.d == ToDouble(y.i)
  }

  /** A clash of three rows at key p, which tie in all keys before. */
  ghost predicate ClashAt(idxs: seq<nat>, a: Row, b: Row, c: Row, p: nat) {
    && p < |idxs| && idxs[p] < |a| && idxs[p] < |b| && idxs[p] < |c|
    && TiesBefore(idxs, DbValLt, a, b, p) && TiesBefore(idxs, DbValLt, b, c, p) && TiesBefore(idxs, DbValLt, a, c, p)
    && Clash(a[idxs[p]].val, b[idxs[p]].val, c[idxs[p]].val)
  }

  /** The keys after p put c neither behind the lower one nor before the higher one. */
  ghost predicate UndecidedAt(idxs: seq<nat>, a: Row, b: Row, c: Row, p: nat) {
    ClashAt(idxs, a, b, c, p) && !RowLess(idxs, DbValLt, a, c) && !RowLess(idxs, DbValLt, c, b)
  }

  ghost predicate UndecidedClash(idxs: seq<nat>, f: seq<Row>) {
    exists a: Row, b: Row, c: Row, p: nat :: a in f && b in f && c in f && UndecidedAt(idxs, a, b, c, p)
  }

  ghost predicate OrderedKeys(idxs: seq<nat>, r: Row) {
    forall q :: 0 <= q < |idxs| ==> idxs[q] < |r| && Ordered(r[idxs[q]].val)
  }

  lemma BetweenTies(x: Val, y: Val, z: Val)
    requires Ordered(x) && Ordered(y) && Ordered(z) && ValueLt(x, y) && Tie(ValueLt, x, z) && Tie(ValueLt, z, y)
    ensures Clash(x, y, z)
  {
    EqIsTie(x, z);
    EqIsTie(z, y);
    EqIsTie(x, y);
  }

  lemma {:induction false} RowLessOneWay(idxs: seq<nat>, a: Row, b: Row)
    requires OrderedKeys(idxs, a) && OrderedKeys(idxs, b) && RowLess(idxs, DbValLt, a, b)
    ensures !RowLess(idxs, DbValLt, b, a)
  {
    if idxs != [] {
      var x, y := a[idxs[0]].val, b[idxs[0]].val;
      LtWithinTypeLt(x, y);
      LtWithinTypeLt(y, x);
      TypeLtTotal(x, y);
      if !ValueLt(x, y) {
        assert OrderedKeys(idxs[1..], a) && OrderedKeys(idxs[1..], b);
        RowLessOneWay(idxs[1..], a, b);
      }
    }
  }

  lemma UndecidedShift(idxs: seq<nat>, a: Row, b: Row, c: Row, p: nat)
    requires idxs != [] && idxs[0] < |a| && idxs[0] < |b| && idxs[0] < |c|
    requires var k := idxs[0]; Tie(DbValLt, a[k], b[k]) && Tie(DbValLt, b[k], c[k]) && Tie(DbValLt, a[k], c[k])
    requires UndecidedAt(idxs[1..], a, b, c, p)
    ensures UndecidedAt(idxs, a, b, c, p + 1)
  {
    TiesBeforeShift(idxs, DbValLt, a, b, p);
    TiesBeforeShift(idxs, DbValLt, b, c, p);
    TiesBeforeShift(idxs, DbValLt, a, c, p);
  }

  /** When a is less than b and yet c lies between neither way, three of these rows clash. */
  lemma {:induction false} NothingBetween(idxs: seq<nat>, a: Row, b: Row, c: Row) returns (x: Row, y: Row, z: Row, p: nat)
    requires OrderedKeys(idxs, a) && OrderedKeys(idxs, b) && OrderedKeys(idxs, c)
    requires RowLess(idxs, DbValLt, a, b) && !RowLess(idxs, DbValLt, a, c) && !RowLess(idxs, DbValLt, c, b)
    ensures x in {a, b, c} && y in {a, b, c} && z in {a, b, c} && UndecidedAt(idxs, x, y, z, p)
  {
    var k, rest := idxs[0], idxs[1..];
    var u, v, w := a[k].val, b[k].val, c[k].val;
    RowLessOneWay(idxs, a, b);
    LtPartial(iset{u, v, w});
    if Tie(ValueLt, u, v) && Tie(ValueLt, v, w) && Tie(ValueLt, u, w) {
      assert OrderedKeys(rest, a) && OrderedKeys(rest, b) && OrderedKeys(rest, c);
      x, y, z, p := NothingBetween(rest, a, b, c);
      UndecidedShift(idxs, x, y, z, p);
      p := p + 1;
    } else {
      p := 0;
      if ValueLt(u, v) {
        x, y, z := a, b, c;
      } else if ValueLt(w, u) {
        x, y, z := c, a, b;
      } else {
        x, y, z := b, c, a;
      }
      BetweenTies(x[k].val, y[k].val, z[k].val);
    }
  }

  lemma KeysOfRow(idxs: seq<nat>, f: seq<Row>, r: Row)
    requires IndexesExist(idxs, f) && r in f
    requires forall q :: 0 <= q < |idxs| ==> KeyValues(f, idxs[q]) <= ALL_ORDERED
    ensures OrderedKeys(idxs, r)
  {
    forall q | 0 <= q < |idxs| ensures idxs[q] < |r| && Ordered(r[idxs[q]].val) {
      var i :| 0 <= i < |f| && f[i] == r;
      assert r[idxs[q]] in Column((iset r | r in f), idxs[q]);
      assert r[idxs[q]].val in KeyValues(f, idxs[q]);
    }
  }

  lemma UndecidedIsLess(idxs: seq<nat>, a: Row, b: Row, c: Row, p: nat)
    requires UndecidedAt(idxs, a, b, c, p)
    ensures RowLess(idxs, DbValLt, a, b)
  {
    CompareRowsIsLexicographic(idxs, DbValLt, a, b);
    assert DecidedAt(idxs, DbValLt, a, b, p);
  }

  lemma LessSplits(idxs: seq<nat>, f: seq<Row>, a: Row, b: Row, c: Row)
    requires !UndecidedClash(idxs, f) && a in f && b in f && c in f && RowLess(idxs, DbValLt, a, b)
    requires OrderedKeys(idxs, a) && OrderedKeys(idxs, b) && OrderedKeys(idxs, c)
    ensures RowLess(idxs, DbValLt, a, c) || RowLess(idxs, DbValLt, c, b)
  {
    if !RowLess(idxs, DbValLt, a, c) && !RowLess(idxs, DbValLt, c, b) {
      var x, y, z, p := NothingBetween(idxs, a, b, c);
      assert false;
    }
  }

  /** Rows without NaN in the key columns can be sorted by the default comparator exactly when no
      clash of three rows is left undecided by the keys before and after it. */
  lemma DefaultSortableIff(idxs: seq<nat>, f: seq<Row>)
    requires IndexesExist(idxs, f)
    requires forall q :: 0 <= q < |idxs| ==> KeyValues(f, idxs[q]) <= ALL_ORDERED
    ensures Sortable(idxs, DbValLt, f) <==> !UndecidedClash(idxs, f)
  {
    forall r | r in f ensures OrderedKeys(idxs, r) { KeysOfRow(idxs, f, r); }
    if UndecidedClash(idxs, f) {
      var a: Row, b: Row, c: Row, p: nat :| a in f && b in f && c in f && UndecidedAt(idxs, a, b, c, p);
      UndecidedIsLess(idxs, a, b, c, p);
      if Sortable(idxs, DbValLt, f) {
        NotLessTransitive(RowOrder(idxs, DbValLt), (iset r | r in f), a, c, b);
      }
    } else {
      WithoutUndecided(idxs, f);
    }
  }

  lemma WithoutUndecided(idxs: seq<nat>, f: seq<Row>)
    requires !UndecidedClash(idxs, f) && forall r :: r in f ==> OrderedKeys(idxs, r)
    ensures Sortable(idxs, DbValLt, f)
  {
    forall a, b | a in f && b in f && RowLess(idxs, DbValLt, a, b) ensures !RowLess(idxs, DbValLt, b, a) {
      RowLessOneWay(idxs, a, b);
    }
    forall a, b, c | a in f && b in f && c in f && RowLess(idxs, DbValLt, a, b)
      ensures RowLess(idxs, DbValLt, a, c) || RowLess(idxs, DbValLt, c, b)
    {
      LessSplits(idxs, f, a, b, c);
    }
    NegativelyTransitive(RowOrder(idxs, DbValLt), iset r | r in f);
  }

  lemma NegativelyTransitive(lt: (Row, Row) -> bool, rows: iset<Row>)
    requires forall a, b :: a in rows && b in rows && lt(a, b) ==> !lt(b, a)
    requires forall a, b, c :: a in rows && b in rows && c in rows && lt(a, b) ==> lt(a, c) || lt(c, b)
    ensures StrictWeakOrder(lt, rows)
  {
  }

  lemma ColumnClash(k: nat, f: seq<Row>)
    requires RoundingClash(KeyValues(f, k))
    ensures UndecidedClash([k], f)
  {
    var i: Int64, j: Int64, d: Double :| i < j && IntVal(i) in KeyValues(f, k) && IntVal(j) in KeyValues(f, k)
                                         && RealVal(d) in KeyValues(f, k) && ToDouble(i) == d == ToDouble(j);
    var a, b, c := RowWith(f, k, IntVal(i)), RowWith(f, k, IntVal(j)), RowWith(f, k, RealVal(d));
    OneKey(k, a, c);
    OneKey(k, c, b);
    assert !ValueLt(IntVal(i), RealVal(d)) && !ValueLt(RealVal(d), IntVal(j));
    assert ClashAt([k], a, b, c, 0);
    assert UndecidedAt([k], a, b, c, 0);
  }

  lemma OneKey(k: nat, a: Row, b: Row)
    requires k < |a| && k < |b|
    ensures RowLess([k], DbValLt, a, b) <==> ValueLt(a[k].val, b[k].val)
  {
    assert CompareRows([k][1..], DbValLt, a, b) == Ok(false);
  }

  lemma ClashInColumn(k: nat, f: seq<Row>)
    requires UndecidedClash([k], f)
    ensures RoundingClash(KeyValues(f, k))
  {
    var a: Row, b: Row, c: Row, p: nat :| a in f && b in f && c in f && UndecidedAt([k], a, b, c, p);
    forall r: Row | r in f && k < |r| ensures r[k].val in KeyValues(f, k) {
      assert r[k] in Column((iset r | r in f), k);
    }
    assert IntVal(a[k].val.i) in KeyValues(f, k) && IntVal(b[k].val.i) in KeyValues(f, k) && RealVal(c[k].val.d) in KeyValues(f, k);
  }

  /** With one key that is when the column has no two Ints rounded to a Real of the column. */
  lemma DefaultSortableByOne(k: nat, f: seq<Row>)
    requires IndexesExist([k], f) && KeyValues(f, k) <= ALL_ORDERED
    ensures Sortable([k], DbValLt, f) <==> !RoundingClash(KeyValues(f, k))
  {
    DefaultSortableIff([k], f);
    if RoundingClash(KeyValues(f, k)) { ColumnClash(k, f); }
    if UndecidedClash([k], f) { ClashInColumn(k, f); }
  }

  ghost function RowWith(f: seq<Row>, k: nat, v: Val): (r: Row)
    requires v in KeyValues(f, k)
    ensures r in f && k < |r| && r[k].val == v
  {
    var d :| d in Column((iset r | r in f), k) && d.val == v;
    var r: Row :| r in f && k < |r| && r[k] == d;
    r
  }

  /** With several, it is enough that no key column has such a clash. */
  lemma DefaultSortableWithoutClash(idxs: seq<nat>, f: seq<Row>)
    requires IndexesExist(idxs, f)
    requires forall q :: 0 <= q < |idxs| ==> KeyValues(f, idxs[q]) <= ALL_ORDERED && !RoundingClash(KeyValues(f, idxs[q]))
    ensures Sortable(idxs, DbValLt, f)
  {
    var rows := iset r | r in f;
    forall r | r in f ensures OrderedKeys(idxs, r) { KeysOfRow(idxs, f, r); }
    forall q | 0 <= q < |idxs| ensures StrictWeakOrder(DbValLt, Column(rows, idxs[q])) {
      DbValLtOnValues(Column(rows, idxs[q]));
      LtStrictWeakIff(KeyValues(f, idxs[q]));
    }
    RowOrderIsStrictWeak(idxs, DbValLt, rows);
  }

  /** So it sorts whenever the Ints of each key column lie within 2^53, or the column does not mix
      Int and Real. */
  lemma DefaultSortable(idxs: seq<nat>, f: seq<Row>)
    requires IndexesExist(idxs, f)
    requires forall q :: 0 <= q < |idxs| ==>
               var values := KeyValues(f, idxs[q]);
               values <= ALL_ORDERED && (IntsWithin(values, SIGNIFICAND) || !MixesIntAndReal(values))
    ensures Sortable(idxs, DbValLt, f)
  {
    forall q | 0 <= q < |idxs| ensures !RoundingClash(KeyValues(f, idxs[q])) {
      LtStrictWeak(KeyValues(f, idxs[q]));
      LtStrictWeakIff(KeyValues(f, idxs[q]));
    }
    DefaultSortableWithoutClash(idxs, f);
  }

  lemma ClashTies(idxs: seq<nat>, a: Row, b: Row, c: Row, p: nat)
    ensures ClashAt(idxs, a, b, c, p) && p > 0 ==> idxs[0] < |a| && idxs[0] < |b| && Tie(DbValLt, a[idxs[0]], b[idxs[0]])
  {
  }

  function TwoCells(x: Val, y: Val): Row {
    [DbVal(Variant, x), DbVal(Variant, y)]
  }

  /** It is not necessary: here the second column has a clash, but the first one decides. */
  lemma ClashDecidedBefore()
    ensures var f := [TwoCells(IntVal(1), IntVal(SIGNIFICAND)), TwoCells(IntVal(2), IntVal(SIGNIFICAND + 1)),
                      TwoCells(IntVal(3), RealVal(Fin(SIGNIFICAND as real)))];
            Sortable([0, 1], DbValLt, f) && RoundingClash(KeyValues(f, 1))
  {
    var f := [TwoCells(IntVal(1), IntVal(SIGNIFICAND)), TwoCells(IntVal(2), IntVal(SIGNIFICAND + 1)),
              TwoCells(IntVal(3), RealVal(Fin(SIGNIFICAND as real)))];
    forall a: Row, b: Row, c: Row, p: nat | a in f && b in f && c in f
      ensures !UndecidedAt([0, 1], a, b, c, p)
    {
      ClashTies([0, 1], a, b, c, p);
    }
    DefaultSortableIff([0, 1], f);
    ToDoubleTie();
    ToDoubleExact(SIGNIFICAND);
    forall r: Row | r in f ensures r[1].val in KeyValues(f, 1) {
      assert r[1] in Column((iset r | r in f), 1);
    }
    assert f[0][1].val in KeyValues(f, 1) && f[1][1].val in KeyValues(f, 1) && f[2][1].val in KeyValues(f, 1);
  }

  // ----- sorted by the default comparator, and sorted by the rules of SQLite

  /** No row is before one that is less by SQLite's rules. */
  ghost predicate FollowsSqlite(k: nat, f: seq<Row>) {
    forall p, q :: 0 <= p < q < |f| ==> !SqliteLess(KeyOf(k, f[q]), KeyOf(k, f[p]))
  }

  function KeyOf(k: nat, r: Row): Val {
    if k < |r| then r[k].val else NullVal
  }

  /** An Int that is rounded to a different Real. */
  predicate RoundedTo(x: Val, y: Val) {
    RoundedDownTo(x, y) || RoundedUpTo(x, y)
  }

  ghost predicate HiddenDifference(k: nat, f: seq<Row>) {
    exists p: nat, q: nat :: p < |f| && q < |f| && RoundedTo(KeyOf(k, f[p]), KeyOf(k, f[q]))
  }

  ghost predicate ProperKeys(k: nat, f: seq<Row>) {
    forall p :: 0 <= p < |f| ==> k < |f[p]| && Proper(f[p][k].val) && Ordered(f[p][k].val)
  }

  /** What the sort by one key may leave. */
  ghost predicate SortedFrom(k: nat, f: seq<Row>, g: seq<Row>) {
    multiset(g) == multiset(f) && Sorted(RowOrder([k], DbValLt), g, |g|)
  }

  lemma LtByKey(k: nat, a: Row, b: Row)
    requires k < |a| && k < |b|
    ensures RowOrder([k], DbValLt)(a, b) <==> ValueLt(KeyOf(k, a), KeyOf(k, b))
  {
    OneKey(k, a, b);
  }

  lemma SortedWithoutHidden(k: nat, f: seq<Row>)
    requires ProperKeys(k, f) && !HiddenDifference(k, f) && Sorted(RowOrder([k], DbValLt), f, |f|)
    ensures FollowsSqlite(k, f)
  {
    forall p, q | 0 <= p < q < |f| ensures !SqliteLess(KeyOf(k, f[q]), KeyOf(k, f[p])) {
      LtByKey(k, f[q], f[p]);
      LtFollowsTheRules(KeyOf(k, f[q]), KeyOf(k, f[p]));
    }
  }

  /** Rows that tie may change places. */
  lemma SwapTied(less: (Row, Row) -> bool, f: seq<Row>, p: nat, q: nat)
    requires p < q < |f| && Sorted(less, f, |f|) && StrictWeakOrder(less, iset r | r in f) && Tie(less, f[p], f[q])
    ensures Sorted(less, f[p := f[q]][q := f[p]], |f|)
  {
    var all, g := (iset r | r in f), f[p := f[q]][q := f[p]];
    forall x, y | 0 <= x < y < |f| ensures !less(g[y], g[x]) {
      var i, j := if x == p then q else if x == q then p else x, if y == p then q else if y == q then p else y;
      assert g[x] == f[i] && g[y] == f[j];
      if x == p && y != q {
        NotLessTransitive(less, all, f[y], f[p], f[q]);
      } else if x == q {
        NotLessTransitive(less, all, f[y], f[q], f[p]);
      } else if y == p {
        NotLessTransitive(less, all, f[q], f[p], f[x]);
      } else if y == q && x != p {
        NotLessTransitive(less, all, f[p], f[q], f[x]);
      }
    }
  }

  lemma SwapKeepsRows(f: seq<Row>, p: nat, q: nat)
    requires p < q < |f|
    ensures multiset(f[p := f[q]][q := f[p]]) == multiset(f)
  {
  }

  /** What ties and is yet less by the rules can be left in the wrong order. */
  lemma TiedInversion(k: nat, f: seq<Row>, p: nat, q: nat) returns (g: seq<Row>)
    requires p < |f| && q < |f| && p != q && Sortable([k], DbValLt, f) && Sorted(RowOrder([k], DbValLt), f, |f|)
    requires Tie(RowOrder([k], DbValLt), f[p], f[q]) && SqliteLess(KeyOf(k, f[p]), KeyOf(k, f[q]))
    ensures SortedFrom(k, f, g) && !FollowsSqlite(k, g)
  {
    if q < p {
      g := f;
    } else {
      SwapTied(RowOrder([k], DbValLt), f, p, q);
      SwapKeepsRows(f, p, q);
      g := f[p := f[q]][q := f[p]];
      assert SqliteLess(KeyOf(k, g[q]), KeyOf(k, g[p]));
    }
  }

  lemma HiddenInverts(k: nat, f: seq<Row>) returns (g: seq<Row>)
    requires ProperKeys(k, f) && HiddenDifference(k, f)
    requires Sortable([k], DbValLt, f) && Sorted(RowOrder([k], DbValLt), f, |f|)
    ensures SortedFrom(k, f, g) && !FollowsSqlite(k, g)
  {
    var p: nat, q: nat :| p < |f| && q < |f| && RoundedTo(KeyOf(k, f[p]), KeyOf(k, f[q]));
    LtByKey(k, f[p], f[q]);
    LtByKey(k, f[q], f[p]);
    if RoundedDownTo(KeyOf(k, f[p]), KeyOf(k, f[q])) {
      g := TiedInversion(k, f, q, p);
    } else {
      g := TiedInversion(k, f, p, q);
    }
  }

  lemma KeysInPermutation(k: nat, f: seq<Row>, g: seq<Row>)
    requires multiset(g) == multiset(f)
    ensures ProperKeys(k, f) ==> ProperKeys(k, g)
    ensures HiddenDifference(k, g) ==> HiddenDifference(k, f)
  {
    SameRows(f, g);
    forall p | 0 <= p < |g| ensures g[p] in f {
      assert g[p] in g;
    }
    if p: nat, q: nat :| p < |g| && q < |g| && RoundedTo(KeyOf(k, g[p]), KeyOf(k, g[q])) {
      var i: nat :| i < |f| && f[i] == g[p];
      var j: nat :| j < |f| && f[j] == g[q];
      assert RoundedTo(KeyOf(k, f[i]), KeyOf(k, f[j]));
    }
  }

  /** Rows that can be sorted by one key, none of them NaN: whatever the sort leaves is sorted by
      the rules of SQLite, exactly when no Int of the column is rounded to a different Real of it. */
  lemma SortFollowsSqliteIff(k: nat, f: seq<Row>)
    requires ProperKeys(k, f) && Sortable([k], DbValLt, f) && Sorted(RowOrder([k], DbValLt), f, |f|)
    ensures (forall g :: SortedFrom(k, f, g) ==> FollowsSqlite(k, g)) <==> !HiddenDifference(k, f)
  {
    if HiddenDifference(k, f) {
      var g := HiddenInverts(k, f);
    } else {
      forall g | SortedFrom(k, f, g) ensures FollowsSqlite(k, g) {
        KeysInPermutation(k, f, g);
        SortedWithoutHidden(k, g);
      }
    }
  }

  function OneCell(v: Val): Row {
    [DbVal(Variant, v)]
  }

  /** 2^53 + 1 before the Real 2^53 is sorted to the default comparator, and not to SQLite. */
  lemma SortedAgainstSqlite()
    ensures var f := [OneCell(IntVal(SIGNIFICAND + 1)), OneCell(RealVal(Fin(SIGNIFICAND as real)))];
            Sortable([0], DbValLt, f) && Sorted(RowOrder([0], DbValLt), f, |f|) && !FollowsSqlite(0, f)
  {
    var f := [OneCell(IntVal(SIGNIFICAND + 1)), OneCell(RealVal(Fin(SIGNIFICAND as real)))];
    RulesAreBroken();
    LtByKey(0, f[1], f[0]);
    assert SqliteLess(KeyOf(0, f[1]), KeyOf(0, f[0]));
    assert forall v :: v in KeyValues(f, 0) ==> v == KeyOf(0, f[0]) || v == KeyOf(0, f[1]);
    DefaultSortableByOne(0, f);
  }

  // ----- an invalid index is documented to throw

  function IntRow(i: Int64): Row {
    [DbVal(Int, IntVal(i))]
  }

  function IntRows(values: seq<Int64>): (f: seq<Row>)
    ensures |f| == |values| && forall k :: 0 <= k < |f| ==> f[k] == IntRow(values[k])
  {
    seq(|values|, k requires 0 <= k < |values| => IntRow(values[k]))
  }

  lemma IntRowsInvalid(values: seq<Int64>)
    ensures InvalidFrom([0, 99], DbValLt, IntRows(values), 1)
  {
    var f := IntRows(values);
    assert [0, 99][..1] == [0];
    assert !RoundingClash(KeyValues(f, 0));
    DefaultSortableByOne(0, f);
  }

  predicate Repeated(values: seq<Int64>, i: int, k: int) {
    0 <= k < i < |values| && values[i] == values[k]
  }

  lemma RepeatedTies(values: seq<Int64>, i: int, k: int)
    requires Repeated(values, i, k)
    ensures TiedRows(RowOrder([0], DbValLt), IntRows(values))
  {
    var f := IntRows(values);
    PairOfRows(f, i, k);
    OneKey(0, f[i], f[k]);
    assert Tie(RowOrder([0], DbValLt), f[i], f[k]);
  }

  lemma TiedInts(x: Int64, y: Int64)
    requires Tie(RowOrder([0], DbValLt), IntRow(x), IntRow(y))
    ensures x == y
  {
    OneKey(0, IntRow(x), IntRow(y));
    OneKey(0, IntRow(y), IntRow(x));
  }

  lemma TiedRepeats(values: seq<Int64>) returns (i: int, k: int)
    requires TiedRows(RowOrder([0], DbValLt), IntRows(values))
    ensures Repeated(values, i, k)
  {
    var f := IntRows(values);
    var a: Row, b: Row :| multiset{a, b} <= multiset(f) && Tie(RowOrder([0], DbValLt), a, b);
    i, k := TwoPositions(f, a, b);
    TiedInts(values[i], values[k]);
    if i < k { i, k := k, i; }
  }

  lemma IntRowsTied(values: seq<Int64>)
    ensures TiedRows(RowOrder([0], DbValLt), IntRows(values)) <==> exists i, k :: Repeated(values, i, k)
  {
    forall i, k | Repeated(values, i, k) ensures TiedRows(RowOrder([0], DbValLt), IntRows(values)) {
      RepeatedTies(values, i, k);
    }
    if TiedRows(RowOrder([0], DbValLt), IntRows(values)) {
      var i, k := TiedRepeats(values);
    }
  }

  method IntColumn(values: seq<Int64>) returns (ds: Dataset)
    ensures fresh(ds) && ds.Valid() && ds.State() == Data([Int], [], IntRows(values))
    ensures forall n :: 0 <= n < |ds.rows| ==> fresh(ds.rows[n])
  {
    ds := new Dataset([Int]);
    for i := 0 to |values|
      invariant fresh(ds) && ds.Valid() && ds.State() == Data([Int], [], IntRows(values[..i]))
      invariant forall n :: 0 <= n < |ds.rows| ==> fresh(ds.rows[n])
    {
      var row := new DbValues(IntRow(values[i]));
      var merged := ds.MergeRow(row);
      assert IntRows(values[..i]) + [IntRow(values[i])] == IntRows(values[..i + 1]);
    }
    assert values[..|values|] == values;
  }

  /** A dataset of one Int column, sorted by that column and by index 99, which no row has: this
      throws exactly when a value occurs twice. Then a row may be gone and an empty one there, so
      that the dataset does not follow its schema any more. */
  method SortByInvalidIndex(values: seq<Int64>) returns (r: Outcome, ds: Dataset)
    ensures ds.Valid() && ds.fieldTypes == [Int]
    ensures r == if exists i, k :: Repeated(values, i, k) then Thrown(OutOfRange) else Done
    ensures r == Done ==> StrictlySorted(RowOrder([0], DbValLt), ds.Contents(), |ds.rows|)
    ensures multiset(ds.Contents()) == multiset(IntRows(values)) || (r != Done && !FollowsSchema(ds.State()))
  {
    ds := IntColumn(values);
    IntRowsInvalid(values);
    IntRowsTied(values);
    ghost var before := ds.State();
    r := ds.Sort([0, 99], Some(DbValLt));
    assert [0, 99][..1] == [0];
    if OneRowLost(before.rows, ds.Contents()) {
      LostRowBreaksSchema(before, ds.Contents());
      assert ds.State() == before.(rows := ds.Contents());
    }
  }
}
