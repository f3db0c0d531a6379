/** The multi-key comparator of Dataset::sort (src/sl3/dataset.cpp). */
module RowOrders {
  import opened Orders
  import opened Results
  import opened Rows
  import opened TypedValues

  type Comparator = (DbVal, DbVal) -> bool

  /** lessValues: the first key that is not a tie decides; an index that is out of range for one
      of the rows throws when the comparison gets to it. */
  function CompareRows(idxs: seq<nat>, cmp: Comparator, a: Row, b: Row): Result<bool> {
    if idxs == [] then Ok(false)
    else
      var cur := idxs[0];
      if cur >= |a| || cur >= |b| then Err(OutOfRange)
      else if cmp(a[cur], b[cur]) then Ok(true)
      else if cmp(b[cur], a[cur]) then Ok(false)
      else CompareRows(idxs[1..], cmp, a, b)
  }

  predicate RowLess(idxs: seq<nat>, cmp: Comparator, a: Row, b: Row) {
    CompareRows(idxs, cmp, a, b) == Ok(true)
  }

  /** The order the rows are sorted by. */
  function RowOrder(idxs: seq<nat>, cmp: Comparator): (Row, Row) -> bool {
    (a, b) => RowLess(idxs, cmp, a, b)
  }

  // ----- what the comparison means

  /** All keys before position p are present in both rows and tie. */
  ghost predicate TiesBefore(idxs: seq<nat>, cmp: Comparator, a: Row, b: Row, p: nat)
    requires p <= |idxs|
  {
    forall q :: 0 <= q < p ==> idxs[q] < |a| && idxs[q] < |b| && Tie(cmp, a[idxs[q]], b[idxs[q]])
  }

  ghost predicate DecidedAt(idxs: seq<nat>, cmp: Comparator, a: Row, b: Row, p: nat)
    requires p < |idxs|
  {
    TiesBefore(idxs, cmp, a, b, p) && idxs[p] < |a| && idxs[p] < |b| && cmp(a[idxs[p]], b[idxs[p]])
  }

  ghost predicate BadIndexAt(idxs: seq<nat>, cmp: Comparator, a: Row, b: Row, p: nat)
    requires p < |idxs|
  {
    TiesBefore(idxs, cmp, a, b, p) && !(idxs[p] < |a| && idxs[p] < |b|)
  }

  /** A row is less exactly when some key is, all keys before it being ties; an invalid index is
      noticed exactly when all keys before it are ties. */
  lemma {:induction false} CompareRowsIsLexicographic(idxs: seq<nat>, cmp: Comparator, a: Row, b: Row)
    ensures RowLess(idxs, cmp, a, b) <==> exists p: nat :: p < |idxs| && DecidedAt(idxs, cmp, a, b, p)
    ensures CompareRows(idxs, cmp, a, b) == Err(OutOfRange) <==> exists p: nat :: p < |idxs| && BadIndexAt(idxs, cmp, a, b, p)
  {
    if idxs != [] {
      var cur, rest := idxs[0], idxs[1..];
      if cur >= |a| || cur >= |b| {
        assert BadIndexAt(idxs, cmp, a, b, 0);
      } else if cmp(a[cur], b[cur]) {
        assert DecidedAt(idxs, cmp, a, b, 0);
      } else if !cmp(b[cur], a[cur]) {
        CompareRowsIsLexicographic(rest, cmp, a, b);
        forall p: nat | p < |rest|
          ensures DecidedAt(rest, cmp, a, b, p) <==> DecidedAt(idxs, cmp, a, b, p + 1)
          ensures BadIndexAt(rest, cmp, a, b, p) <==> BadIndexAt(idxs, cmp, a, b, p + 1)
        {
          TiesBeforeShift(idxs, cmp, a, b, p);
        }
        forall p: nat | p < |idxs|
          ensures DecidedAt(idxs, cmp, a, b, p) ==> p > 0 && DecidedAt(rest, cmp, a, b, p - 1)
          ensures BadIndexAt(idxs, cmp, a, b, p) ==> p > 0 && BadIndexAt(rest, cmp, a, b, p - 1)
        {
          if p > 0 { TiesBeforeShift(idxs, cmp, a, b, p - 1); }
        }
      }
    }
  }

  lemma TiesBeforeShift(idxs: seq<nat>, cmp: Comparator, a: Row, b: Row, p: nat)
    requires p < |idxs| && idxs[0] < |a| && idxs[0] < |b| && Tie(cmp, a[idxs[0]], b[idxs[0]])
    ensures TiesBefore(idxs[1..], cmp, a, b, p) <==> TiesBefore(idxs, cmp, a, b, p + 1)
  {
  }

  /** With an index that one of the rows does not have, the keys before it decide or it throws. */
  lemma {:induction false} CompareUpToInvalid(idxs: seq<nat>, cmp: Comparator, a: Row, b: Row, p: nat)
    requires p < |idxs| && !(idxs[p] < |a| && idxs[p] < |b|) && KeysExist(idxs[..p], iset{a, b})
    ensures CompareRows(idxs, cmp, a, b) == if RowLess(idxs[..p], cmp, a, b) then Ok(true)
                                            else if RowLess(idxs[..p], cmp, b, a) then Ok(false)
                                            else Err(OutOfRange)
  {
    if p > 0 {
      assert idxs[..p][0] == idxs[0] && idxs[..p][1..] == idxs[1..][..p - 1];
      assert a in iset{a, b} && b in iset{a, b};
      CompareUpToInvalid(idxs[1..], cmp, a, b, p - 1);
    }
  }

  // ----- the comparator is a strict weak order on the rows when it is one on every key column

  ghost function Column(rows: iset<Row>, k: nat): iset<DbVal> {
    iset r: Row | r in rows && k < |r| :: r[k]
  }

  ghost predicate KeysAreOrdered(idxs: seq<nat>, cmp: Comparator, rows: iset<Row>) {
    forall q :: 0 <= q < |idxs| ==> StrictWeakOrder(cmp, Column(rows, idxs[q]))
  }

  ghost predicate KeysExist(idxs: seq<nat>, rows: iset<Row>) {
    forall q, r :: 0 <= q < |idxs| && r in rows ==> idxs[q] < |r|
  }

  lemma {:induction false} NoBadIndex(idxs: seq<nat>, cmp: Comparator, a: Row, b: Row)
    requires KeysExist(idxs, iset{a, b})
    ensures CompareRows(idxs, cmp, a, b).Ok?
  {
    if idxs != [] {
      assert idxs[0] < |a| && idxs[0] < |b|;
      assert KeysExist(idxs[1..], iset{a, b});
      NoBadIndex(idxs[1..], cmp, a, b);
    }
  }

  lemma {:induction false} RowOrderOnThree(idxs: seq<nat>, cmp: Comparator, a: Row, b: Row, c: Row)
    requires KeysAreOrdered(idxs, cmp, iset{a, b, c}) && KeysExist(idxs, iset{a, b, c})
    ensures var lt := RowOrder(idxs, cmp);
            && !lt(a, a)
            && (lt(a, b) && lt(b, c) ==> lt(a, c))
            && (Tie(lt, a, b) && Tie(lt, b, c) ==> Tie(lt, a, c))
  {
    if idxs != [] {
      var rows := iset{a, b, c};
      var k, rest := idxs[0], idxs[1..];
      assert a in rows && b in rows && c in rows;
      assert a[k] in Column(rows, k) && b[k] in Column(rows, k) && c[k] in Column(rows, k);
      assert KeysAreOrdered(rest, cmp, rows) && KeysExist(rest, rows);
      RowOrderOnThree(rest, cmp, a, b, c);
      assert StrictWeakOrder(cmp, Column(rows, k));
      KeyStep(idxs, cmp, a, b, c);
    }
  }

  /** One key in front of an order: the lexicographic step. */
  lemma KeyStep(idxs: seq<nat>, cmp: Comparator, a: Row, b: Row, c: Row)
    requires idxs != [] && idxs[0] < |a| && idxs[0] < |b| && idxs[0] < |c|
    requires StrictWeakOrder(cmp, iset{a[idxs[0]], b[idxs[0]], c[idxs[0]]})
    requires var lt := RowOrder(idxs[1..], cmp);
             && !lt(a, a)
             && (lt(a, b) && lt(b, c) ==> lt(a, c))
             && (Tie(lt, a, b) && Tie(lt, b, c) ==> Tie(lt, a, c))
    ensures var lt := RowOrder(idxs, cmp);
            && !lt(a, a)
            && (lt(a, b) && lt(b, c) ==> lt(a, c))
            && (Tie(lt, a, b) && Tie(lt, b, c) ==> Tie(lt, a, c))
  {
  }

  /** For any list of valid indexes, repeated or none at all. */
  lemma RowOrderIsStrictWeak(idxs: seq<nat>, cmp: Comparator, rows: iset<Row>)
    requires KeysAreOrdered(idxs, cmp, rows) && KeysExist(idxs, rows)
    ensures StrictWeakOrder(RowOrder(idxs, cmp), rows)
  {
    var lt := RowOrder(idxs, cmp);
    forall a, b, c | a in rows && b in rows && c in rows
      ensures !lt(a, a)
      ensures lt(a, b) && lt(b, c) ==> lt(a, c)
      ensures Tie(lt, a, b) && Tie(lt, b, c) ==> Tie(lt, a, c)
    {
      forall q | 0 <= q < |idxs| ensures StrictWeakOrder(cmp, Column(iset{a, b, c}, idxs[q])) {
        assert Column(iset{a, b, c}, idxs[q]) <= Column(rows, idxs[q]);
      }
      RowOrderOnThree(idxs, cmp, a, b, c);
    }
  }
}
