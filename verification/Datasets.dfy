/** Rows under a schema (src/sl3/dataset.cpp): merging, resetting and what every run keeps. */
module Datasets {
  import opened ColumnReads
  import opened Results
  import opened RowOrders
  import opened RowSorts
  import opened Rows
  import opened TypedValues
  import opened Values

  datatype Data = Data(fieldTypes: seq<Type>, names: seq<Bytes>, rows: seq<Row>)

  // ----- the operations on plain data

  function MergeRow(ds: Data, row: Row): Result<Data> {
    if |ds.fieldTypes| > 0 && |ds.fieldTypes| != |row| then Err(TypeMisMatch)
    else if exists i :: 0 <= i < |ds.fieldTypes| && ds.fieldTypes[i] != Variant && ds.fieldTypes[i] != row[i].dbtype
    then Err(TypeMisMatch)
    else Ok(ds.(rows := ds.rows + [row]))
  }

  function Merge(ds: Data, other: Data): Result<Data> {
    if other.names != [] && ds.names != [] && ds.names != other.names then Err(TypeMisMatch)
    else if |ds.fieldTypes| != |other.fieldTypes| then Err(TypeMisMatch)
    else if exists i :: 0 <= i < |ds.fieldTypes| && ds.fieldTypes[i] != Variant && ds.fieldTypes[i] != other.fieldTypes[i]
    then Err(TypeMisMatch)
    else Ok(ds.(rows := ds.rows + other.rows))
  }

  /** The callback of select: the first row brings the names and, without a schema, one. */
  function Fill(ds: Data, cols: Columns): Result<Data> {
    var started :-
      if ds.names != [] then Ok(ds)
      else if ds.fieldTypes == [] then
        Ok(ds.(fieldTypes := seq(|cols.cells|, _ => Variant), names := NamesOf(cols)))
      else if |ds.fieldTypes| != |cols.cells| then Err(TypeMisMatch)
      else Ok(ds.(names := NamesOf(cols)));
    var row :- TypedRow(cols, started.fieldTypes);
    Ok(started.(rows := started.rows + [row]))
  }

  /** Filling with row after row, starting from the types given to select. */
  function FillAll(ds: Data, seen: seq<Columns>): Result<Data>
    decreases |seen|
  {
    if seen == [] then Ok(ds)
    else
      var before :- FillAll(ds, seen[..|seen| - 1]);
      Fill(before, seen[|seen| - 1])
  }

  // ----- the schema

  /** A cell under a field of type t; a field of Type::Null takes only a Null, as a variant. */
  predicate CellFits(t: Type, c: DbVal) {
    FollowsRule(c) && (t == Variant || c.dbtype == RuleOf(t)) && (t == Null ==> c.val.NullVal?)
  }

  predicate RowFits(types: seq<Type>, r: Row) {
    |r| == |types| && forall i :: 0 <= i < |r| ==> CellFits(types[i], r[i])
  }

  /** With a non-empty schema, every row has its width and every typed column its type. */
  predicate FollowsSchema(ds: Data) {
    && (forall k :: 0 <= k < |ds.rows| ==> RowFollowsRule(ds.rows[k]))
    && (ds.fieldTypes != [] ==> forall k :: 0 <= k < |ds.rows| ==> RowFits(ds.fieldTypes, ds.rows[k]))
  }

  /** So a typed column holds Null or its type and nothing else. */
  lemma SchemaMeaning(ds: Data, k: nat, i: nat)
    requires FollowsSchema(ds) && k < |ds.rows| && i < |ds.fieldTypes|
    ensures i < |ds.rows[k]|
    ensures ds.fieldTypes[i] != Variant ==> ds.rows[k][i].val.NullVal? || TypeOf(ds.rows[k][i].val) == ds.fieldTypes[i]
  {
  }

  lemma MergeRowKeepsSchema(ds: Data, row: Row)
    requires FollowsSchema(ds) && RowFollowsRule(row) && MergeRow(ds, row).Ok?
    ensures FollowsSchema(MergeRow(ds, row).value)
  {
  }

  /** Without Type::Null in the schema a row is accepted exactly when the dataset still follows
      its schema with it. */
  lemma MergeRowExactly(ds: Data, row: Row)
    requires FollowsSchema(ds) && RowFollowsRule(row) && Null !in ds.fieldTypes
    ensures MergeRow(ds, row).Ok? <==> FollowsSchema(ds.(rows := ds.rows + [row]))
    ensures MergeRow(ds, row).Ok? ==> MergeRow(ds, row).value == ds.(rows := ds.rows + [row])
  {
    if MergeRow(ds, row).Ok? {
      MergeRowKeepsSchema(ds, row);
    } else {
      assert (ds.rows + [row])[|ds.rows|] == row;
    }
  }

  /** Names agree, or one side has none. */
  predicate NamesAgree(ds: Data, other: Data) {
    ds.names == other.names || ds.names == [] || other.names == []
  }

  /** The other dataset is accepted exactly when the names agree and every typed field has its type
      there; then its rows are behind the rows that were there, in order, and nothing else changed. */
  lemma MergeExactly(ds: Data, other: Data)
    ensures Merge(ds, other).Ok? <==>
            && NamesAgree(ds, other) && |ds.fieldTypes| == |other.fieldTypes|
            && forall i :: 0 <= i < |ds.fieldTypes| ==> ds.fieldTypes[i] in {Variant, other.fieldTypes[i]}
    ensures Merge(ds, other).Err? ==> Merge(ds, other) == Err(TypeMisMatch)
    ensures Merge(ds, other).Ok? ==>
              var d := Merge(ds, other).value;
              && d.fieldTypes == ds.fieldTypes && d.names == ds.names && |d.rows| == |ds.rows| + |other.rows|
              && (forall k :: 0 <= k < |ds.rows| ==> d.rows[k] == ds.rows[k])
              && (forall k :: 0 <= k < |other.rows| ==> d.rows[|ds.rows| + k] == other.rows[k])
  {
  }

  /** A row is accepted exactly when it has the width of a non-empty schema and in every typed field
      a value of that type rule; then it is the last one, and nothing else changed. */
  lemma MergeRowAccepts(ds: Data, row: Row)
    ensures MergeRow(ds, row).Ok? <==>
            ds.fieldTypes == [] || (|row| == |ds.fieldTypes| &&
                                    forall i :: 0 <= i < |row| ==> ds.fieldTypes[i] in {Variant, row[i].dbtype})
    ensures MergeRow(ds, row).Err? ==> MergeRow(ds, row) == Err(TypeMisMatch)
    ensures MergeRow(ds, row).Ok? ==>
              var d := MergeRow(ds, row).value;
              && d.fieldTypes == ds.fieldTypes && d.names == ds.names && |d.rows| == |ds.rows| + 1
              && d.rows[|ds.rows|] == row && d.rows[..|ds.rows|] == ds.rows
  {
  }

  lemma MergeKeepsSchema(ds: Data, other: Data)
    requires FollowsSchema(ds) && FollowsSchema(other) && Merge(ds, other).Ok?
    ensures FollowsSchema(Merge(ds, other).value)
  {
  }

  /** A dataset that select may fill: empty, or with a schema already. */
  predicate Fillable(ds: Data) {
    FollowsSchema(ds) && (ds.fieldTypes == [] ==> ds.rows == [])
  }

  lemma FillKeepsSchema(ds: Data, cols: Columns)
    requires Fillable(ds) && cols.cells != []
    requires ds.names != [] ==> ds.fieldTypes != []
    requires Fill(ds, cols).Ok?
    ensures Fillable(Fill(ds, cols).value)
    ensures Fill(ds, cols).value.names != [] && Fill(ds, cols).value.fieldTypes != []
  {
    var after := Fill(ds, cols).value;
    TypedRowExactly(cols, after.fieldTypes);
    var row := after.rows[|ds.rows|];
    forall i | 0 <= i < |row| ensures CellFits(after.fieldTypes[i], row[i]) {
      assert Readable(cols.cells[i], after.fieldTypes[i]);
    }
    assert RowFits(after.fieldTypes, row);
  }

  lemma {:induction false} FillAllKeepsSchema(types: seq<Type>, seen: seq<Columns>)
    requires forall k :: 0 <= k < |seen| ==> seen[k].cells != []
    requires FillAll(Data(types, [], []), seen).Ok?
    ensures var ds := FillAll(Data(types, [], []), seen).value;
            Fillable(ds) && (ds.names != [] ==> ds.fieldTypes != [])
    decreases |seen|
  {
    if seen != [] {
      var front := seen[..|seen| - 1];
      FillAllKeepsSchema(types, front);
      FillKeepsSchema(FillAll(Data(types, [], []), front).value, seen[|seen| - 1]);
    }
  }

  // ----- every run

  /** One call on the datasets alive, numbered in the order of construction. */
  datatype Call =
    | Construct(types: seq<Type>)
    | Copy(i: nat)
    | Select(types: seq<Type>, seen: seq<Columns>)
    | CallMergeRow(i: nat, row: Row)
    | CallMerge(i: nat, j: nat)
    | Reset(i: nat)
    | ResetTypes(i: nat, types: seq<Type>)
    | Sort(i: nat, idxs: seq<nat>, cmp: Option<Comparator>)

  /** What the caller hands in: rows of rule-abiding values, cursors with at least one column,
      and two datasets to merge. */
  predicate Admissible(c: Call) {
    match c
    case CallMergeRow(_, row) => RowFollowsRule(row)
    case CallMerge(i, j) => i != j
    case Select(_, seen) => forall k :: 0 <= k < |seen| ==> seen[k].cells != []
    case _ => true
  }

  function Keep(s: seq<Data>, i: nat, r: Result<Data>): seq<Data>
    requires i < |s|
  {
    if r.Ok? then s[i := r.value] else s
  }

  function Step(s: seq<Data>, c: Call): seq<Data>
    requires !c.Sort?
  {
    match c
    case Construct(types) => s + [Data(types, [], [])]
    case Copy(i) => if i < |s| then s + [s[i]] else s
    case Select(types, seen) =>
      var r := FillAll(Data(types, [], []), seen);
      if r.Ok? then s + [r.value] else s
    case CallMergeRow(i, row) => if i < |s| then Keep(s, i, MergeRow(s[i], row)) else s
    case CallMerge(i, j) => if i < |s| && j < |s| then Keep(s, i, Merge(s[i], s[j])) else s
    case Reset(i) => if i < |s| then s[i := s[i].(names := [], rows := [])] else s
    case ResetTypes(i, types) => if i < |s| then s[i := Data(types, [], [])] else s
  }

  /** What the datasets may be after a call. Only of a sort is there more than one outcome. */
  ghost predicate Next(s: seq<Data>, c: Call, t: seq<Data>) {
    if !c.Sort? then t == Step(s, c)
    else if c.i >= |s| then t == s
    else exists after, r :: SortEnds(c.idxs, c.cmp, s[c.i].rows, after, r) && t == s[c.i := s[c.i].(rows := after)]
  }

  ghost predicate AllFollowSchema(s: seq<Data>) {
    forall i :: 0 <= i < |s| ==> FollowsSchema(s[i])
  }

  lemma PermutationKeepsSchema(ds: Data, sorted: seq<Row>)
    requires FollowsSchema(ds) && multiset(sorted) == multiset(ds.rows)
    ensures FollowsSchema(ds.(rows := sorted))
  {
    forall k | 0 <= k < |sorted|
      ensures RowFollowsRule(sorted[k]) && (ds.fieldTypes != [] ==> RowFits(ds.fieldTypes, sorted[k]))
    {
      assert sorted[k] in multiset(ds.rows);
    }
  }

  /** A lost row leaves an empty one, which no schema but the empty one allows. */
  lemma LostRowBreaksSchema(ds: Data, after: seq<Row>)
    requires OneRowLost(ds.rows, after) && ds.fieldTypes != []
    ensures !FollowsSchema(ds.(rows := after))
  {
    var h: nat, row: Row :| RowLostAt(ds.rows, after, h, row);
    assert !RowFits(ds.fieldTypes, after[h]);
  }

  lemma LostRowWithoutSchema(ds: Data, after: seq<Row>)
    requires FollowsSchema(ds) && OneRowLost(ds.rows, after) && ds.fieldTypes == []
    ensures FollowsSchema(ds.(rows := after))
  {
    var h: nat, row: Row :| RowLostAt(ds.rows, after, h, row);
    forall k | 0 <= k < |after| ensures RowFollowsRule(after[k]) {
      if k != h { assert after[h := row][k] in multiset(ds.rows); }
    }
  }

  lemma WidthOfRows(ds: Data)
    requires FollowsSchema(ds) && ds.fieldTypes != []
    ensures AllOfWidth(ds.rows, |ds.fieldTypes|)
  {
  }

  /** A dataset with a schema: the sort throws exactly when two rows tie in the keys before the
      first index beyond the schema, and else it keeps the schema. */
  lemma SortUnderSchema(ds: Data, idxs: seq<nat>, cmp: Comparator, after: seq<Row>, r: Outcome)
    requires FollowsSchema(ds) && ds.fieldTypes != [] && ProperBefore(idxs, cmp, ds.rows, |ds.fieldTypes|)
    requires SortEnds(idxs, Some(cmp), ds.rows, after, r)
    ensures r != Done <==> exists p: nat :: ThrowsAt(idxs, cmp, ds.rows, |ds.fieldTypes|, p)
    ensures r == Done ==> FollowsSchema(ds.(rows := after))
  {
    WidthOfRows(ds);
    ThrowsExactly(idxs, cmp, ds.rows, after, |ds.fieldTypes|, r);
    if r == Done { PermutationKeepsSchema(ds, after); }
  }

  /** A sort of a dataset with a schema that may throw; its arguments and the rows tell. */
  ghost predicate Risky(s: seq<Data>, c: Call) {
    c.Sort? && c.i < |s| && s[c.i].fieldTypes != [] && c.cmp.Some?
    && MayThrow(c.idxs, c.cmp.value, s[c.i].rows, |s[c.i].fieldTypes|)
  }

  lemma StepKeepsSchema(s: seq<Data>, c: Call)
    requires AllFollowSchema(s) && Admissible(c) && !c.Sort?
    ensures AllFollowSchema(Step(s, c))
  {
    match c
    case Select(types, seen) =>
      if FillAll(Data(types, [], []), seen).Ok? { FillAllKeepsSchema(types, seen); }
    case CallMergeRow(i, row) =>
      if i < |s| && MergeRow(s[i], row).Ok? { MergeRowKeepsSchema(s[i], row); }
    case CallMerge(i, j) =>
      if i < |s| && j < |s| && Merge(s[i], s[j]).Ok? { MergeKeepsSchema(s[i], s[j]); }
    case _ =>
  }

  lemma SafeSortKeepsSchema(ds: Data, idxs: seq<nat>, cmp: Option<Comparator>, after: seq<Row>, r: Outcome)
    requires FollowsSchema(ds) && SortEnds(idxs, cmp, ds.rows, after, r)
    requires ds.fieldTypes != [] && cmp.Some? ==> !MayThrow(idxs, cmp.value, ds.rows, |ds.fieldTypes|)
    ensures FollowsSchema(ds.(rows := after))
  {
    if cmp.Some? && r != Done && ds.fieldTypes != [] {
      WidthOfRows(ds);
      ThrownMayThrow(idxs, cmp.value, ds.rows, after, |ds.fieldTypes|, r);
    } else if multiset(after) == multiset(ds.rows) {
      PermutationKeepsSchema(ds, after);
    } else {
      LostRowWithoutSchema(ds, after);
    }
  }

  lemma SafeCallKeepsSchema(s: seq<Data>, c: Call, t: seq<Data>)
    requires AllFollowSchema(s) && Admissible(c) && !Risky(s, c) && Next(s, c, t)
    ensures AllFollowSchema(t)
  {
    if !c.Sort? {
      StepKeepsSchema(s, c);
    } else if c.i < |s| {
      var after, r :| SortEnds(c.idxs, c.cmp, s[c.i].rows, after, r) && t == s[c.i := s[c.i].(rows := after)];
      SafeSortKeepsSchema(s[c.i], c.idxs, c.cmp, after, r);
    }
  }

  /** A risky sort has an outcome that breaks the schema. */
  lemma RiskyCallMayBreak(s: seq<Data>, c: Call) returns (t: seq<Data>)
    requires AllFollowSchema(s) && Risky(s, c)
    ensures Next(s, c, t) && !AllFollowSchema(t)
  {
    var ds := s[c.i];
    WidthOfRows(ds);
    var after := MayLoseRow(c.idxs, c.cmp.value, ds.rows, |ds.fieldTypes|);
    LostRowBreaksSchema(ds, after);
    t := s[c.i := ds.(rows := after)];
    assert c.cmp == Some(c.cmp.value);
    assert SortEnds(c.idxs, c.cmp, ds.rows, after, Thrown(OutOfRange));
    assert t[c.i] == ds.(rows := after);
  }

  /** Whatever the sorts do, the rows follow the schema after every call. */
  ghost predicate KeepsSchema(s: seq<Data>, calls: seq<Call>)
    decreases |calls|
  {
    AllFollowSchema(s) && (calls != [] ==> forall t :: Next(s, calls[0], t) ==> KeepsSchema(t, calls[1..]))
  }

  /** Whatever the sorts do, none of them is risky. */
  ghost predicate NeverRisky(s: seq<Data>, calls: seq<Call>)
    decreases |calls|
  {
    calls != [] ==> !Risky(s, calls[0]) && forall t :: Next(s, calls[0], t) ==> NeverRisky(t, calls[1..])
  }

  /** Over all courses of a run of select, merge, reset and sort the rows follow the schema exactly
      when in none of them a dataset with a schema is sorted in a way that may throw. */
  lemma {:induction false} RunKeepsSchema(s: seq<Data>, calls: seq<Call>)
    requires AllFollowSchema(s) && forall k :: 0 <= k < |calls| ==> Admissible(calls[k])
    ensures KeepsSchema(s, calls) <==> NeverRisky(s, calls)
    decreases |calls|
  {
    if calls != [] {
      if Risky(s, calls[0]) {
        var t := RiskyCallMayBreak(s, calls[0]);
        assert !KeepsSchema(t, calls[1..]);
      } else {
        forall t | Next(s, calls[0], t) ensures KeepsSchema(t, calls[1..]) <==> NeverRisky(t, calls[1..]) {
          SafeCallKeepsSchema(s, calls[0], t);
          RunKeepsSchema(t, calls[1..]);
        }
      }
    }
  }
}
