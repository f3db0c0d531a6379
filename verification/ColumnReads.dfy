/** The read side of a cursor: the cells of the current row, with a type rule on each
    (src/sl3/columns.cpp). */
module ColumnReads {
  import opened Results
  import opened Rows
  import opened TypedValues
  import opened Values

  /** names has the columns that SQLite gives a name for. */
  datatype Columns = Columns(names: map<nat, Bytes>, cells: seq<Val>)

  /** getValue(idx, type) */
  function GetValue(cols: Columns, idx: int, t: Type): Result<DbVal> {
    if idx < 0 || !(idx < |cols.cells|) then Err(OutOfRange)
    else if cols.cells[idx].NullVal? then Ok(MakeNull(t))
    else Make(cols.cells[idx], t)
  }

  /** A cell is read exactly when the index is in range and the cell is Null or of the wanted type. */
  lemma GetValueExactly(cols: Columns, idx: int, t: Type)
    ensures GetValue(cols, idx, t) ==
            if !(0 <= idx < |cols.cells|) then Err(OutOfRange)
            else if Readable(cols.cells[idx], t) then Ok(DbVal(RuleOf(t), cols.cells[idx]))
            else Err(TypeMisMatch)
  {
  }

  /** The first n cells under their types, or what the first unreadable one throws. */
  function TypedCells(cols: Columns, types: seq<Type>, n: nat): Result<Row>
    requires n <= |cols.cells| && n <= |types|
  {
    if n == 0 then Ok([])
    else
      var r :- TypedCells(cols, types, n - 1);
      var c :- GetValue(cols, n - 1, types[n - 1]);
      Ok(r + [c])
  }

  function TypedRow(cols: Columns, types: seq<Type>): Result<Row> {
    if |types| != |cols.cells| then Err(TypeMisMatch)
    else TypedCells(cols, types, |types|)
  }

  /** The cell can be read under the type. */
  predicate Readable(v: Val, t: Type) {
    v.NullVal? || t == Variant || t == TypeOf(v)
  }

  /** The type a DbValue gets that is constructed with t. */
  function RuleOf(t: Type): Type {
    if t == Null then Variant else t
  }

  /** A row is read exactly when every cell is Null or of the wanted type, and then holds the
      cells in order, each under its own rule. Nothing but ErrTypeMisMatch is thrown. */
  lemma TypedRowExactly(cols: Columns, types: seq<Type>)
    ensures TypedRow(cols, types).Ok? <==>
            |types| == |cols.cells| && forall i :: 0 <= i < |types| ==> Readable(cols.cells[i], types[i])
    ensures TypedRow(cols, types).Err? ==> TypedRow(cols, types) == Err(TypeMisMatch)
    ensures TypedRow(cols, types).Ok? ==>
              var r := TypedRow(cols, types).value;
              && |r| == |types| && RowFollowsRule(r)
              && forall i :: 0 <= i < |r| ==> r[i] == DbVal(if types[i] == Null then Variant else types[i], cols.cells[i])
  {
    if |types| == |cols.cells| {
      TypedCellsExactly(cols, types, |types|);
    }
  }

  lemma {:induction false} TypedCellsExactly(cols: Columns, types: seq<Type>, n: nat)
    requires n <= |cols.cells| && n <= |types|
    ensures TypedCells(cols, types, n).Ok? <==> forall i :: 0 <= i < n ==> Readable(cols.cells[i], types[i])
    ensures TypedCells(cols, types, n).Err? ==> TypedCells(cols, types, n) == Err(TypeMisMatch)
    ensures TypedCells(cols, types, n).Ok? ==>
              var r := TypedCells(cols, types, n).value;
              |r| == n && forall i :: 0 <= i < n ==> r[i] == DbVal(RuleOf(types[i]), cols.cells[i])
  {
    if n > 0 {
      TypedCellsExactly(cols, types, n - 1);
    }
  }

  method GetRow(cols: Columns, types: seq<Type>) returns (r: Result<Row>)
    ensures r == TypedRow(cols, types)
  {
    if |types| != |cols.cells| {
      return Err(TypeMisMatch);
    }
    var v: Row := [];
    for i := 0 to |cols.cells|
      invariant TypedCells(cols, types, i) == Ok(v)
    {
      var c := GetValue(cols, i, types[i]);
      if c.Err? {
        TypedCellsStop(cols, types, i + 1, |types|);
        return Err(c.error);
      }
      v := v + [c.value];
    }
    return Ok(v);
  }

  /** What cannot be read up to m cannot be read up to n. */
  lemma {:induction false} TypedCellsStop(cols: Columns, types: seq<Type>, m: nat, n: nat)
    requires m <= n <= |cols.cells| && n <= |types| && TypedCells(cols, types, m).Err?
    ensures TypedCells(cols, types, n) == TypedCells(cols, types, m)
  {
    if m < n { TypedCellsStop(cols, types, m, n - 1); }
  }

  /** getRow() without types: every cell becomes a variant. */
  method GetVariantRow(cols: Columns) returns (r: Row)
    ensures |r| == |cols.cells| && forall i :: 0 <= i < |r| ==> r[i] == DbVal(Variant, cols.cells[i])
  {
    r := [];
    for i := 0 to |cols.cells|
      invariant |r| == i && forall k :: 0 <= k < i ==> r[k] == DbVal(Variant, cols.cells[k])
    {
      var c := GetValue(cols, i, Variant);
      r := r + [c.value];
    }
  }

  /** getName(idx) */
  function GetName(cols: Columns, idx: int): Result<Bytes> {
    if idx < 0 || !(idx < |cols.cells|) then Err(OutOfRange)
    else Ok(if idx in cols.names then cols.names[idx] else [])
  }

  /** One name for every column, empty where SQLite has none. */
  function NamesOf(cols: Columns): (names: seq<Bytes>)
    ensures |names| == |cols.cells|
    ensures forall i :: 0 <= i < |names| ==> Ok(names[i]) == GetName(cols, i)
  {
    seq(|cols.cells|, i requires 0 <= i < |cols.cells| => GetName(cols, i).value)
  }

  method GetNames(cols: Columns) returns (names: seq<Bytes>)
    ensures names == NamesOf(cols)
    ensures |names| == |cols.cells| && forall i: nat :: i < |names| ==> names[i] == if i in cols.names then cols.names[i] else []
  {
    names := [];
    for i := 0 to |cols.cells|
      invariant names == NamesOf(cols)[..i]
    {
      var name := GetName(cols, i);
      names := names + [name.value];
    }
  }
}
