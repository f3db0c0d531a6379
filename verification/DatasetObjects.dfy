/** Dataset as an object: a vector of rows that is filled, merged, reset and sorted in place
    (src/sl3/dataset.cpp). */
module DatasetObjects {
  import opened ColumnReads
  import opened Datasets
  import opened Results
  import opened RowOrders
  import opened RowSorts
  import opened Rows
  import opened Values

  class Dataset {
    var fieldTypes: seq<Type>
    var names: seq<Bytes>
    var rows: seq<DbValues>

    /** The rows of a vector are different objects. */
    ghost predicate Valid()
      reads this
    {
      forall i, j :: 0 <= i < j < |rows| ==> rows[i] != rows[j]
    }

    ghost function Contents(): (s: seq<Row>)
      reads this, rows
      ensures |s| == |rows| && forall i :: 0 <= i < |s| ==> s[i] == rows[i].cells
    {
      seq(|rows|, i requires 0 <= i < |rows| reads this, rows => rows[i].cells)
    }

    ghost function State(): Data
      reads this, rows
    {
      Data(fieldTypes, names, Contents())
    }

    constructor (types: seq<Type>)
      ensures Valid() && State() == Data(types, [], []) && rows == []
      ensures Datasets.Step([], Construct(types)) == [State()]
    {
      fieldTypes, names, rows := types, [], [];
    }

    method Reset()
      requires Valid()
      modifies this
      ensures Valid() && State() == Data(old(fieldTypes), [], [])
      ensures Datasets.Step([old(State())], Datasets.Reset(0)) == [State()]
    {
      names := [];
      rows := [];
    }

    method ResetTypes(types: seq<Type>)
      requires Valid()
      modifies this
      ensures Valid() && State() == Data(types, [], [])
      ensures Datasets.Step([old(State())], Datasets.ResetTypes(0, types)) == [State()]
    {
      fieldTypes := types;
      Reset();
    }

    /** push_back of a new row. */
    method Append(row: Row)
      requires Valid()
      modifies `rows
      ensures Valid() && Contents() == old(Contents()) + [row]
      ensures |rows| == |old(rows)| + 1 && rows[..|old(rows)|] == old(rows) && fresh(rows[|old(rows)|])
    {
      ghost var s := Contents();
      var r := new DbValues(row);
      rows := rows + [r];
      assert Contents() == s + [row];
    }

    method MergeRow(row: DbValues) returns (r: Outcome)
      requires Valid()
      modifies this
      ensures Valid()
      ensures old(rows) <= rows && forall k :: |old(rows)| <= k < |rows| ==> fresh(rows[k])
      ensures Datasets.Step([old(State())], CallMergeRow(0, old(row.cells))) == [State()]
      ensures match Datasets.MergeRow(old(State()), old(row.cells))
              case Ok(d) => r == Done && State() == d
              case Err(e) => r == Thrown(e) && State() == old(State())
    {
      if |fieldTypes| > 0 && |fieldTypes| != |row.cells| {
        return Thrown(TypeMisMatch);
      }
      for i := 0 to |fieldTypes|
        invariant forall k :: 0 <= k < i ==> !(fieldTypes[k] != Variant && fieldTypes[k] != row.cells[k].dbtype)
      {
        if fieldTypes[i] != Variant {
          if fieldTypes[i] != row.cells[i].dbtype {
            return Thrown(TypeMisMatch);
          }
        }
      }
      Append(row.cells);
      return Done;
    }

    /** Of a dataset merged into itself nothing is promised: inserting a vector's own range is
        undefined. */
    method Merge(other: Dataset) returns (r: Outcome)
      requires Valid() && other.Valid()
      modifies this
      ensures Valid()
      ensures other != this ==> Datasets.Step([old(State()), old(other.State())], CallMerge(0, 1)) == [State(), other.State()]
      ensures other != this ==>
                match Datasets.Merge(old(State()), old(other.State()))
                case Ok(d) => r == Done && State() == d
                case Err(e) => r == Thrown(e) && State() == old(State())
    {
      if other.names != [] {
        if names != [] && names != other.names {
          return Thrown(TypeMisMatch);
        }
      }
      if |fieldTypes| != |other.fieldTypes| {
        return Thrown(TypeMisMatch);
      }
      for i := 0 to |fieldTypes|
        invariant forall k :: 0 <= k < i ==> !(fieldTypes[k] != Variant && fieldTypes[k] != other.fieldTypes[k])
      {
        if fieldTypes[i] != Variant {
          if fieldTypes[i] != other.fieldTypes[i] {
            return Thrown(TypeMisMatch);
          }
        }
      }
      ghost var s, t := Contents(), other.Contents();
      for i := 0 to |other.rows|
        invariant Valid() && fieldTypes == old(fieldTypes) && names == old(names)
        invariant |t| <= |other.rows| && (other != this ==> Contents() == s + t[..i])
      {
        Append(other.rows[i].cells);
        assert s + t[..i] + [t[i]] == s + t[..i + 1];
      }
      assert t[..|t|] == t;
      return Done;
    }

    /** The callback of select. When it throws, the dataset is dropped. */
    method Fill(cols: Columns) returns (r: Outcome)
      requires Valid()
      modifies this
      ensures Valid()
      ensures match Datasets.Fill(old(State()), cols)
              case Ok(d) => r == Done && State() == d
              case Err(e) => r == Thrown(e)
    {
      if |names| == 0 {
        if |fieldTypes| == 0 {
          fieldTypes := seq(|cols.cells|, _ => Variant);
        } else if |fieldTypes| != |cols.cells| {
          return Thrown(TypeMisMatch);
        }
        names := GetNames(cols);
      }
      var row := GetRow(cols, fieldTypes);
      if row.Err? {
        return Thrown(row.error);
      }
      Append(row.value);
      return Done;
    }

    /** The index of the first field of that name. */
    method GetIndex(name: Bytes) returns (r: Result<nat>)
      ensures r.Ok? ==> r.value < |names| && names[r.value] == name && name !in names[..r.value]
      ensures r.Err? ==> r == Err(OutOfRange) && name !in names
    {
      for i := 0 to |names|
        invariant name !in names[..i]
      {
        if names[i] == name {
          return Ok(i);
        }
      }
      assert names[..|names|] == names;
      return Err(OutOfRange);
    }

    method LessValues(idxs: seq<nat>, cmp: Comparator, a: DbValues, b: DbValues) returns (r: Result<bool>)
      ensures r == CompareRows(idxs, cmp, a.cells, b.cells)
    {
      for i := 0 to |idxs|
        invariant CompareRows(idxs[i..], cmp, a.cells, b.cells) == CompareRows(idxs, cmp, a.cells, b.cells)
      {
        var cur := idxs[i];
        assert idxs[i..][1..] == idxs[i + 1..];
        if cur >= |a.cells| || cur >= |b.cells| {
          return Err(OutOfRange);
        }
        if cmp(a.cells[cur], b.cells[cur]) {
          return Ok(true);
        } else if cmp(b.cells[cur], a.cells[cur]) {
          return Ok(false);
        }
      }
      return Ok(false);
    }

    /** Moves the row before n into the empty slot n. */
    method ShiftOne(n: nat)
      requires Valid() && 0 < n < |rows| && Contents()[n] == []
      modifies rows[n], rows[n - 1]
      ensures Contents() == old(Contents())[n := old(Contents())[n - 1]][n - 1 := []]
    {
      var moved := rows[n].MoveAssign(rows[n - 1]);
      assert moved == Done;
    }

    /** Compares the row in the temporary with the one before the hole, and shifts that one if
        the temporary is below it. */
    method Turn(idxs: seq<nat>, cmp: Comparator, i: nat, n: nat, tmp: DbValues, ghost s: seq<Row>) returns (r: Result<bool>)
      requires Valid() && 0 < n <= i < |rows| && tmp !in rows
      requires |s| == |rows| && tmp.cells == s[i] && Contents() == WithHole(s, i, n)
      modifies rows[n], rows[n - 1]
      ensures r == CompareRows(idxs, cmp, s[i], s[n - 1])
      ensures Contents() == WithHole(s, i, if r == Ok(true) then n - 1 else n)
    {
      assert rows[n - 1].cells == Contents()[n - 1];
      r := LessValues(idxs, cmp, tmp, rows[n - 1]);
      if r == Ok(true) {
        ShiftOne(n);
        HoleMoves(s, i, n);
      }
    }

    /** Shifts the rows before the empty slot i up until the row in the temporary fits below
        them; n is the slot that is empty then. */
    method Shift(idxs: seq<nat>, cmp: Comparator, i: nat, tmp: DbValues, ghost s: seq<Row>) returns (r: Outcome, n: nat)
      requires Valid() && i < |rows| && tmp !in rows
      requires |s| == |rows| && tmp.cells == s[i] && Contents() == WithHole(s, i, i)
      modifies rows
      ensures n <= i && Contents() == WithHole(s, i, n)
      ensures forall k :: n <= k < i ==> RowLess(idxs, cmp, s[i], s[k])
      ensures if n == 0 then r == Done
              else if r == Done then CompareRows(idxs, cmp, s[i], s[n - 1]) == Ok(false)
              else CompareRows(idxs, cmp, s[i], s[n - 1]) == Err(r.error)
    {
      n := i;
      while n > 0
        invariant n <= i && tmp.cells == s[i] && Contents() == WithHole(s, i, n)
        invariant forall k :: n <= k < i ==> RowLess(idxs, cmp, s[i], s[k])
      {
        var b := Turn(idxs, cmp, i, n, tmp, s);
        if b.Err? {
          return Thrown(b.error), n;
        }
        if !b.value {
          return Done, n;
        }
        n := n - 1;
      }
      return Done, n;
    }

    method TakeOut(i: nat) returns (tmp: DbValues)
      requires Valid() && i < |rows|
      modifies rows[i]
      ensures fresh(tmp) && tmp.cells == old(Contents())[i] && Contents() == WithHole(old(Contents()), i, i)
    {
      ghost var s := Contents();
      tmp := new DbValues.Move(rows[i]);
      assert MovedDown(s, i, i) == s;
    }

    method PutBack(n: nat, tmp: DbValues)
      requires Valid() && n < |rows| && Contents()[n] == [] && tmp !in rows
      modifies rows[n], tmp
      ensures Contents() == old(Contents())[n := old(tmp.cells)]
    {
      var moved := rows[n].MoveAssign(tmp);
      assert moved == Done;
    }

    /** Moves the row at i, through a temporary, down to its place among the rows before it.
        Rows are moved only into emptied slots, and an empty row accepts any row: no move throws,
        whatever the widths and types of the rows are. */
    method Insert(idxs: seq<nat>, cmp: Comparator, i: nat) returns (r: Outcome, ghost j: nat)
      requires Valid() && i < |rows|
      modifies rows
      ensures Inserted(idxs, cmp, old(Contents()), Contents(), i, j, r)
    {
      ghost var s := Contents();
      var tmp := TakeOut(i);
      var n: nat;
      r, n := Shift(idxs, cmp, i, tmp, s);
      j := n;
      InsertionCompletes(idxs, cmp, s, i, n, r);
      if r == Done {
        PutBack(n, tmp);
      }
    }

    /** Stands for std::sort: an in-place sort that only moves rows, as the source's rows allow. */
    method Sort(idxs: seq<nat>, cmp: Option<Comparator>) returns (r: Outcome)
      requires Valid()
      modifies rows
      ensures Valid()
      ensures SortEnds(idxs, cmp, old(Contents()), Contents(), r)
    {
      if cmp.None? {
        return Thrown(NullValueAccess);
      }
      ghost var s := Contents();
      for i := 0 to |rows|
        invariant SortedUpTo(idxs, cmp.value, s, Contents(), i) && DistinctUpTo(idxs, cmp.value, s, Contents(), i)
      {
        ghost var f := Contents();
        ghost var j: nat;
        r, j := Insert(idxs, cmp.value, i);
        if r != Done {
          InsertionThrows(idxs, cmp.value, s, f, Contents(), i, j, r);
          forall p: nat | InvalidFrom(idxs, cmp.value, s, p) ensures TiedRows(RowOrder(idxs[..p], cmp.value), s) {
            ThrowsAtTie(idxs, cmp.value, s, f, Contents(), i, j, r, p);
          }
          return;
        }
        InsertionSucceeds(idxs, cmp.value, s, f, Contents(), i, j);
        InsertionDistinguishes(idxs, cmp.value, s, f, Contents(), i, j);
      }
      forall p: nat | InvalidFrom(idxs, cmp.value, s, p) ensures !TiedRows(RowOrder(idxs[..p], cmp.value), s) {
        DoneHasNoTies(idxs, cmp.value, s, Contents(), p);
      }
      return Done;
    }
  }
}
