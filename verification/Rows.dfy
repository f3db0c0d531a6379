/** A row of typed values and its all-or-nothing assignments (src/sl3/dbvalues.cpp). */
module Rows {
  import opened Results
  import opened TypedValues
  import opened Values

  type Row = seq<DbVal>

  predicate RowFollowsRule(r: Row) {
    forall i :: 0 <= i < |r| ==> FollowsRule(r[i])
  }

  /** Every cell of the target may be assigned from the cell below it. */
  predicate CanAssignRow(target: Row, source: Row) {
    |target| == |source| && forall i :: 0 <= i < |target| ==> CanAssign(target[i], source[i])
  }

  /** The values of the source under the types of the target. */
  function WithValues(target: Row, source: Row): (r: Row)
    requires |target| == |source|
    ensures |r| == |target|
    ensures forall i :: 0 <= i < |r| ==> r[i] == target[i].(val := source[i].val)
  {
    seq(|target|, i requires 0 <= i < |target| => target[i].(val := source[i].val))
  }

  /** Copy assignment keeps the rule and every type of the target; what a move brings along
      fits the types that were there before, although each cell brings its own. */
  lemma AssignedRowFits(target: Row, source: Row)
    requires RowFollowsRule(target) && RowFollowsRule(source) && CanAssignRow(target, source)
    ensures RowFollowsRule(WithValues(target, source))
    ensures forall i :: 0 <= i < |target| ==> Fits(target[i].dbtype, source[i].val)
    ensures forall i :: 0 <= i < |target| && target[i].dbtype != Variant && source[i].dbtype != Variant
                        ==> source[i].dbtype == target[i].dbtype
  {
  }

  class DbValues {
    var cells: Row

    constructor (r: Row)
      ensures cells == r
    {
      cells := r;
    }

    constructor Copy(row: DbValues)
      ensures cells == row.cells
    {
      cells := row.cells;
    }

    constructor Move(row: DbValues)
      modifies row
      ensures cells == old(row.cells) && row.cells == []
    {
      cells := row.cells;
      new;
      row.cells := [];
    }

    /** First all checks, then all assignments. */
    method CopyAssign(row: DbValues) returns (r: Outcome)
      modifies this
      ensures r == if CanAssignRow(old(cells), old(row.cells)) then Done else Thrown(TypeMisMatch)
      ensures r == Done ==> cells == WithValues(old(cells), old(row.cells))
      ensures r != Done ==> cells == old(cells)
    {
      if |cells| != |row.cells| {
        return Thrown(TypeMisMatch);
      }
      for i := 0 to |cells|
        invariant forall k :: 0 <= k < i ==> CanAssign(cells[k], row.cells[k])
      {
        if !CanAssign(cells[i], row.cells[i]) {
          return Thrown(TypeMisMatch);
        }
      }
      ghost var target, source := cells, row.cells;
      for i := 0 to |cells|
        invariant |cells| == |target| && |row.cells| == |source|
        invariant forall k :: 0 <= k < i ==> cells[k] == target[k].(val := source[k].val)
        invariant forall k :: i <= k < |cells| ==> cells[k] == target[k] && row.cells[k] == source[k]
        invariant forall k :: 0 <= k < i ==> row.cells[k].val == source[k].val
      {
        cells := cells[i := cells[i].(val := row.cells[i].val)];
      }
      return Done;
    }

    /** An empty target may have been moved from, and accepts any row. A row moved onto itself
        keeps its cells or loses them, as the library likes. */
    method MoveAssign(row: DbValues) returns (r: Outcome)
      modifies this, row
      ensures r == if old(cells) == [] || CanAssignRow(old(cells), old(row.cells)) then Done else Thrown(TypeMisMatch)
      ensures r == Done && row != this ==> cells == old(row.cells) && row.cells == []
      ensures r != Done ==> cells == old(cells) && row.cells == old(row.cells)
    {
      if |cells| != 0 && |cells| != |row.cells| {
        return Thrown(TypeMisMatch);
      }
      for i := 0 to |cells|
        invariant forall k :: 0 <= k < i ==> CanAssign(cells[k], row.cells[k])
      {
        if !CanAssign(cells[i], row.cells[i]) {
          return Thrown(TypeMisMatch);
        }
      }
      if row == this {
        cells := *;
      } else {
        cells := row.cells;
        row.cells := [];
      }
      return Done;
    }

    method Swap(other: DbValues)
      modifies this, other
      ensures cells == old(other.cells) && other.cells == old(cells)
    {
      var t := cells;
      cells := other.cells;
      other.cells := t;
    }
  }
}
