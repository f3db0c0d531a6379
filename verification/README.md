# libsl3, modelled and proved in Dafny

libsl3 is a C++ layer over SQLite. Underneath its thin calls into SQLite it has logic of its own:
a variant value with a hand-managed union, values and rows with type rules, comparators that mix
64-bit integers with doubles, a sort on top of them, and an ownership protocol in which databases,
commands and transaction guards share one connection. This project models that logic and proves
what can be relied on, for all values, all runs and all cursors, and where the code does not keep
what its documentation says.

`dafny verify dfyconfig.toml` checks everything.

## How it is organised

| files | what they model |
|---|---|
| `Doubles`, `Values` | IEEE 754-2008 binary64 rounding (section 4.3.1) and int64-to-double conversion (section 5.4.1); the value comparisons and numeric conversions |
| `Orders`, `ValueOrders`, `Tolerances`, `TypedValueOrders`, `RowOrders`, `RowSorts`, `DefaultSort` | strict weak orders (section 28.7 of ISO C++17): exactly on which values each comparator is one; what a sort of rows promises and keeps |
| `ValueStorage`, `ValuePool` | `Value` as a tag over a union, with a ledger of constructed and destroyed strings and blobs; any run of calls on any number of Values |
| `TypedValues`, `Rows`, `Datasets`, `DatasetObjects` | `DbValue`, `DbValues` and `Dataset`: type rules, all-or-nothing assignment, merging, in-place sorting |
| `ColumnReads`, `Commands`, `CommandObjects`, `Selects` | reading columns, binding, parameters, the execute loop, `select` and `selectValue` |
| `Connections`, `DatabaseObjects`, `Ownership`, `Transactions` | the close loop, the owning objects, and every run of the ownership and the transaction protocol |

Objects that change in place are classes; each method is proved against a function on plain values,
and the results about whole runs are lemmas about those functions. `Results` holds the error kinds.

SQLite is abstract: a connection is its set of live statement handles, the handles finalized so far,
the transaction that is open and how earlier ones ended; a statement is a finite script of step
results for every row of cells that may be bound to it. What SQLite decides (a text that does not
compile, a refused COMMIT, a rollback of its own) is a parameter of the call.
A callback is a function of the rows it has seen so far, which covers callbacks with state.

## What comes out

- `value_type_lt` is a strict weak order on every set of values without NaN, and only equal values
  tie. `value_lt`, the default comparator of `Dataset::sort`, is not: 2^53 and 2^53 + 1 differ but
  both tie with the Real 2^53. It is one exactly on the sets without such a clash, and 2^53 is the
  sharp border for the Ints. Sorting by several keys is possible exactly when no clash of three rows
  is left undecided by the keys before and after it.
- `value.hpp:290-299` and `dataset.hpp:171-181` promise the sorting rules of SQLite, which compares an
  Int and a Real exactly (`sqlite3IntFloatCompare`); both comparators round the Int to a double first.
  They keep the rules exactly for the pairs where rounding hides no difference: `value_type_lt` puts
  2^53 + 1 before the Real 2^53, which SQLite orders the other way. Within 2^53 both keep them.
  Whatever a sort by one key leaves is sorted by SQLite's rules exactly when no Int of the column is
  rounded to a different Real of it. A NaN,
  which is a NULL to SQLite, is a number to them.
- `dbval_type_lt` decides ties with a tolerant equality on top of an exact order, so a Variant Real
  just below a typed Real that is almost equal is less in both directions. It is a strict weak order
  exactly when no such pair is present. The tolerant equality does not hold between an infinity and
  itself, so `value_type_eq` is not reflexive there, against its documentation; and it holds between
  any two Reals whose sum overflows, however far apart they are. Otherwise almost equal Reals are
  apart by less than the 2^-49 part of the larger one or by less than 2^-1020, and Reals of one binade
  that are at most three spacings apart are almost equal.
- The int64 guard of the lossless conversion compares with a limit that is itself rounded to 2^63;
  2^63 passes the guard and the cast that follows is undefined. Every other double is accepted or
  refused correctly.
- Every statement handle is finalized at most once, exactly once when its connection is closed, and
  not before its time: it is alive exactly while a Database holds the connection and a command has it
  or its constructor threw. `database.hpp:335-340` says that the connection closes with the last
  Command, and `database.hpp:350` that it closes with the Database. The code does the latter: a
  connection is open exactly while a Database holds it, a Command may be left on a closed one
  (`CommandOutlivesConnection`), and the connection's own destructor never finds anything to do.
- Each BEGIN ends once, committed or rolled back, or is open on one Database. As long as no Database
  is moved or destroyed, or rolled back by SQLite itself, under an active guard, it is committed
  exactly when a commit on its guard returned and rolled back exactly when its guard was destroyed
  without one. If a Database is pulled away, the program cannot end well: the guard's destructor
  throws or uses a Database that is gone.
- `dataset.hpp:171-181` promises `ErrOutOfRange` for an invalid sort index. The code throws exactly
  when two rows tie in all keys before that index; values that differ are sorted in spite of it
  (`SortByInvalidIndex`). A sort that throws leaves the rows permuted, or loses one: then an empty row
  is left, and a dataset with a schema does not follow it any more. A run keeps the schemas, whatever
  its sorts do, exactly when no dataset with a schema is sorted by an index beyond the schema while
  two of its rows tie in the keys before (the comparator being a strict weak order by those keys).
- Assigning a Null `Value` to a typed `DbValue` throws, and so does assigning a Null `DbValue` of
  another type, although Null fits every type (`CanAssignExactly`).

## Model

| member | source | states |
|---|---|---|
| Doubles.RoundMonotone | src/sl3/utils.hpp:28-62 | rounding a real to a double never turns an order around |
| Doubles.RoundNearest | src/sl3/utils.hpp:31-34 | no double is nearer to a real than the one it is rounded to |
| Doubles.RoundRepresentable | src/sl3/utils.hpp:31-34 | what a real is rounded to has a 53-bit significand and an exponent in range |
| Doubles.RoundBinade | src/sl3/utils.hpp:31-34 | every magnitude that does not overflow is rounded by rounding its significand in the spacing of its binade, ties to even, subnormals included |
| Doubles.RoundExact | src/sl3/utils.hpp:31-34 | a double is its own rounding |
| Doubles.RoundOverflow | src/sl3/utils.hpp:31-34 | a real becomes infinite exactly from half a spacing above the largest double on |
| Doubles.ToDoubleMonotone | src/sl3/utils.hpp:28-53 | converting int64 to double keeps the order, is finite and stays within 2^63 |
| Doubles.ToDoubleExact | src/sl3/value.cpp:440-463 | every int64 within 2^53, so every int, is converted exactly |
| Doubles.ToDoubleMax | src/sl3/value.cpp:58-62 | the largest int64 is 2^63 as a double |
| Values.AsInt32Exactly | src/sl3/value.cpp:48-65 | conversion to int accepts exactly the integers of the type and gives an equal int; each error exactly when it applies |
| Values.AsInt64Exactly | src/sl3/value.cpp:48-65 | conversion to int64 gives i exactly for the double i; 2^63 passes the rounded guard and is the one double without a defined result |
| Values.AsInt64Means | src/sl3/value.cpp:426-438 | which values of any type are read as which int64: the Int and the Real i as i, and each error exactly when it is thrown |
| Values.AsInt32Means | src/sl3/value.cpp:408-424 | likewise for int, where an Int has to be in range, too |
| Values.AsDoubleMeans | src/sl3/value.cpp:440-463 | a Real is read as itself and an Int as the nearest double; each error exactly |
| Values.DoubleAndBack | src/sl3/value.cpp:426-463 | an Int read as double and back is itself exactly when its conversion was exact; the largest int64 has no defined way back |
| ValueOrders.LexTotal | src/sl3/value.cpp:714-730 | the byte order of text and blobs decides between any two different ones, one way only |
| ValueOrders.LexLtIsFirstDifference | src/sl3/value.cpp:714-730 | texts and blobs are ordered by their first difference |
| ValueOrders.SqliteComparesExactly | include/sl3/value.hpp:289-299 | the comparison of an int64 with a double that SQLite sorts by is the exact one |
| ValueOrders.TypeLtFollowsTheRules | include/sl3/value.hpp:289-312 | value_type_lt follows its documented rules, those of SQLite and an Int before a Real of the same value, exactly for the pairs without an Int rounded down to the Real beside it and without a mistaken NaN |
| ValueOrders.LtFollowsTheRules | include/sl3/dataset.hpp:171-181 | value_lt follows the sorting rules of SQLite exactly for the pairs where rounding hides no difference and no NaN is mistaken |
| ValueOrders.RulesAreKeptWithin | include/sl3/value.hpp:289-312 | so both follow the rules while the Ints lie within 2^53 |
| ValueOrders.RulesAreBroken | src/sl3/value.cpp:693-701 | value_type_lt puts 2^53 + 1 before the Real 2^53, which is less by the rules; value_lt lets them tie |
| ValueOrders.TypeLtStrictWeak | src/sl3/value.cpp:681-731 | value_type_lt is a strict weak order on all values but NaN, and only equal values tie |
| ValueOrders.TypeLtStrictWeakIff | src/sl3/value.cpp:681-731 | on any set it is one exactly unless a NaN meets two different numbers |
| ValueOrders.LtPartial | src/sl3/value.cpp:792-842 | value_lt is a strict partial order on every set |
| ValueOrders.LtStrictWeakIff | src/sl3/value.cpp:792-842 | without NaN, value_lt is a strict weak order exactly when no two different Ints are rounded to one Real of the set |
| ValueOrders.LtStrictWeak | src/sl3/value.cpp:792-842 | value_lt is a strict weak order when the Ints lie within 2^53 or Int and Real are not mixed |
| ValueOrders.BorderIsSharp | src/sl3/value.cpp:792-842 | a bound on the Ints makes value_lt a strict weak order on all sets exactly when it is at most 2^53 |
| ValueOrders.LtWithinTypeLt | src/sl3/value.cpp:695-697 | value_type_lt extends value_lt by exactly the pairs of an Int and a Real it is rounded to |
| ValueOrders.SortedByTypeLt | include/sl3/value.hpp:289-312 | what value_type_lt has sorted has no inversion under value_lt |
| ValueOrders.EqIsTie | src/sl3/value.cpp:748-790 | value_eq holds exactly for what value_lt leaves undecided; never with a NaN |
| Tolerances.AlmostEqualSymmetric | src/sl3/value.cpp:33-46 | the tolerant equality is symmetric, in double arithmetic |
| Tolerances.AlmostEqualReflexive | src/sl3/value.cpp:33-46 | a double is almost equal to itself exactly when it is finite |
| Tolerances.SumOverflows | src/sl3/value.cpp:33-46 | any two doubles whose sum overflows are almost equal |
| Tolerances.AlmostEqualIsNear | src/sl3/value.cpp:33-46 | almost equal doubles whose sum does not overflow are apart by less than the 2^-49 part of the larger one, or by less than 2^-1020 |
| Tolerances.NeighboursAreAlmostEqual | src/sl3/value.cpp:33-46 | doubles of one binade at most three spacings apart are almost equal |
| Tolerances.OneAndTwoDiffer | src/sl3/value.cpp:33-46 | 1 and 2 are not almost equal |
| TypedValueOrders.TypeEqExactly | src/sl3/dbvalue.cpp:125-134 | dbval_type_eq asks for one type, and for the same value unless both are Real; then it is tolerant |
| TypedValueOrders.EqualAndLess | src/sl3/dbvalue.cpp:125-150 | dbval_type_eq and dbval_type_lt contradict each other exactly for different Reals that are almost equal |
| TypedValueOrders.DbValTypeLtStrictWeakIff | src/sl3/dbvalue.cpp:136-150 | dbval_type_lt is a strict weak order on a set without NaN exactly when no Variant Real lies just below an almost equal typed Real |
| TypedValueOrders.DbValTypeLtStrictWeak | src/sl3/dbvalue.cpp:136-150 | so it is one for values of one type, and for values whose different Reals are apart |
| TypedValueOrders.DbValTypeLtNotAsymmetric | src/sl3/dbvalue.cpp:136-150 | two rule-abiding values that are less than each other |
| ValueStorage.Value.Copy | src/sl3/value.cpp:141-168 | a copy holds the same value, and a new payload if that is text or blob |
| ValueStorage.Value.Move | src/sl3/value.cpp:170-206 | the value is handed over, the source is Null, and no payload is gained or lost |
| ValueStorage.Value.CopyAssign | src/sl3/value.cpp:208-260 | the target holds the source's value, also onto itself; tag and live member agree; payloads balance |
| ValueStorage.Value.MoveAssign | src/sl3/value.cpp:262-322 | the old source value is transferred and the source is always Null, so a move onto itself leaves Null |
| ValueStorage.Value.EjectText | src/sl3/value.cpp:541-560 | a text is handed out and Null stays, anything else throws and is unchanged |
| ValueStorage.Value.EjectBlob | src/sl3/value.cpp:562-582 | a blob is handed out and Null stays, anything else throws and is unchanged |
| ValueStorage.Value.Swap | src/sl3/value.cpp:733-740 | any two values are exchanged, whatever their tags, and a value swapped with itself is unchanged |
| ValuePool.Pool.Perform | src/sl3/value.cpp:88-405 | over every run of calls on any Values the contents are those of plain values, every tag names the live member, and constructed minus destroyed payloads is the number held |
| ValuePool.StepExactly | src/sl3/value.cpp:208-405 | what a call on plain values makes of each object: the one it names changes as it says, the others stay |
| ValuePool.Pool.DestroyAll | src/sl3/value.cpp:129-139 | when all Values are destroyed, every payload constructed was destroyed |
| TypedValues.CanAssignExactly | src/sl3/dbvalue.cpp:468-484 | canAssign is the condition under which the type rule survives, but for a Null of another type |
| TypedValues.AssignExactly | src/sl3/dbvalue.cpp:206-230 | an assignment takes the value and keeps the type, or throws ErrTypeMisMatch, exactly by whether the value fits |
| TypedValues.StoreExactly | src/sl3/dbvalue.cpp:166-204 | a value is constructed or stored exactly when it fits and is not a Null for a type |
| TypedValues.StoreInt32Exactly | src/sl3/dbvalue.cpp:275-291 | an int is stored without loss in an Int, a Real or a variant, and nowhere else |
| TypedValues.DbValue.Set | src/sl3/dbvalue.cpp:267-318 | stores a value of the type, or throws and changes nothing; the rule and the type stay |
| TypedValues.DbValue.SetInt32 | src/sl3/dbvalue.cpp:275-284 | an int goes into a Real as a double |
| TypedValues.DbValue.CopyAssign | src/sl3/dbvalue.cpp:206-217 | takes the value exactly when canAssign says so and keeps its own type |
| TypedValues.DbValue.MoveAssign | src/sl3/dbvalue.cpp:219-230 | the same, and leaves Null behind |
| TypedValues.RunKeepsRule | src/sl3/dbvalue.cpp:166-448 | over every run of constructors, set, assignment, eject and setNull, every DbValue holds Null or its type, and no type ever changes |
| Rows.DbValues.CopyAssign | src/sl3/dbvalues.cpp:44-64 | a row takes all values and keeps its types, or throws and is unchanged |
| Rows.DbValues.MoveAssign | src/sl3/dbvalues.cpp:66-83 | a row is taken over whole or not at all; an empty target accepts any row |
| Rows.DbValues.Swap | src/sl3/dbvalues.cpp:85-90 | two rows of any width and types are exchanged |
| Rows.AssignedRowFits | src/sl3/dbvalues.cpp:52-61 | assigned rows keep the rule, and every incoming value fits the type that was there |
| RowOrders.CompareRowsIsLexicographic | src/sl3/dataset.cpp:119-128 | a row is less exactly when some key is, all before it being ties; an invalid index is noticed exactly when all keys before it tie |
| RowOrders.RowOrderIsStrictWeak | src/sl3/dataset.cpp:119-130 | for any valid indexes the row order is a strict weak order when the comparator is one on every key column |
| RowSorts.ThrowsExactly | src/sl3/dataset.cpp:119-130 | sorting rows of one width throws exactly when two of them tie in the keys before the first invalid index, under a comparator that is a strict weak order by those keys |
| DatasetObjects.Dataset.LessValues | src/sl3/dataset.cpp:119-128 | the loop over the keys computes that comparison |
| DatasetObjects.Dataset.Insert | src/sl3/dbvalues.cpp:66-83 | moving a row through a temporary into emptied slots never throws for a mismatch, and puts it below exactly the rows it is less than |
| DatasetObjects.Dataset.Sort | src/sl3/dataset.cpp:114-131 | the result is a permutation of whole rows, sorted when the row order is a strict weak order on the rows; an index that no row has throws exactly when two rows tie in the keys before it, and otherwise those keys sort; a sort that throws leaves a permutation or loses one row |
| DefaultSort.SortByInvalidIndex | include/sl3/dataset.hpp:171-181 | one Int column, sorted by it and by an invalid index: ErrOutOfRange exactly when a value occurs twice, else sorted; after it the rows are permuted or the schema is broken |
| DefaultSort.DefaultSortableIff | include/sl3/dataset.hpp:171-181 | for any keys without NaN the row order under the default comparator is a strict weak order exactly when no clash of three rows is left undecided by the keys before and after it |
| DefaultSort.DefaultSortableByOne | include/sl3/dataset.hpp:171-181 | for one key exactly when its column has no two Ints rounded to one Real of the column |
| DefaultSort.DefaultSortableWithoutClash | include/sl3/dataset.hpp:171-181 | for several keys it is enough that no key column has such a clash |
| DefaultSort.ClashDecidedBefore | include/sl3/dataset.hpp:171-181 | it is not necessary: three rows with a clash in the second key that the first key decides |
| DefaultSort.DefaultSortable | include/sl3/dataset.hpp:171-181 | so it sorts when the Ints of each key lie within 2^53 or the key does not mix Int and Real |
| DefaultSort.SortFollowsSqliteIff | include/sl3/dataset.hpp:171-181 | for one key without NaN, everything the sort may leave is sorted by the rules of SQLite, exactly when no Int of the column is rounded to a different Real of it |
| DefaultSort.SortedAgainstSqlite | include/sl3/dataset.hpp:171-181 | two rows that are sorted to the default comparator and in the wrong order to SQLite |
| DatasetObjects.Dataset.MergeRow | src/sl3/dataset.cpp:81-101 | a fitting row is appended, any other throws and changes nothing |
| Datasets.MergeRowExactly | src/sl3/dataset.cpp:81-101 | without Type::Null in the schema a row is accepted exactly when the dataset follows its schema with it |
| Datasets.MergeRowAccepts | src/sl3/dataset.cpp:81-101 | a row is accepted exactly by its width and the types of the typed fields, and is the last one then |
| DatasetObjects.Dataset.Merge | src/sl3/dataset.cpp:57-79 | the rows of a fitting dataset are appended in order, any other throws and changes nothing |
| Datasets.MergeExactly | src/sl3/dataset.cpp:57-79 | accepted exactly when the names agree or one side has none and every typed field has its type in the other; then the other rows follow, in order, and nothing else changes |
| DatasetObjects.Dataset.GetIndex | src/sl3/dataset.cpp:103-112 | the first field of that name, or ErrOutOfRange when there is none |
| Datasets.RunKeepsSchema | src/sl3/dataset.cpp:43-131 | over all courses of a run of select, merge, reset and sort, a non-empty schema gives every row its width and every typed column its type after every call, exactly when no dataset with a schema is ever sorted in a way that may throw, which its indexes, the comparator and the rows tell before the call |
| Datasets.SortUnderSchema | src/sl3/dataset.cpp:114-131 | a dataset with a schema: the sort throws exactly when two rows tie in the keys before the first index beyond the schema, and otherwise keeps the schema |
| Datasets.RiskyCallMayBreak | src/sl3/dataset.cpp:114-131 | each sort that may throw has an outcome that breaks the schema |
| Datasets.SchemaMeaning | include/sl3/dataset.hpp:22-46 | so a typed column holds Null or its type and nothing else |
| ColumnReads.TypedRowExactly | src/sl3/columns.cpp:109-123 | a row is read exactly when every cell is Null or of the wanted type, and then holds all cells in order |
| ColumnReads.GetValueExactly | src/sl3/columns.cpp:46-83 | a cell is read exactly when the index is in range and the cell is Null or of the wanted type; each error otherwise |
| ColumnReads.GetRow | src/sl3/columns.cpp:109-123 | the loop over the columns reads that row, or throws what the first unreadable cell throws |
| ColumnReads.GetVariantRow | src/sl3/columns.cpp:98-107 | without types every cell becomes a variant of the same value |
| ColumnReads.GetNames | src/sl3/columns.cpp:85-96 | one name for every column, in order, empty where SQLite has none |
| Commands.BindReadRoundTrip | src/sl3/command.cpp:57-110 | a row whose bindings are defined is bound without refusal and read back, under its own types, as the same row exactly when no value is a NaN or longer than the length limit of SQLite |
| Commands.BindValueMeans | src/sl3/command.cpp:57-110 | what is bound for every value and size, what is refused, and what is undefined |
| CommandObjects.Command.Bind | src/sl3/command.cpp:57-110 | parameter i is bound at index i + 1 up to the first that is refused, because it is longer than the limit or the statement has no such parameter; the others keep what was bound before |
| CommandObjects.SetParametersExactly | src/sl3/command.cpp:294-306 | setParameters succeeds exactly for an assignable row; otherwise a prefix is new, and types never change |
| CommandObjects.SetParametersPrefix | src/sl3/command.cpp:294-306 | value i is new exactly when it and all before it may be assigned; success exactly when all may |
| CommandObjects.FirstRefused | src/sl3/command.cpp:302-305 | the values before this index may be assigned, the one at it may not |
| CommandObjects.Command.SetParameters | src/sl3/command.cpp:294-306 | the loop leaves exactly the values before the first refused one assigned |
| CommandObjects.Command.ResetParameters | src/sl3/command.cpp:308-314 | other types are taken, another count is refused |
| CommandObjects.Command.RunLoop | src/sl3/command.cpp:234-267 | delivers the rows of the cursor to the callback and resets the statement once, however the loop ends |
| CommandObjects.Command.Execute | src/sl3/command.cpp:226-268 | on a closed connection, with refused parameters or binding nothing is stepped, each with its error; otherwise the parameters are bound and the cursor is run with what is bound |
| CommandObjects.ReachesExactly | src/sl3/command.cpp:229-234 | the first step is reached exactly on an open connection with a statement, assignable parameters, not more than it has, and none too long |
| CommandObjects.BoundWhenReached | src/sl3/command.cpp:234 | then cell i is what binding parameter i gives, and cells without a parameter are as before |
| CommandObjects.Command.ExecuteRowCallback | src/sl3/command.cpp:214-224 | the same execution, reported as onStart, a row each, and onEnd exactly if nothing threw |
| CommandObjects.RowCallbackSees | src/sl3/command.cpp:214-224 | the events are the start, the first rows of the cursor in order, and the end exactly when the cursor ended without an error or the callback said stop |
| Commands.ExecuteSeesPrefix | src/sl3/command.cpp:241-267 | for every finite cursor the callback sees a prefix of the rows in order and goes on exactly as long as it says so |
| Selects.Select | src/sl3/command.cpp:167-200 | the dataset is what filling with all rows of the cursor gives; otherwise the first unreadable row, the cursor or the preparation decides the error |
| Selects.FillAllExactly | src/sl3/command.cpp:171-196 | that is one row per cursor row, in order, under the schema, and it fails exactly when a row cannot be read under it |
| Selects.ParametersComeBack | src/sl3/command.cpp:167-234 | parameters stored whole, bound to a statement that selects them, come back as the one row of the dataset |
| Selects.QueryResultExactly | src/sl3/command.cpp:167-200 | for every cursor: a row that cannot be read decides, then the way the cursor ends; otherwise all rows are there, in order, under the schema |
| Selects.SelectValue | src/sl3/database.cpp:144-158 | the first cell of the first row under the type, Null when there is no row, or the error |
| Selects.FirstValueExactly | src/sl3/database.cpp:128-158 | the first cell of a first row exactly when it fits the type, Null under the type without a row, and each error |
| DatabaseObjects.Database.Select | src/sl3/database.cpp:116-126 | the query of a text; its handle is finalized however the query ends |
| DatabaseObjects.Database.SelectValue | src/sl3/database.cpp:128-158 | likewise for a single value |
| Connections.Connection.Close | src/sl3/connection.hpp:90-111 | the loop ends, finalizes each live handle once and leaves none, so closing is never busy |
| CommandObjects.Command.Move | src/sl3/command.cpp:136-142 | the handle is handed over and the source has none |
| CommandObjects.Command.Destroy | src/sl3/command.cpp:144-153 | a handle is finalized exactly if its connection is still open |
| DatabaseObjects.Database.Move | src/sl3/database.cpp:55-60 | the connection is handed over and the source has a new, invalid one |
| DatabaseObjects.Database.Prepare | src/sl3/command.cpp:114-134 | a handle is made whenever SQLite compiles the text, also if the parameter count makes the constructor throw |
| Ownership.StepKeepsInv | src/sl3/command.cpp:114-153 | every call on databases and commands keeps each handle alive or finalized once, with one owner at most |
| Ownership.FinalizedOnce | src/sl3/connection.hpp:90-111 | over every run a handle is finalized at most once, and exactly once when its connection is closed |
| Ownership.LiveExactly | src/sl3/database.cpp:62-68 | over every run a connection with handles is open exactly while some Database holds it, and a handle is alive exactly while that is so and a command has it or its constructor threw |
| Ownership.OpenExactly | include/sl3/database.hpp:332-342 | over every run the connection of a command is open exactly while some Database holds it, whatever commands are left |
| Ownership.CommandOutlivesConnection | include/sl3/database.hpp:332-342 | a run that leaves a command whose connection is closed, although it is the last command |
| Ownership.CommandsCleanUp | src/sl3/command.cpp:144-153 | a live handle has a command or its constructor threw, so destroying all commands finalizes every correctly made handle while the databases are open |
| Ownership.NothingLeaks | src/sl3/database.cpp:62-68 | when all databases are gone, every handle was finalized, whatever commands are left |
| Ownership.MoveHandsOver | src/sl3/database.cpp:55-68 | over every run the target of a move holds the connection as it was, and destroying it closes that and finalizes its handles; the source has a new, invalid one |
| Ownership.DestroyFinalizes | src/sl3/command.cpp:136-153 | over every run destroying a command finalizes its handle on an open connection; a moved command hands it over |
| Ownership.PreparedExactly | src/sl3/command.cpp:114-134 | what preparing makes: nothing, a command without a handle, a command with one, or a handle alone |
| Ownership.ValidCommandIsLive | src/sl3/command.cpp:226-229 | a command that passes the validity check works on a live handle that no other command has |
| Ownership.ReleaseDoesNothing | src/sl3/connection.hpp:67 | in every call of every run the connection's destructor finds the connection closed, so letting go of it changes nothing |
| DatabaseObjects.Transaction.Commit | src/sl3/database.cpp:226-234 | on an open transaction SQLite's answer decides: accepted, it is committed and the guard ended; refused, the commit throws and nothing changes |
| DatabaseObjects.Transaction.Destroy | src/sl3/database.cpp:220-224 | an active guard rolls the open transaction back, an inactive one does nothing |
| DatabaseObjects.BeginTransaction | src/sl3/database.cpp:202-212 | a guard exists exactly if BEGIN succeeded |
| Transactions.EachBeginEndsOnce | src/sl3/database.cpp:202-234 | over every run, crashed or not, each BEGIN was committed once, or rolled back once, or is open, and never two of these |
| Transactions.EachBeginIsAnswered | src/sl3/database.cpp:202-234 | while no Database is pulled away under an active guard: no crash, one active guard per Database, and a BEGIN is committed exactly when a commit on its guard returned, rolled back exactly when its guard was destroyed active, and open exactly while its guard is active |
| Transactions.CommitExactly | src/sl3/database.cpp:226-234 | in a run, too: an accepted commit enters the transaction as committed, closes it and lets the guard go; a refused one changes nothing |
| Transactions.BeginExactly | src/sl3/database.cpp:208-212 | BEGIN makes a guard exactly if it is accepted and nothing is open |
| Transactions.MoveGuardExactly | src/sl3/database.cpp:214-218 | a moved guard hands over its Database and transaction, and ends nothing any more |
| Transactions.StatementsExactly | src/sl3/database.cpp:208-234 | how BEGIN, COMMIT and ROLLBACK end in every state of the connection |
| Transactions.CrashesExactly | src/sl3/database.cpp:220-224 | a run in which every guard comes to its end crashes exactly when a Database was moved, destroyed or rolled back by SQLite under an active guard |
| Transactions.CrashingRun | src/sl3/database.cpp:220-224 | a run for each of the three in which the guard's destructor brings the program down |

## Left out

- SQLite itself: SQL texts, files, column affinity and messages; a bound value is kept as it is, except that SQLite stores a NaN as NULL.
- Doubles.Double: a finite double is its real value, so the two zeros are not told apart; the order results hold for all reals, not only the representable ones.
- DatasetObjects.Dataset.Sort: an insertion sort stands for std::sort and makes the same kind of row moves; after a throwing comparison it is up to the library whether a row is lost, and which. When rows of different widths lack an index, it is up to the library which comparisons are made.
- Rows.DbValues.MoveAssign: nothing is promised about the cells of a row moved onto itself, since the standard leaves a vector unspecified then; the source of any other row move is taken to be empty.
- ValueStorage.Value: from DbValue upwards a Value is its content; that the stored form behaves like it is what ValuePool proves.
- DatasetObjects.Dataset.Merge: nothing is promised about a dataset merged into itself, since inserting a vector's own range is undefined.
- Selects.Select: the dataset is filled after the loop with the rows the callback saw, not in between.
- CommandObjects.Command: commands that were moved from are only destroyed, a callback does not use its own command or close the database, and onStart and onEnd do not throw.
- Commands.BindReadRoundTrip: says nothing of a row with an empty blob, whose first element is addressed, or a blob whose size becomes a negative int, since their binding has no defined result; the length limit of a connection does not change.
- Transactions.World: raw BEGIN, COMMIT or ROLLBACK texts beside a guard; a ROLLBACK is refused only when no transaction is open.
- Threads, allocation failure, stream output, type and error names, plain getters, range checks of Columns, getParameterNames, and losslessConvert2, which nothing calls.
