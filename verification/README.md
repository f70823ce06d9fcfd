# LightDB in Dafny

LightDB is a small relational query engine over integer tuples. A query is
answered by a tree of operators that each hand out one tuple per
`getNextTuple` call and can be `reset` to start again. The operators are:

- scan: reads a table's CSV file;
- select: filters by a WHERE condition;
- join: a tuple-nested-loop join;
- project;
- sum: SUM with optional GROUP BY;
- sort: ORDER BY;
- duplicate elimination: DISTINCT.

Around them sit:

- the schema, which maps fully qualified column names to positions;
- the catalog, which maps tables to their files and column lists;
- the WHERE-clause processor, which splits a condition into per-table selections and a join expression;
- two evaluators of conditions, one for selections and one for joins;
- the helpers of the entry point that check join conditions, find the SUM argument and build the ORDER BY comparator.

This project models that core and proves what it computes.

How the model is built:

- A tuple is a `datatype` over `seq<int>`. A schema is a `datatype` over `map<string, nat>`.
- A condition is the `Expr` datatype: integer literals, optionally qualified columns, the six comparisons, AND and OR.
- Exceptions become `Result<_, Error>` values. Java `null` becomes `Option`.
- Every operator is a `class` with its Java fields and its `getNextTuple` and `reset` as methods.
- The child operator an operator pulls from is modelled by `Streams.Stream`. It is a fixed sequence of tuples with a cursor: `getNextTuple` returns the next tuple, or `None` once the sequence is used up; `reset` rewinds the cursor.
- Each operator's methods are proved against a specification function of what the operator still has to produce. These functions are:
  - `Select.NextMatch` and `Select.Filter`;
  - `Join.JoinAll`;
  - `Distinct.NextUnique` and `Distinct.DistinctFrom`;
  - `Sort.StableSort`;
  - `Sum.Contributions` and `Sum.Sums`.

  Lemmas then state what those functions mean. For example:
  - a selection keeps exactly the tuples the condition holds of;
  - a join yields exactly the matching pairs, and without a condition the whole cross product;
  - DISTINCT keeps the first tuple of each key, in order;
  - ORDER BY yields a sorted, stable permutation;
  - each group's sum is the exact total taken modulo 2^64.

Where the code and the written description of the system disagree, the model follows the code:

- `JoinOperator.reset` resets both children but does not re-prime its two cursor fields. After the join has reached its end, a reset join produces nothing. This is recorded under Findings.
- `DuplicateEliminationOperator.reset` does nothing at all. It neither resets its child nor clears its set of seen keys, so a reset leaves the remaining output unchanged.
- `WhereClauseProcessor` does not handle `!=` conditions like the other comparisons. This is recorded under Findings.

## Model

| member | source | states |
|---|---|---|
| Tuples.GetValueByPos | src/main/java/ed/inf/adbs/lightdb/Tuple.java:37-39 | the value at the position exactly when the position lies inside the tuple; otherwise List.get's index exception |
| Tuples.Size | src/main/java/ed/inf/adbs/lightdb/Tuple.java:46-48 | the number of values of the tuple |
| Tuples.Rendered | src/main/java/ed/inf/adbs/lightdb/Tuple.java:57-61 | one decimal rendering per value, in order (the fields toString joins with ", ") |
| Tuples.Compare | src/main/java/ed/inf/adbs/lightdb/Tuple.java:77 | Integer.compare: -1, 0 or 1 exactly when the first value is smaller, equal or larger |
| Tuples.CompareTo | src/main/java/ed/inf/adbs/lightdb/Tuple.java:73-78 | fails with IllegalArgumentException exactly when the other tuple is null or the column lies outside either tuple; otherwise its sign is the order of the two column values |
| Tuples.CompareToAntisymmetric | src/main/java/ed/inf/adbs/lightdb/Tuple.java:73-78 | swapping the two tuples negates the comparison, and both directions fail together |
| Tuples.CompareToOnlyColumn | src/main/java/ed/inf/adbs/lightdb/Tuple.java:73-78 | tuples that agree at the compared column compare alike against any third tuple |
| Text.ParseInt | src/main/java/ed/inf/adbs/lightdb/ScanOperator.java:73 | Integer.parseInt over ASCII digits: the decimal value, present exactly when the text is an ASCII decimal numeral in the int range |
| Text.ParseLong | src/main/java/ed/inf/adbs/lightdb/SumOperator.java:87 | Long.parseLong over ASCII digits: the decimal value, present exactly when the text is an ASCII decimal numeral in the long range |
| Text.IntToStringRoundTrip | src/main/java/ed/inf/adbs/lightdb/Tuple.java:59 | an int rendered in decimal parses back to itself |
| Text.Wrap64 | src/main/java/ed/inf/adbs/lightdb/SumOperator.java:43 | Java long arithmetic: a value in the long range congruent to the exact value modulo 2^64 |
| Text.Wrap64Add | src/main/java/ed/inf/adbs/lightdb/SumOperator.java:43 | adding to a wrapped long and wrapping again is the exact sum wrapped, so the merge order does not change a group's sum |
| Text.ToInt32 | src/main/java/ed/inf/adbs/lightdb/SumOperator.java:138 | the (int) cast: a value in the int range congruent to the value modulo 2^32, the value itself when it fits |
| Text.ToInt32OfWrap64 | src/main/java/ed/inf/adbs/lightdb/SumOperator.java:138 | casting a wrapped long to int is casting the exact value |
| Text.SplitJoined | src/main/java/ed/inf/adbs/lightdb/ScanOperator.java:71 | String.split of fields joined by the separator gives the fields back, each after the first keeping its padding |
| Text.WordsOfJoin | src/main/java/ed/inf/adbs/lightdb/DatabaseCatalog.java:105 | trim().split("\\s+") of words joined by single spaces gives the words back |
| Text.IndexOf | src/main/java/ed/inf/adbs/lightdb/LightDB.java:273 | String.indexOf: the first position of the character, -1 exactly when it is absent |
| Text.LastIndexOf | src/main/java/ed/inf/adbs/lightdb/LightDB.java:273 | String.lastIndexOf: the last position of the character, -1 exactly when it is absent |
| Text.ToUpper | src/main/java/ed/inf/adbs/lightdb/LightDB.java:272 | toUpperCase restricted to ASCII: ASCII letters upper-cased, every other character kept, keeping the length |
| TableInfos.GetAlias | src/main/java/ed/inf/adbs/lightdb/TableInfo.java:42-44 | the alias when the table has one, otherwise the table name |
| Schemas.Qualify | src/main/java/ed/inf/adbs/lightdb/Schema.java:21 | "table.column": as long as the table name, a dot and the column together, with the dot right after the table name |
| Schemas.QualifyInjective | src/main/java/ed/inf/adbs/lightdb/Schema.java:21 | different columns of one table get different qualified names |
| Schemas.NewSchema | src/main/java/ed/inf/adbs/lightdb/Schema.java:19-25 | the constructor loop builds the mapping from each qualified column name to its position, a later duplicate overwriting an earlier one |
| Schemas.ColumnMapSpec | src/main/java/ed/inf/adbs/lightdb/Schema.java:19-25 | every column's qualified name is mapped, to a position at or after its own; every mapped name is the qualified name of the column at its position |
| Schemas.ColumnMapDistinct | src/main/java/ed/inf/adbs/lightdb/Schema.java:19-25 | with distinct column names, each qualified name maps to exactly its own position |
| Schemas.Combined | src/main/java/ed/inf/adbs/lightdb/Schema.java:54-61 | combine holds the names of both schemas; a name of the second is shifted by the first schema's size; a name only in the first keeps its position |
| Schemas.Combine | src/main/java/ed/inf/adbs/lightdb/Schema.java:54-61 | the forEach over the second schema, in any order the map yields, produces the combined mapping |
| Schemas.CombinedSize | src/main/java/ed/inf/adbs/lightdb/Schema.java:54-61 | schemas with no common name combine into one whose size is the sum of both |
| Schemas.CombinedLookup | src/main/java/ed/inf/adbs/lightdb/Schema.java:54-61 | after combining disjoint schemas, a first-schema name keeps its position and a second-schema name is found shifted by the first's size |
| Schemas.GetColumnIndex | src/main/java/ed/inf/adbs/lightdb/Schema.java:33-44 | the exact name's position when present; otherwise the position of some name ending in "." and the name, present exactly when such a name exists; otherwise null |
| Schemas.GetColumnIndexUniqueSuffix | src/main/java/ed/inf/adbs/lightdb/Schema.java:39-43 | when a single name ends with the unqualified name, its position is the answer |
| Schemas.UnqualifiedLookup | src/main/java/ed/inf/adbs/lightdb/Schema.java:33-44 | in a table's schema with distinct, dot-free column names, the bare column name resolves to the column's own position |
| Schemas.QualifiedLookup | src/main/java/ed/inf/adbs/lightdb/Schema.java:33-37 | in a table's schema with distinct column names, the qualified name resolves to the column's own position |
| Schemas.HasColumn | src/main/java/ed/inf/adbs/lightdb/Schema.java:69-72 | hasColumn holds exactly when getColumnIndex finds a position |
| Schemas.GetIndex | src/main/java/ed/inf/adbs/lightdb/SumOperator.java:92-93 | the position getColumnIndex finds, or -1 exactly when the schema does not have the column |
| Catalogs.Resolve | src/main/java/ed/inf/adbs/lightdb/DatabaseCatalog.java:114 | resolving a name adds it as the last component of the path |
| Catalogs.Tokens | src/main/java/ed/inf/adbs/lightdb/DatabaseCatalog.java:105 | trim then split at runs of whitespace: at least one token; no token holds whitespace; with two or more tokens none is empty |
| Catalogs.WithTokens | src/main/java/ed/inf/adbs/lightdb/DatabaseCatalog.java:104-117 | a line with fewer than two tokens changes nothing; otherwise the first token's path becomes data/<table>.csv and its columns the remaining tokens, no other table changing |
| Catalogs.TokenLines | src/main/java/ed/inf/adbs/lightdb/DatabaseCatalog.java:92-96 | one token list per line of the schema file, each the tokens of its line |
| Catalogs.LaterLineKeeps | src/main/java/ed/inf/adbs/lightdb/DatabaseCatalog.java:104-117 | a line that does not define a table leaves that table's entries as they were |
| Catalogs.LoadUntouched | src/main/java/ed/inf/adbs/lightdb/DatabaseCatalog.java:92-96 | tokenized lines none of which defines a table leave its entries as they were |
| Catalogs.LoadLastDefinition | src/main/java/ed/inf/adbs/lightdb/DatabaseCatalog.java:92-96 | the last tokenized line defining a table decides its path and its columns |
| Catalogs.WithLinesUntouched | src/main/java/ed/inf/adbs/lightdb/DatabaseCatalog.java:92-96 | a table no line defines keeps whatever entries it had |
| Catalogs.WithLinesLastDefinition | src/main/java/ed/inf/adbs/lightdb/DatabaseCatalog.java:92-96 | a table's entries come from the last line that defines it |
| Catalogs.WithLinesSnoc | src/main/java/ed/inf/adbs/lightdb/DatabaseCatalog.java:92-96 | loading n + 1 lines is loading n lines and then line n |
| Catalogs.SchemaLineTokens | src/main/java/ed/inf/adbs/lightdb/DatabaseCatalog.java:105-112 | a line written as a table name and its columns separated by spaces reads back as that name and those columns |
| Catalogs.DatabaseCatalog.AddTable | src/main/java/ed/inf/adbs/lightdb/DatabaseCatalog.java:49-51 | records the table's path and changes nothing else |
| Catalogs.DatabaseCatalog.constructor | src/main/java/ed/inf/adbs/lightdb/DatabaseCatalog.java:24 | an empty catalog: no table paths and no schemas |
| Catalogs.DatabaseCatalog.GetTablePath | src/main/java/ed/inf/adbs/lightdb/DatabaseCatalog.java:59-61 | the recorded path, null exactly when the table is unknown |
| Catalogs.DatabaseCatalog.AddSchema | src/main/java/ed/inf/adbs/lightdb/DatabaseCatalog.java:69-71 | records the table's column list and changes nothing else |
| Catalogs.DatabaseCatalog.GetSchema | src/main/java/ed/inf/adbs/lightdb/DatabaseCatalog.java:80-82 | the recorded column list, null exactly when the table is unknown |
| Catalogs.DatabaseCatalog.ParseAndAddTableSchema | src/main/java/ed/inf/adbs/lightdb/DatabaseCatalog.java:104-117 | the catalog afterwards is the catalog before with the line's tokens applied (WithTokens) |
| Catalogs.DatabaseCatalog.InitializeCatalog | src/main/java/ed/inf/adbs/lightdb/DatabaseCatalog.java:92-96 | the catalog afterwards is every line of the schema file applied in order |
| Scan.ParseFields | src/main/java/ed/inf/adbs/lightdb/ScanOperator.java:71-74 | every trimmed field parsed as an int, in order; fails exactly when some field is not an int |
| Scan.ParseLine | src/main/java/ed/inf/adbs/lightdb/ScanOperator.java:70-75 | one Java int per comma-separated field of the line |
| Scan.ParseLineRoundTrip | src/main/java/ed/inf/adbs/lightdb/ScanOperator.java:70-75 | int values written comma-separated, with or without a space after each comma, parse back to the same values |
| Scan.FieldRoundTrip | src/main/java/ed/inf/adbs/lightdb/ScanOperator.java:73 | a Java int written in decimal, with or without one leading space, trims and parses back to itself |
| Scan.RenderThenParse | src/main/java/ed/inf/adbs/lightdb/Tuple.java:57-61 | a tuple's toString reads back through the scan's parser as the same values |
| Scan.ScanOperator.GetNextTuple | src/main/java/ed/inf/adbs/lightdb/ScanOperator.java:45-60 | the next line parsed as a tuple; null for a line that does not parse (the line is still consumed), and null at the end of the file |
| Scan.ScanOperator.constructor | src/main/java/ed/inf/adbs/lightdb/ScanOperator.java:27-36 | the reader is opened at the table's first line |
| Scan.ScanOperator.Reset | src/main/java/ed/inf/adbs/lightdb/ScanOperator.java:83-94 | reading starts again from the first line |
| Streams.Stream.GetNextTuple | src/main/java/ed/inf/adbs/lightdb/Operator.java:20 | a child's next tuple, in order, then null for ever |
| Streams.Stream.constructor | src/main/java/ed/inf/adbs/lightdb/Operator.java:20-26 | a child positioned at its first tuple |
| Streams.Stream.Reset | src/main/java/ed/inf/adbs/lightdb/Operator.java:26 | the child starts again from its first tuple |
| Expressions.FullyQualifiedName | src/main/java/ed/inf/adbs/lightdb/SelectEvaluator.java:109 | "table.name" for a qualified column, the bare name otherwise |
| Expressions.ResolvableColumnsInSchema | src/main/java/ed/inf/adbs/lightdb/LightDB.java:228-238 | every column extractColumnNames lists for an expression a tuple can resolve is one the schema has |
| SelectEvaluation.Operand | src/main/java/ed/inf/adbs/lightdb/SelectEvaluator.java:108-119 | a column's value from the tuple, or "Column not found" when the schema lacks it; a literal's own value |
| SelectEvaluation.Visit | src/main/java/ed/inf/adbs/lightdb/SelectEvaluator.java:39-105 | for a condition every column of which resolves, the result is the condition's truth value; a lone literal leaves the result as it was |
| SelectEvaluation.Evaluate | src/main/java/ed/inf/adbs/lightdb/SelectOperator.java:61-68 | a fresh evaluator answers the condition's truth value for a resolvable tuple |
| SelectEvaluation.AndShortCircuit | src/main/java/ed/inf/adbs/lightdb/SelectEvaluator.java:88-95 | AND with a false left side answers false and never looks at its right side |
| SelectEvaluation.AndContinues | src/main/java/ed/inf/adbs/lightdb/SelectEvaluator.java:88-95 | AND with a true left side answers what its right side answers |
| SelectEvaluation.OrShortCircuit | src/main/java/ed/inf/adbs/lightdb/SelectEvaluator.java:98-105 | OR with a true left side answers true and never looks at its right side |
| SelectEvaluation.OrContinues | src/main/java/ed/inf/adbs/lightdb/SelectEvaluator.java:98-105 | OR with a false left side answers what its right side answers |
| SelectEvaluation.ComparisonColumnNotFound | src/main/java/ed/inf/adbs/lightdb/SelectEvaluator.java:117 | a comparison on a column the schema lacks raises "Column not found" for that column |
| Select.NextMatch | src/main/java/ed/inf/adbs/lightdb/SelectOperator.java:37-45 | skips only tuples the condition rejects; returns the first accepted tuple, null exactly when none is left, or the error of the tuple that failed |
| Select.DrainIsFilter | src/main/java/ed/inf/adbs/lightdb/SelectOperator.java:37-45 | pulling until null yields exactly the filtered remaining tuples, in order |
| Select.FilterHolds | src/main/java/ed/inf/adbs/lightdb/SelectOperator.java:37-45 | the filter keeps exactly the tuples the condition holds of |
| Select.FilterSkips | src/main/java/ed/inf/adbs/lightdb/SelectOperator.java:37-45 | tuples the condition rejects contribute nothing to the filter |
| Select.SelectOperator.GetNextTuple | src/main/java/ed/inf/adbs/lightdb/SelectOperator.java:37-45 | the result and the child's new position are NextMatch's |
| Select.SelectOperator.constructor | src/main/java/ed/inf/adbs/lightdb/SelectOperator.java:23-27 | keeps the child, the condition and the schema as given |
| Select.SelectOperator.Reset | src/main/java/ed/inf/adbs/lightdb/SelectOperator.java:51-53 | only the child is reset |
| JoinEvaluation.EvaluateColumn | src/main/java/ed/inf/adbs/lightdb/JoinEvalExpression.java:137-149 | positions before the left tuple's width read the left tuple, later ones the right tuple shifted by that width; an unknown column raises an error naming the column |
| JoinEvaluation.CompareValues | src/main/java/ed/inf/adbs/lightdb/JoinEvalExpression.java:151-170 | two Integers, or two Longs, compare as the operator says; an Integer or a Long never equals a value of another class; ordering values of different classes is a ClassCastException |
| JoinEvaluation.EvaluateExpression | src/main/java/ed/inf/adbs/lightdb/JoinEvalExpression.java:123-176 | a literal is a Long as written (an Integer as intended); a column's value is an Integer; comparisons give Booleans; OR is always unsupported, AND is unsupported as written and a Boolean as intended |
| JoinEvaluation.EvaluateAs | src/main/java/ed/inf/adbs/lightdb/JoinEvalExpression.java:110-121 | no condition accepts every pair; a Boolean result is the answer; any other result is an error, and an evaluation error is passed on |
| JoinEvaluation.Concat | src/main/java/ed/inf/adbs/lightdb/JoinOperator.java:138-147 | the left values followed by the right values |
| JoinEvaluation.EvaluateAgreesOnConcat | src/main/java/ed/inf/adbs/lightdb/JoinEvalExpression.java:123-176 | an OR-free condition resolvable on the combined tuple evaluates to its truth value on that tuple |
| JoinEvaluation.JoinConditionMeaning | src/main/java/ed/inf/adbs/lightdb/JoinEvalExpression.java:110-121 | such a condition accepts a pair exactly when it holds of the combined tuple |
| JoinEvaluation.ColumnComparisonReadings | src/main/java/ed/inf/adbs/lightdb/JoinEvalExpression.java:137-166 | between two columns, both Integers, the code as written and the intended reading agree |
| JoinEvaluation.TwoConditionJoinRejected | src/main/java/ed/inf/adbs/lightdb/JoinEvalExpression.java:128-131 | as written, a join on two column comparisons joined by AND throws on every pair; as intended it gives the conjunction's truth value |
| JoinEvaluation.ColumnAgainstLiteral | src/main/java/ed/inf/adbs/lightdb/JoinEvalExpression.java:124-125 | as written, a column is never equal to a literal holding its own value, and ordering them throws ClassCastException; as intended they are equal |
| JoinEvaluation.AndEvaluatesBothSides | src/main/java/ed/inf/adbs/lightdb/JoinEvalExpression.java:172-176 | AND evaluates both sides, so a false left side does not hide an error on the right |
| Join.Then | src/main/java/ed/inf/adbs/lightdb/JoinOperator.java:114-136 | output continues after a stretch only when that stretch did not end in an error |
| Join.AdvanceLeft | src/main/java/ed/inf/adbs/lightdb/JoinOperator.java:117-122 | a null right cursor fetches the next left tuple and restarts the right child without changing what remains to be produced |
| Join.AdvanceRight | src/main/java/ed/inf/adbs/lightdb/JoinOperator.java:129-130 | a rejected pair moves the right cursor on without changing what remains |
| Join.Emit | src/main/java/ed/inf/adbs/lightdb/JoinOperator.java:124-127 | an accepted pair's combination is the next row, and the right cursor moves on |
| Join.Fail | src/main/java/ed/inf/adbs/lightdb/JoinOperator.java:124 | a pair the condition cannot evaluate ends the output with that error |
| Join.MatchesAll | src/main/java/ed/inf/adbs/lightdb/JoinOperator.java:114-136 | without a condition one left tuple pairs with every right tuple, in order |
| Join.CrossProductSize | src/main/java/ed/inf/adbs/lightdb/JoinOperator.java:114-136 | without a condition the join never fails and has left-size times right-size rows |
| Join.CrossProductAt | src/main/java/ed/inf/adbs/lightdb/JoinOperator.java:114-136 | row i times the right size plus j is left tuple i combined with right tuple j |
| Join.MatchesMembers | src/main/java/ed/inf/adbs/lightdb/JoinOperator.java:114-136 | one left tuple's rows are its combinations with exactly the right tuples the condition accepts |
| Join.JoinAllMembers | src/main/java/ed/inf/adbs/lightdb/JoinOperator.java:114-136 | the join's rows are exactly the combinations of the pairs the condition accepts |
| Join.ResetAfterEndYieldsNothing | src/main/java/ed/inf/adbs/lightdb/JoinOperator.java:150-153 | after the end, the join as written produces nothing on reset, though the full join has a row |
| Join.JoinOperator.constructor | src/main/java/ed/inf/adbs/lightdb/JoinOperator.java:105-111 | primes each cursor with its child's first tuple, so from fresh children the pending output is the whole join |
| Join.JoinOperator.GetNextTuple | src/main/java/ed/inf/adbs/lightdb/JoinOperator.java:114-136 | returns the first pending row and leaves the rest pending; an error stops the stream; null when nothing is pending |
| Join.JoinOperator.NextLeft | src/main/java/ed/inf/adbs/lightdb/JoinOperator.java:114-136 | the outer step once the inner child is used up keeps the pending output and moves the outer cursor on |
| Join.JoinOperator.NextRight | src/main/java/ed/inf/adbs/lightdb/JoinOperator.java:114-136 | the inner step on a pair failing the condition keeps the pending output and the outer tuple and moves the inner cursor on |
| Join.JoinOperator.Reset | src/main/java/ed/inf/adbs/lightdb/JoinOperator.java:150-153 | resets both children but keeps both cursors: the stale inner loop then the whole join, or nothing after the end |
| Join.JoinOperator.ResetAndPrime | src/main/java/ed/inf/adbs/lightdb/JoinOperator.java:105-111 | reset with both cursors primed again: the whole join is pending once more |
| Project.ProjectColumn | src/main/java/ed/inf/adbs/lightdb/ProjectOperator.java:24-29 | the value at the column's position; "Column not found" when the schema lacks it; the index exception when the tuple is too short |
| Project.Projection | src/main/java/ed/inf/adbs/lightdb/ProjectOperator.java:22-31 | succeeds exactly when every projection column resolves; then one value per column, in list order |
| Project.ProjectionError | src/main/java/ed/inf/adbs/lightdb/ProjectOperator.java:22-31 | a failed projection fails with the error of the first column that does not resolve, every earlier one resolving |
| Project.ProjectValues | src/main/java/ed/inf/adbs/lightdb/ProjectOperator.java:22-31 | the loop appending values computes Projection |
| Project.ProjectionFailsOnward | src/main/java/ed/inf/adbs/lightdb/ProjectOperator.java:22-31 | once a prefix of the column list fails, the projection fails with that error |
| Project.ProjectAllColumns | src/main/java/ed/inf/adbs/lightdb/ProjectOperator.java:22-31 | projecting a table's tuple onto all its columns in order gives the tuple back |
| Project.ProjectionAppend | src/main/java/ed/inf/adbs/lightdb/ProjectOperator.java:22-31 | projecting onto two lists joined is the two projections joined |
| Project.ProjectOperator.GetNextTuple | src/main/java/ed/inf/adbs/lightdb/ProjectOperator.java:18-32 | the projection of the child's next tuple, or null when the child is done |
| Project.ProjectOperator.constructor | src/main/java/ed/inf/adbs/lightdb/ProjectOperator.java:11-15 | keeps the child, the schema and the projection columns as given |
| Project.ProjectOperator.Reset | src/main/java/ed/inf/adbs/lightdb/ProjectOperator.java:35-37 | delegates to the child |
| Sum.ColumnValues | src/main/java/ed/inf/adbs/lightdb/SumOperator.java:55-60 | each group-by column's value read at its getIndex position, or the index exception of the first that fails |
| Sum.GroupKeyRoundTrip | src/main/java/ed/inf/adbs/lightdb/SumOperator.java:141-145 | a group key read back as generateResults reads it gives the group-by values it was made from |
| Sum.GroupKeyInjective | src/main/java/ed/inf/adbs/lightdb/SumOperator.java:54-61 | two tuples share a group key exactly when their group-by values are equal |
| Sum.WrappedProductIsProduct | src/main/java/ed/inf/adbs/lightdb/SumOperator.java:127 | the long product reduced step by step is the exact product modulo 2^64 |
| Sum.WrappedProduct | src/main/java/ed/inf/adbs/lightdb/SumOperator.java:127 | the reduce over longs stays within the long range |
| Sum.ProductFactors | src/main/java/ed/inf/adbs/lightdb/SumOperator.java:121-126 | one trimmed column name per '*'-separated part of the expression |
| Sum.EvaluateProductExpression | src/main/java/ed/inf/adbs/lightdb/SumOperator.java:120-128 | the wrapped product of the trimmed factors' values, or the index exception of a factor that fails |
| Sum.FetchValueToSum | src/main/java/ed/inf/adbs/lightdb/SumOperator.java:79-110 | 0 for no expression; Long.parseLong of a numeric literal; the product for an expression holding '*'; otherwise the column value, or 0 when the column is unknown or out of range |
| Sum.FetchLiteral | src/main/java/ed/inf/adbs/lightdb/SumOperator.java:86-88 | an integer literal in the long range contributes its own value |
| Sum.FetchDecimalLiteral | src/main/java/ed/inf/adbs/lightdb/SumOperator.java:86-88 | a literal with a decimal point passes the pattern but is rejected by Long.parseLong |
| Sum.CollectSpec | src/main/java/ed/inf/adbs/lightdb/SumOperator.java:40-44 | the steps taken in order succeed exactly when each does; otherwise the first failing step's error |
| Sum.ContributionsSpec | src/main/java/ed/inf/adbs/lightdb/SumOperator.java:40-44 | the merge loop sees each tuple's group key and value in order, or stops at the first tuple that fails |
| Sum.ContributionsInt64 | src/main/java/ed/inf/adbs/lightdb/SumOperator.java:42 | every value merged for int tuples fits a long |
| Sum.ContributionsStep | src/main/java/ed/inf/adbs/lightdb/SumOperator.java:40-44 | one more tuple appends its group key and value, or ends the merge with its error |
| Sum.ContributionsFailOnward | src/main/java/ed/inf/adbs/lightdb/SumOperator.java:40-44 | once a prefix of the tuples fails, the whole aggregation fails with that error |
| Sum.SumsAppend | src/main/java/ed/inf/adbs/lightdb/SumOperator.java:43 | merging one more entry is HashMap.merge with Long::sum on the map so far |
| Sum.SumsKeys | src/main/java/ed/inf/adbs/lightdb/SumOperator.java:43 | the map has one entry per distinct group key met |
| Sum.SumsValues | src/main/java/ed/inf/adbs/lightdb/SumOperator.java:43 | each entry is its group's exact total modulo 2^64 |
| Sum.GroupTotalAbsent | src/main/java/ed/inf/adbs/lightdb/SumOperator.java:43 | a key no entry carries totals 0 |
| Sum.GroupTotalAll | src/main/java/ed/inf/adbs/lightdb/SumOperator.java:136-138 | when every entry carries the same key, that group's total is the total of all entries |
| Sum.SumOverRemove | src/main/java/ed/inf/adbs/lightdb/SumOperator.java:137 | summing the map's values does not depend on the order the keys are taken in |
| Sum.TotalSum | src/main/java/ed/inf/adbs/lightdb/SumOperator.java:137 | the long stream sum of the map's values, whatever their order, is their exact sum modulo 2^64 |
| Sum.GroupedResults | src/main/java/ed/inf/adbs/lightdb/SumOperator.java:141-148 | one row per map entry, as a set whatever the map's order: the key's values then the sum cast to int |
| Sum.GenerateResults | src/main/java/ed/inf/adbs/lightdb/SumOperator.java:134-150 | without group-by, a single row holding the int cast of the long total; otherwise the grouped rows |
| Sum.ParseFields | src/main/java/ed/inf/adbs/lightdb/SumOperator.java:142-144 | Integer.parseInt of every part, in order, or the NumberFormatException of the first part that is not an int |
| Sum.GroupedRow | src/main/java/ed/inf/adbs/lightdb/SumOperator.java:134-150 | every grouped row is some input tuple's group-by values followed by the int cast of that group's exact total |
| Sum.GlobalRow | src/main/java/ed/inf/adbs/lightdb/SumOperator.java:136-138 | without group-by, the single row is the int cast of the exact total of all contributions |
| Sum.SumOperator.PerformAggregation | src/main/java/ed/inf/adbs/lightdb/SumOperator.java:38-46 | drains the child; the map is the merge of the contributions and the results are generated from it; fails with the first tuple's error, or exactly when some group row cannot be built |
| Sum.SumOperator.MergeChild | src/main/java/ed/inf/adbs/lightdb/SumOperator.java:40-44 | drains the child; the map is the merge of every tuple's contribution, or the first tuple's error stops the drain |
| Sum.SumOperator.MergeTuple | src/main/java/ed/inf/adbs/lightdb/SumOperator.java:41-43 | adds one tuple's value to its group's running sum, or reports why its key or value cannot be made, touching nothing else |
| Sum.SumOperator.constructor | src/main/java/ed/inf/adbs/lightdb/SumOperator.java:27-33 | the fields as given, an empty map and no results yet |
| Sum.SumOperator.GetNextTuple | src/main/java/ed/inf/adbs/lightdb/SumOperator.java:159-161 | the results in order, then null |
| Sum.SumOperator.Reset | src/main/java/ed/inf/adbs/lightdb/SumOperator.java:167-169 | replays the results from the first |
| Sum.SumOperator.GetSchema | src/main/java/ed/inf/adbs/lightdb/SumOperator.java:176-180 | the group-by columns then "Sum", under the table name "Aggregated" |
| Sum.AggregatedSumColumn | src/main/java/ed/inf/adbs/lightdb/SumOperator.java:176-180 | "Aggregated.Sum" is the last position, after the group-by columns |
| Sum.Create | src/main/java/ed/inf/adbs/lightdb/SumOperator.java:27-33 | the constructor keeps its arguments and drains the child; it fails with the first tuple's error, or when a group row cannot be built; otherwise the map is the merge of the contributions and the results are the single global row, or one row per group |
| TupleComparators.CompareColumn | src/main/java/ed/inf/adbs/lightdb/TupleComparator.java:13-17 | fails with the index exception exactly when the column lies outside either tuple; otherwise its sign is the order of the two column values |
| TupleComparators.CompareColumnAntisymmetric | src/main/java/ed/inf/adbs/lightdb/TupleComparator.java:13-17 | swapping the tuples negates the comparison |
| TupleComparators.CompareColumnTransitive | src/main/java/ed/inf/adbs/lightdb/TupleComparator.java:13-17 | the order is transitive |
| TupleComparators.CompareColumnOnlyColumn | src/main/java/ed/inf/adbs/lightdb/TupleComparator.java:13-17 | only the compared column matters |
| Comparators.CompareWithSelf | src/main/java/ed/inf/adbs/lightdb/LightDB.java:135-144 | every comparator built from keys, reversal and thenComparing compares a tuple equal to itself wherever it succeeds |
| Comparators.CompareWithAntisymmetric | src/main/java/ed/inf/adbs/lightdb/LightDB.java:135-144 | every such comparator succeeds on a pair exactly when it does on the swapped pair, with the opposite sign |
| Comparators.CompareWithTransitive | src/main/java/ed/inf/adbs/lightdb/LightDB.java:135-144 | every such comparator is transitive where it succeeds |
| Comparators.DescendingReverses | src/main/java/ed/inf/adbs/lightdb/LightDB.java:138-140 | a descending key compares the swapped pair, placing larger values first |
| Comparators.CompositeIsLexicographic | src/main/java/ed/inf/adbs/lightdb/LightDB.java:130-145 | the composite comparator answers the first non-zero key comparison in clause order, and 0 when every key ties |
| Comparators.Keys | src/main/java/ed/inf/adbs/lightdb/LightDB.java:130-133 | each ORDER BY element's getIndex position with its direction, in clause order |
| Comparators.BuildComparator | src/main/java/ed/inf/adbs/lightdb/LightDB.java:124-145 | null exactly when there are no elements; otherwise the left-nested thenComparing chain of the element comparators |
| Sort.PairsOkPreorder | src/main/java/ed/inf/adbs/lightdb/SortOperator.java:28 | a comparator that succeeds on every pair of the buffer is a total preorder on it |
| Sort.PairsOkSign | src/main/java/ed/inf/adbs/lightdb/SortOperator.java:28 | on a buffer the comparator handles, a pair compares greater one way exactly when it compares less the other way |
| Sort.PairsOkTransitive | src/main/java/ed/inf/adbs/lightdb/SortOperator.java:28 | on a buffer the comparator handles, "not after" is transitive |
| Sort.Insert | src/main/java/ed/inf/adbs/lightdb/SortOperator.java:28 | inserting adds exactly the one element |
| Sort.StableSort | src/main/java/ed/inf/adbs/lightdb/SortOperator.java:28 | the sort's output is a permutation of its input |
| Sort.InsertSorted | src/main/java/ed/inf/adbs/lightdb/SortOperator.java:28 | inserting into a sorted list keeps it sorted |
| Sort.InsertTies | src/main/java/ed/inf/adbs/lightdb/SortOperator.java:28 | inserting places the new element after every element that ties with it |
| Sort.StableSortSorted | src/main/java/ed/inf/adbs/lightdb/SortOperator.java:28 | the output is in comparator order |
| Sort.StableSortTies | src/main/java/ed/inf/adbs/lightdb/SortOperator.java:28 | tuples that compare equal keep their input order (Collections.sort is stable) |
| Sort.StableSortCorrect | src/main/java/ed/inf/adbs/lightdb/SortOperator.java:23-29 | when every comparison succeeds, the buffer becomes a sorted, stable permutation of the child's tuples |
| Sort.SortOperator.LoadAndSortTuples | src/main/java/ed/inf/adbs/lightdb/SortOperator.java:23-29 | drains the child; the buffer is the stable sort when every comparison succeeds, otherwise the error of a failing pair |
| Sort.SortOperator.constructor | src/main/java/ed/inf/adbs/lightdb/SortOperator.java:16-21 | the child and comparator as given, an empty buffer at position 0 |
| Sort.SortOperator.GetNextTuple | src/main/java/ed/inf/adbs/lightdb/SortOperator.java:32-37 | the sorted buffer in order, then null |
| Sort.SortOperator.Reset | src/main/java/ed/inf/adbs/lightdb/SortOperator.java:40-42 | replays the buffer without re-sorting or touching the child |
| Sort.Create | src/main/java/ed/inf/adbs/lightdb/SortOperator.java:16-21 | the constructor succeeds exactly when every comparison does, holding the sorted buffer |
| Distinct.KeyOfAppend | src/main/java/ed/inf/adbs/lightdb/DuplicateEliminationOperator.java:38-42 | the key of joined values is the joined keys |
| Distinct.KeyOfInjective | src/main/java/ed/inf/adbs/lightdb/DuplicateEliminationOperator.java:37-43 | two value lists share a key (each value followed by a bar) exactly when they are equal |
| Distinct.SelectedValues | src/main/java/ed/inf/adbs/lightdb/DuplicateEliminationOperator.java:39-41 | succeeds exactly when every column index is non-null and inside the tuple; then the values at those positions, in order |
| Distinct.SelectedValuesError | src/main/java/ed/inf/adbs/lightdb/DuplicateEliminationOperator.java:39-41 | a failure comes from the first bad column index: a null index unboxes to a null-pointer error, a position outside the tuple to an index error |
| Distinct.TupleKeyIdentifies | src/main/java/ed/inf/adbs/lightdb/DuplicateEliminationOperator.java:37-43 | two tuples share a key exactly when they agree at every selected column |
| Distinct.NextUniqueSpec | src/main/java/ed/inf/adbs/lightdb/DuplicateEliminationOperator.java:24-34 | the look-ahead finds the first tuple whose key is unseen, having passed only seen keys, and records its key |
| Distinct.DistinctStep | src/main/java/ed/inf/adbs/lightdb/DuplicateEliminationOperator.java:46-52 | each call returns the look-ahead tuple and finds the next, the rest continuing from there |
| Distinct.DistinctPositions | src/main/java/ed/inf/adbs/lightdb/DuplicateEliminationOperator.java:24-52 | the output is the input tuples at increasing positions, namely exactly the first occurrences of unseen keys |
| Distinct.DistinctKeysUnique | src/main/java/ed/inf/adbs/lightdb/DuplicateEliminationOperator.java:28 | no two output tuples share a key, and none has a key seen before |
| Distinct.DistinctKeepsEveryKey | src/main/java/ed/inf/adbs/lightdb/DuplicateEliminationOperator.java:28 | every key of the input not seen before is carried by some output tuple |
| Distinct.NextUniqueFailure | src/main/java/ed/inf/adbs/lightdb/DuplicateEliminationOperator.java:27 | a failing look-ahead fails on the first tuple whose key cannot be made |
| Distinct.ColumnIndexesOf | src/main/java/ed/inf/adbs/lightdb/DuplicateEliminationOperator.java:17-19 | each column name's getColumnIndex, in order |
| Distinct.DuplicateEliminationOperator.constructor | src/main/java/ed/inf/adbs/lightdb/DuplicateEliminationOperator.java:11-20 | the column positions in order, no keys seen, no look-ahead yet |
| Distinct.DuplicateEliminationOperator.GenerateTupleKey | src/main/java/ed/inf/adbs/lightdb/DuplicateEliminationOperator.java:37-43 | the StringBuilder loop computes the tuple's key |
| Distinct.DuplicateEliminationOperator.FindNextUniqueTuple | src/main/java/ed/inf/adbs/lightdb/DuplicateEliminationOperator.java:24-34 | the loop stores the look-ahead's tuple, seen set and child position, or its error |
| Distinct.DuplicateEliminationOperator.PullOne | src/main/java/ed/inf/adbs/lightdb/DuplicateEliminationOperator.java:24-34 | one pass of the loop: stops at the end of the child, at a key that cannot be built or at a new key, recording the look-ahead; otherwise the child has moved on and the look-ahead still to find is unchanged |
| Distinct.DuplicateEliminationOperator.GetNextTuple | src/main/java/ed/inf/adbs/lightdb/DuplicateEliminationOperator.java:46-52 | returns the first pending unique tuple and leaves the rest pending; null for ever once done |
| Distinct.DuplicateEliminationOperator.Reset | src/main/java/ed/inf/adbs/lightdb/DuplicateEliminationOperator.java:55-56 | does nothing: the pending output is unchanged |
| Distinct.Create | src/main/java/ed/inf/adbs/lightdb/DuplicateEliminationOperator.java:11-22 | the constructor's first look-ahead: pending is the distinct tuples of the remaining child output, or an error when some key cannot be made |
| WhereClause.AppendExpression | src/main/java/ed/inf/adbs/lightdb/WhereClauseProcessor.java:279-285 | the first join condition alone, each later one AND-ed after the existing expression |
| WhereClause.AppendConditionFiles | src/main/java/ed/inf/adbs/lightdb/WhereClauseProcessor.java:220-231 | one table: appended to that table's list, other tables and the join unchanged; several: AND-ed onto the join; none: filed nowhere; the table set is cleared |
| WhereClause.ClassifyFilesEachComparison | src/main/java/ed/inf/adbs/lightdb/WhereClauseProcessor.java:213-276 | on an AND/OR tree of comparisons each comparison is filed by its own tables, in order; no AND or OR node is filed |
| WhereClause.FileEachContents | src/main/java/ed/inf/adbs/lightdb/WhereClauseProcessor.java:220-231 | each table's list gains the conditions on that table alone, in order; the join gains the multi-table ones |
| WhereClause.FiledByTables | src/main/java/ed/inf/adbs/lightdb/WhereClauseProcessor.java:192-289 | from a fresh processor: each table holds exactly its single-table comparisons in clause order, and the join expression is the multi-table ones AND-ed left to right |
| WhereClause.NotEqualsNeverFiled | src/main/java/ed/inf/adbs/lightdb/WhereClauseProcessor.java:233-276 | as written, a `!=` condition is filed nowhere and its table stays collected; the corrected processor files it under its table |
| WhereClause.NotEqualsLeaksIntoNext | src/main/java/ed/inf/adbs/lightdb/WhereClauseProcessor.java:233-276 | as written, in `A.x != 5 AND B.y = 3` the selection on B becomes the join expression |
| WhereClause.WhereClauseProcessor.constructor | src/main/java/ed/inf/adbs/lightdb/WhereClauseProcessor.java:193-196 | no conditions, no join expression, no tables |
| WhereClause.WhereClauseProcessor.GetConditionsForTable | src/main/java/ed/inf/adbs/lightdb/WhereClauseProcessor.java:204-206 | the table's list, an empty list for a table with none |
| WhereClause.WhereClauseProcessor.GetJoinExpression | src/main/java/ed/inf/adbs/lightdb/WhereClauseProcessor.java:208-210 | the join expression collected so far, null when no condition spans several tables |
| WhereClause.WhereClauseProcessor.AppendConditionTo | src/main/java/ed/inf/adbs/lightdb/WhereClauseProcessor.java:220-231 | the fields afterwards are AppendCondition of the fields before |
| WhereClause.WhereClauseProcessor.Visit | src/main/java/ed/inf/adbs/lightdb/WhereClauseProcessor.java:213-276 | the traversal leaves the fields as Classify says, or raises the null-table exception of an unqualified column; with `bucketsNe` false a `!=` comparison is not filed, as written, and with it true it is filed like the other comparisons |
| LightDB.InvolvedColumnsMembers | src/main/java/ed/inf/adbs/lightdb/LightDB.java:214-216 | a name is among the flattened columns exactly when some condition mentions it |
| LightDB.CanApplyJoinCondition | src/main/java/ed/inf/adbs/lightdb/LightDB.java:210-220 | false for a null or empty list; otherwise true exactly when every column of every condition is in the combined schema |
| LightDB.ResolvableConditionsApply | src/main/java/ed/inf/adbs/lightdb/LightDB.java:210-220 | conditions that resolve against a tuple of the schema are applicable |
| LightDB.SumItemParen | src/main/java/ed/inf/adbs/lightdb/LightDB.java:272-273 | in an item starting "SUM(" in any case, the first '(' is the fourth character |
| LightDB.SumArgument | src/main/java/ed/inf/adbs/lightdb/LightDB.java:273 | the text after "SUM(" up to the last ')', present exactly when a ')' follows; otherwise the substring's index exception |
| LightDB.SumArgumentOfSum | src/main/java/ed/inf/adbs/lightdb/LightDB.java:269-277 | SUM(x), in any ASCII letter case, yields x when x holds no ')' |
| LightDB.FindSumColumnName | src/main/java/ed/inf/adbs/lightdb/LightDB.java:269-277 | the argument of the first SUM item, or the exception it raises; null when no item is a SUM |

## Left out

- File and console I/O is not modelled. A table file is given as its sequence of lines, and the schema file as its lines. `Operator.dump`, `main`, `executeSQL`, the error printing and `Schema.printSchema` are not part of this model.
- The JSqlParser library is not modelled: parsing, the visitor double dispatch, and `ExpressionDeParser`'s string buffer. Conditions are the `Expr` datatype, and SELECT items are their text.
- The pipeline assembly in `executeSQL` is not modelled. It calls a list-valued `getJoinExpressions()` and passes SELECT items as column names, which do not match the classes' own signatures.
- `Schema.getIndex` is called by the sum and ORDER BY code but is not defined in `Schema.java`. `Schemas.GetIndex` models it as `getColumnIndex`, giving -1 for a missing column.
- Schemas.GetColumnIndex: where several names end with the unqualified name, Java returns whichever the HashMap yields first. The contract says only "some matching entry". The body picks the smallest position so that the function is deterministic.
- Sum.GroupedResults: the order of the grouped rows is the HashMap's. The contract states the rows as a set, and the `:|` choice stands in for the map's iteration order.
- Sort.SortOperator.LoadAndSortTuples: TimSort compares only some pairs. The model reports a comparator exception when any two buffered tuples cannot be compared, and it does not say which pair TimSort would have tried first.
- Text.ToUpper: restricted to ASCII letters. Java's `toUpperCase` follows Unicode: `ß` becomes `SS`, changing the length, and `ſ` becomes `S`. So LightDB.FindSumColumnName does not recognise a SELECT item such as `ſum(x)`, which Java would treat as a SUM.
- Text.ParseInt: restricted to ASCII digits. `Integer.parseInt` accepts any Unicode decimal digit, such as the fullwidth `１２`. Scan.ParseFields inherits this.
- Text.ParseLong: restricted to ASCII digits. `Long.parseLong` accepts any Unicode decimal digit. Sum.FetchValueToSum inherits this.
- Streams.Stream: a child is an infallible sequence of tuples. The operator contracts describe a child's output up to its first null, from children that never throw. In Java an exception from a child propagates through its parent: for instance select's "Column not found" or project's missing column, passing through join, sort, sum or duplicate elimination. The scan operator returns null on a malformed line and resumes on the next call, so its parent sees only the tuples before that line. No lemma connects the scan, select or project classes to `Stream`.
- Doubles in `SelectEvaluator`: the values are ints, which double represents exactly, so the comparisons are modelled over `int`.
- JoinEvaluation.EvaluateExpression: both the code as written (a literal is a `Long`; an AND reaches the binary branch and is rejected) and the intended reading are modelled; see "## Findings". The join operator uses the intended reading, through `JoinEvaluation.Evaluate`.
- JoinEvaluation: the re-parse through `CCJSqlParserUtil.parseCondExpression` is taken as the identity.
- The singleton holder of `DatabaseCatalog` and its lazy initialisation are not modelled; the catalog is an ordinary object.
- Constructors that can throw (sum, sort, duplicate elimination) are modelled by a static `Create` that returns the operator or the error.
- Distinct.DuplicateEliminationOperator.FindNextUniqueTuple: when a key cannot be made, the contract gives the error but not how far the child was consumed.
- WhereClause.WhereClauseProcessor.Visit: literal operands and columns are the only leaves. Other expression kinds that the JSqlParser adapter would traverse are not modelled.
- The fully commented-out files and earlier versions are not modelled: `AliasHandler.java`, `SpecificColumnsComparator.java`, `test.java`, and the old halves of `WhereClauseProcessor.java`, `JoinEvalExpression.java` and `JoinOperator.java`.
- Other code that is not part of this model: `findGroupByColumnNames`, `parseSelectItems` and the rest of `LightDB.java` beyond the listed helpers.

## Findings

| source | as written | input that shows it | evidently intended | confidence | as-written member | corrected member |
|---|---|---|---|---|---|---|
| src/main/java/ed/inf/adbs/lightdb/JoinOperator.java:150-153 | `reset` resets both children but keeps the `leftTuple`/`rightTuple` cursors, so after the join has ended (`leftTuple` null) it yields nothing again | left child `[1]`, right child `[2]`: one row `[1, 2]`; after draining and `reset`, `getNextTuple` returns null | reset restarts the whole join, re-priming both cursors as the constructor does | not executed | Join.ResetAfterEndYieldsNothing | Join.JoinOperator.ResetAndPrime |
| src/main/java/ed/inf/adbs/lightdb/WhereClauseProcessor.java:233-276 | no `visit(NotEqualsTo)` override, so a `!=` condition is never filed and the tables of its columns stay collected for the next condition | `A.x != 5` is dropped; `A.x != 5 AND B.y = 3` files `B.y = 3` as the join expression | `!=` is filed like the other comparisons | not executed | WhereClause.NotEqualsLeaksIntoNext | WhereClause.FiledByTables |
| src/main/java/ed/inf/adbs/lightdb/JoinEvalExpression.java:128-131 | JSqlParser's `AndExpression` extends `BinaryExpression`, so every AND goes to `evaluateBinaryExpression`, which evaluates both sides and then throws "Unsupported binary expression type"; `evaluateAndExpression` is never reached | the join condition `A.x = B.y AND A.z = B.w` throws on every pair of tuples | an AND is evaluated by `evaluateAndExpression`, giving the conjunction | not executed | JoinEvaluation.TwoConditionJoinRejected | JoinEvaluation.JoinConditionMeaning |
| src/main/java/ed/inf/adbs/lightdb/JoinEvalExpression.java:124-125 | a literal evaluates to a `Long` and a column to an `Integer`, so `equals` between them is false and `compareTo` throws ClassCastException | `B.y = 3` on a tuple with `B.y` = 3 is false; `B.y < 3` throws. Through the `!=` finding, `A.x != 5 AND B.y = 3` makes `B.y = 3` the join expression, so the join yields nothing | a literal compares with a column value by value | not executed | JoinEvaluation.ColumnAgainstLiteral | JoinEvaluation.JoinConditionMeaning |
