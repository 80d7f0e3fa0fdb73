/** Erasing and verifying the rows of one subject in a mapped table. */
module TableLifecycle {
  import opened Wrappers
  import opened SupabaseMapping

  /** A row's nullable text values by column; every row has every column of its table. */
  type Row = map<string, Option<string>>

  datatype Commit = Committed | UncertainApplied | UncertainLost

  datatype TableError = PlanActionMismatch | ExpectationMismatch | FieldRequired | QueryFailed | CommitUncertain

  datatype Verification = Verification(satisfied: bool, remaining: nat)

  predicate Holds(row: Row, column: string, value: string) {
    column in row && row[column] == Some(value)
  }

  function Count(rows: seq<Row>, column: string, value: string): nat {
    if rows == [] then 0 else (if Holds(rows[0], column, value) then 1 else 0) + Count(rows[1..], column, value)
  }

  function DeleteRows(rows: seq<Row>, column: string, value: string): seq<Row> {
    if rows == [] then []
    else if Holds(rows[0], column, value) then DeleteRows(rows[1..], column, value)
    else [rows[0]] + DeleteRows(rows[1..], column, value)
  }

  function Nullify(row: Row, fields: seq<string>): Row {
    map c | c in row :: if c in fields then None else row[c]
  }

  function AnonymizeRows(rows: seq<Row>, column: string, value: string, fields: seq<string>): (r: seq<Row>)
    ensures |r| == |rows|
  {
    if rows == [] then []
    else
      [if Holds(rows[0], column, value) then Nullify(rows[0], fields) else rows[0]]
      + AnonymizeRows(rows[1..], column, value, fields)
  }

  function EraseRows(t: TableMapping, rows: seq<Row>, value: string): seq<Row> {
    match t.action
    case Delete => DeleteRows(rows, t.identityColumn, value)
    case Anonymize => AnonymizeRows(rows, t.identityColumn, value, t.fields)
  }

  predicate Queryable(t: TableMapping, columns: set<string>) {
    t.identityColumn in columns && forall f <- t.fields :: f in columns
  }

  /** The rows after one erase, and its answer: the number of rows it affected. */
  function Erase(t: TableMapping, planned: TableAction, subject: Subject, commit: Commit, columns: set<string>,
                 rows: seq<Row>): (seq<Row>, Result<nat, TableError>)
  {
    var value := SubjectValue(t, subject);
    if planned != t.action then (rows, Err(PlanActionMismatch))
    else if value.Err? then (rows, Err(FieldRequired))
    else if !Queryable(t, columns) then (rows, Err(QueryFailed))
    else
      (if commit == UncertainLost then rows else EraseRows(t, rows, value.value),
       if commit == Committed then Ok(Count(rows, t.identityColumn, value.value)) else Err(CommitUncertain))
  }

  function Verify(t: TableMapping, expected: TableAction, subject: Subject, columns: set<string>, rows: seq<Row>):
    Result<Verification, TableError>
  {
    var value := SubjectValue(t, subject);
    if expected != t.action then Err(ExpectationMismatch)
    else if value.Err? then Err(FieldRequired)
    else if t.identityColumn !in columns then Err(QueryFailed)
    else
      var remaining := Count(rows, t.identityColumn, value.value);
      Ok(Verification(remaining == 0, remaining))
  }

  /** A table behind its database connection. */
  class SubjectTable {
    const columns: set<string>
    var rows: seq<Row>

    ghost predicate Valid()
      reads this
    {
      forall row <- rows :: row.Keys == columns
    }

    constructor (columns: set<string>, rows: seq<Row>)
      requires forall row <- rows :: row.Keys == columns
      ensures Valid() && this.columns == columns && this.rows == rows
    {
      this.columns, this.rows := columns, rows;
    }

    method EraseTable(t: TableMapping, planned: TableAction, subject: Subject, commit: Commit)
      returns (affected: Result<nat, TableError>)
      requires Valid()
      modifies this
      ensures Valid()
      ensures (rows, affected) == Erase(t, planned, subject, commit, columns, old(rows))
    {
      if planned != t.action {
        return Err(PlanActionMismatch);
      }
      var value := SubjectValue(t, subject);
      if value.Err? {
        return Err(FieldRequired);
      }
      if !Queryable(t, columns) {
        return Err(QueryFailed);
      }
      var affectedCount := Count(rows, t.identityColumn, value.value);
      if commit != UncertainLost {
        EraseKeepsColumns(t, rows, value.value, columns);
        rows := EraseRows(t, rows, value.value);
      }
      if commit != Committed {
        return Err(CommitUncertain);
      }
      affected := Ok(affectedCount);
    }

    method VerifyTable(t: TableMapping, expected: TableAction, subject: Subject) returns (r: Result<Verification, TableError>)
      requires Valid()
      ensures r == Verify(t, expected, subject, columns, rows)
    {
      if expected != t.action {
        return Err(ExpectationMismatch);
      }
      var value := SubjectValue(t, subject);
      if value.Err? {
        return Err(FieldRequired);
      }
      if t.identityColumn !in columns {
        return Err(QueryFailed);
      }
      var remaining := Count(rows, t.identityColumn, value.value);
      r := Ok(Verification(remaining == 0, remaining));
    }
  }

  lemma {:induction false} EraseKeepsColumns(t: TableMapping, rows: seq<Row>, value: string, columns: set<string>)
    requires forall row <- rows :: row.Keys == columns
    ensures forall row <- EraseRows(t, rows, value) :: row.Keys == columns
    decreases |rows|
  {
    if rows != [] {
      EraseKeepsColumns(t, rows[1..], value, columns);
      assert rows[0] in rows;
      assert Nullify(rows[0], t.fields).Keys == rows[0].Keys;
    }
  }

  /** Anonymising leaves a row findable exactly when the identity column is not among the cleared ones. */
  lemma {:induction false} AnonymizeCounts(rows: seq<Row>, column: string, value: string, fields: seq<string>)
    ensures Count(AnonymizeRows(rows, column, value, fields), column, value)
            == if column in fields then 0 else Count(rows, column, value)
  {
    if rows != [] {
      AnonymizeCounts(rows[1..], column, value, fields);
      var after := AnonymizeRows(rows, column, value, fields);
      assert after[1..] == AnonymizeRows(rows[1..], column, value, fields);
    }
  }

  lemma {:induction false} DeleteCounts(rows: seq<Row>, column: string, value: string)
    ensures Count(DeleteRows(rows, column, value), column, value) == 0
    ensures Count(rows, column, value) == 0 ==> DeleteRows(rows, column, value) == rows
    ensures |DeleteRows(rows, column, value)| == |rows| - Count(rows, column, value)
  {
    if rows != [] {
      DeleteCounts(rows[1..], column, value);
      if !Holds(rows[0], column, value) {
        assert DeleteRows(rows, column, value)[1..] == DeleteRows(rows[1..], column, value);
        assert rows == [rows[0]] + rows[1..];
      }
    }
  }

  lemma {:induction false} AnonymizeNothing(rows: seq<Row>, column: string, value: string, fields: seq<string>)
    requires Count(rows, column, value) == 0
    ensures AnonymizeRows(rows, column, value, fields) == rows
  {
    if rows != [] {
      AnonymizeNothing(rows[1..], column, value, fields);
    }
  }

  /** An erase through any mapping leaves nothing to find exactly when the mapping deletes, clears the
    * identity column, or had nothing to find. */
  lemma ErasesExactly(t: TableMapping, rows: seq<Row>, value: string)
    ensures Count(EraseRows(t, rows, value), t.identityColumn, value) == 0 <==>
              t.action == Delete || t.identityColumn in t.fields || Count(rows, t.identityColumn, value) == 0
  {
    if t.action == Delete {
      DeleteCounts(rows, t.identityColumn, value);
    } else {
      AnonymizeCounts(rows, t.identityColumn, value, t.fields);
    }
  }

  /** A validated mapping always erases what it verifies, and erasing again changes nothing. */
  lemma ValidErasesAll(t: TableMapping, rows: seq<Row>, value: string)
    requires ValidTable(t)
    ensures var after := EraseRows(t, rows, value);
            Count(after, t.identityColumn, value) == 0 && EraseRows(t, after, value) == after
  {
    var after := EraseRows(t, rows, value);
    ErasesExactly(t, rows, value);
    if t.action == Delete {
      DeleteCounts(after, t.identityColumn, value);
    } else {
      AnonymizeNothing(after, t.identityColumn, value, t.fields);
    }
  }

  /** A delete removes every copy of the subject's rows and no copy of any other row. */
  lemma {:induction false} DeleteKeepsOthers(rows: seq<Row>, column: string, value: string, row: Row)
    ensures multiset(DeleteRows(rows, column, value))[row] == if Holds(row, column, value) then 0 else multiset(rows)[row]
  {
    if rows != [] {
      var after := DeleteRows(rows[1..], column, value);
      DeleteKeepsOthers(rows[1..], column, value, row);
      assert rows == [rows[0]] + rows[1..];
      assert multiset(rows) == multiset{rows[0]} + multiset(rows[1..]);
      assert multiset([rows[0]] + after) == multiset{rows[0]} + multiset(after);
    }
  }

  /** Anonymising changes row i only if it is the subject's, and then only in the mapped fields. */
  lemma {:induction false} AnonymizeKeepsOthers(rows: seq<Row>, column: string, value: string, fields: seq<string>, i: nat)
    requires i < |rows|
    ensures AnonymizeRows(rows, column, value, fields)[i]
            == if Holds(rows[i], column, value) then Nullify(rows[i], fields) else rows[i]
  {
    if i > 0 {
      AnonymizeKeepsOthers(rows[1..], column, value, fields, i - 1);
    }
  }

  // ----- what an erase and a verification do for a subject -----

  /** A row is the subject's: its identity column holds the value the mapped field holds. */
  ghost predicate RowOf(t: TableMapping, subject: Subject, row: Row) {
    && t.identityColumn in row && row[t.identityColumn].Some?
    && Identifies(t, subject, row[t.identityColumn].value)
  }

  function RowsAt(t: TableMapping, value: string, rows: seq<Row>): set<nat> {
    set i | 0 <= i < |rows| && Holds(rows[i], t.identityColumn, value)
  }

  lemma RowsAtSnoc(t: TableMapping, value: string, rows: seq<Row>, last: Row)
    ensures var at := RowsAt(t, value, rows);
            && |rows| !in at
            && RowsAt(t, value, rows + [last]) == if Holds(last, t.identityColumn, value) then at + {|rows|} else at
  {
    var longer := rows + [last];
    assert forall i | 0 <= i < |rows| :: longer[i] == rows[i];
    assert longer[|rows|] == last;
  }

  lemma {:induction false} CountIsSize(t: TableMapping, value: string, rows: seq<Row>)
    ensures Count(rows, t.identityColumn, value) == |RowsAt(t, value, rows)|
    decreases |rows|
  {
    if rows != [] {
      var front, last := rows[..|rows| - 1], rows[|rows| - 1];
      assert rows == front + [last];
      CountIsSize(t, value, front);
      CountSnoc(front, last, t.identityColumn, value);
      RowsAtSnoc(t, value, front, last);
    }
  }

  lemma {:induction false} CountSnoc(rows: seq<Row>, last: Row, column: string, value: string)
    ensures Count(rows + [last], column, value) == Count(rows, column, value) + if Holds(last, column, value) then 1 else 0
    decreases |rows|
  {
    if rows == [] {
      assert rows + [last] == [last];
    } else {
      assert (rows + [last])[1..] == rows[1..] + [last];
      CountSnoc(rows[1..], last, column, value);
    }
  }

  /** The subject's rows are those that hold its one value. */
  lemma RowsOfSubject(t: TableMapping, subject: Subject, value: string, rows: seq<Row>)
    requires SubjectValue(t, subject) == Ok(value)
    ensures forall row :: RowOf(t, subject, row) <==> Holds(row, t.identityColumn, value)
  {
    forall row: Row | t.identityColumn in row && row[t.identityColumn].Some?
      ensures Identifies(t, subject, row[t.identityColumn].value) <==> row[t.identityColumn].value == value
    {
      SubjectValueExactly(t, subject, row[t.identityColumn].value);
    }
  }

  /** Clearing a row: the mapped fields, and only those. */
  predicate Cleared(t: TableMapping, row: Row, after: Row) {
    && after.Keys == row.Keys
    && forall c | c in row :: after[c] == if c in t.fields then None else row[c]
  }

  /** When an erase answers what: the first of the causes that holds. */
  lemma EraseAnswers(t: TableMapping, planned: TableAction, subject: Subject, commit: Commit, columns: set<string>,
                     rows: seq<Row>)
    ensures var answer := Erase(t, planned, subject, commit, columns, rows).1;
            var mapped := planned == t.action;
            var queryable := t.identityColumn in columns && forall f <- t.fields :: f in columns;
            && (answer == Err(PlanActionMismatch) <==> !mapped)
            && (answer == Err(FieldRequired) <==> mapped && Unidentified(t, subject))
            && (answer == Err(QueryFailed) <==> mapped && !Unidentified(t, subject) && !queryable)
            && (answer == Err(CommitUncertain) <==>
                  mapped && !Unidentified(t, subject) && queryable && commit != Committed)
            && (answer.Ok? <==> mapped && !Unidentified(t, subject) && queryable && commit == Committed)
            && (answer.Ok? ==> answer.value == |set i | 0 <= i < |rows| && RowOf(t, subject, rows[i])|)
  {
    SubjectValueExactly(t, subject, "");
    if SubjectValue(t, subject).Ok? {
      var value := SubjectValue(t, subject).value;
      RowsOfSubject(t, subject, value, rows);
      CountIsSize(t, value, rows);
      assert RowsAt(t, value, rows) == set i | 0 <= i < |rows| && RowOf(t, subject, rows[i]);
    }
  }

  /** An erase that is committed, or may have been and was. */
  predicate Applied(t: TableMapping, planned: TableAction, subject: Subject, commit: Commit, columns: set<string>) {
    planned == t.action && !Unidentified(t, subject) && Queryable(t, columns) && commit != UncertainLost
  }

  /** What an erase leaves: every other row as often as before, or in its place; none of the subject's rows
    * when it deletes, and else those with the mapped fields cleared. One that is not applied changes nothing. */
  lemma EraseLeaves(t: TableMapping, planned: TableAction, subject: Subject, commit: Commit, columns: set<string>,
                    rows: seq<Row>)
    ensures var after := Erase(t, planned, subject, commit, columns, rows).0;
            && (!Applied(t, planned, subject, commit, columns) ==> after == rows)
            && (Applied(t, planned, subject, commit, columns) && t.action == Delete ==>
                  forall row :: multiset(after)[row] == if RowOf(t, subject, row) then 0 else multiset(rows)[row])
            && (Applied(t, planned, subject, commit, columns) && t.action == Anonymize ==>
                  && |after| == |rows|
                  && forall i | 0 <= i < |rows| ::
                       if RowOf(t, subject, rows[i]) then Cleared(t, rows[i], after[i]) else after[i] == rows[i])
  {
    SubjectValueExactly(t, subject, "");
    if Applied(t, planned, subject, commit, columns) {
      var value := SubjectValue(t, subject).value;
      RowsOfSubject(t, subject, value, rows);
      if t.action == Delete {
        forall row
          ensures multiset(DeleteRows(rows, t.identityColumn, value))[row]
                  == if RowOf(t, subject, row) then 0 else multiset(rows)[row]
        {
          DeleteKeepsOthers(rows, t.identityColumn, value, row);
        }
      } else {
        forall i | 0 <= i < |rows|
          ensures AnonymizeRows(rows, t.identityColumn, value, t.fields)[i]
                  == if RowOf(t, subject, rows[i]) then Nullify(rows[i], t.fields) else rows[i]
        {
          AnonymizeKeepsOthers(rows, t.identityColumn, value, t.fields, i);
        }
      }
    }
  }

  /** A verification counts the subject's rows, or says what is missing. */
  lemma VerifyAnswers(t: TableMapping, expected: TableAction, subject: Subject, columns: set<string>, rows: seq<Row>)
    ensures var answer := Verify(t, expected, subject, columns, rows);
            && (answer == Err(ExpectationMismatch) <==> expected != t.action)
            && (answer == Err(FieldRequired) <==> expected == t.action && Unidentified(t, subject))
            && (answer == Err(QueryFailed) <==>
                  expected == t.action && !Unidentified(t, subject) && t.identityColumn !in columns)
            && (answer.Err? ==> answer.error in {ExpectationMismatch, FieldRequired, QueryFailed})
            && (answer.Ok? ==>
                  && answer.value.remaining == |set i | 0 <= i < |rows| && RowOf(t, subject, rows[i])|
                  && (answer.value.satisfied <==> forall row <- rows :: !RowOf(t, subject, row)))
  {
    SubjectValueExactly(t, subject, "");
    if SubjectValue(t, subject).Ok? {
      var value := SubjectValue(t, subject).value;
      RowsOfSubject(t, subject, value, rows);
      CountIsSize(t, value, rows);
      var at := RowsAt(t, value, rows);
      assert at == set i | 0 <= i < |rows| && RowOf(t, subject, rows[i]);
      if at == {} {
        forall row | row in rows ensures !RowOf(t, subject, row) {
          var i :| 0 <= i < |rows| && rows[i] == row;
          assert i !in at;
        }
      } else {
        var i :| i in at;
        assert rows[i] in rows;
      }
    }
  }

  /** After a successful erase through a validated mapping no row is the subject's and the verification of
    * it is satisfied. */
  lemma ErasedVerifies(t: TableMapping, subject: Subject, columns: set<string>, rows: seq<Row>)
    requires ValidTable(t)
    requires Erase(t, t.action, subject, Committed, columns, rows).1.Ok?
    ensures var after := Erase(t, t.action, subject, Committed, columns, rows).0;
            && (forall row <- after :: !RowOf(t, subject, row))
            && Verify(t, t.action, subject, columns, after) == Ok(Verification(true, 0))
  {
    var value := SubjectValue(t, subject).value;
    ValidErasesAll(t, rows, value);
    VerifyAnswers(t, t.action, subject, columns, Erase(t, t.action, subject, Committed, columns, rows).0);
  }

  /** Subjects who differ only in the field that is not mapped are one to the table. */
  lemma OnlyMappedFieldCounts(t: TableMapping, planned: TableAction, one: Subject, other: Subject, commit: Commit,
                              columns: set<string>, rows: seq<Row>)
    requires t.subjectField == ApplicationUserId ==> one.applicationUserId == other.applicationUserId
    requires t.subjectField == Email ==> one.email == other.email
    ensures Erase(t, planned, one, commit, columns, rows) == Erase(t, planned, other, commit, columns, rows)
  {
  }

  /** No row is two subjects' whose mapped fields hold different values, so an erase for one leaves every
    * row of the other: as often as before when it deletes, in its place when it anonymises. */
  lemma OthersRowsStay(t: TableMapping, planned: TableAction, one: Subject, other: Subject, commit: Commit,
                       columns: set<string>, rows: seq<Row>, i: nat, value: string)
    requires i < |rows| && RowOf(t, other, rows[i])
    requires Identifies(t, one, value) && !Identifies(t, other, value)
    ensures var after := Erase(t, planned, one, commit, columns, rows).0;
            && !RowOf(t, one, rows[i])
            && (t.action == Delete ==> multiset(after)[rows[i]] == multiset(rows)[rows[i]])
            && (t.action == Anonymize ==> |after| == |rows| && after[i] == rows[i])
  {
    SubjectValueExactly(t, one, value);
    SubjectValueExactly(t, other, value);
    RowsOfSubject(t, one, value, rows);
    RowsOfSubject(t, other, SubjectValue(t, other).value, rows);
    EraseLeaves(t, planned, one, commit, columns, rows);
  }
}
