/**
  The history store the window uses: one connection, checked by a liveness
  probe, and the HISTORY table with the columns FilePath, Question and
  Created. The table is kept in insertion order; Created is assigned by the
  database server when a row is inserted.
 */
module HistoryDataBase {
  import opened Table

  datatype Row = Row(filePath: string, question: string, created: int)

  function Created(r: Row): int {
    r.created
  }

  /** The columns of `SELECT FilePath, Question, Created`. */
  const Columns: seq<string> := ["FilePath", "Question", "Created"]

  /** resultSet.getObject(i), columns counted from 1; a timestamp is shown formatted. */
  function Column(r: Row, i: int): Cell
    requires 1 <= i <= |Columns|
  {
    if i == 1 then Text(r.filePath) else if i == 2 then Text(r.question) else Stamp(r.created)
  }

  /** One row of the history view. */
  function Cells(r: Row): seq<Cell> {
    [Column(r, 1), Column(r, 2), Column(r, 3)]
  }

  function Listing(rows: seq<Row>): (data: seq<seq<Cell>>)
    ensures |data| == |rows|
    ensures forall k :: 0 <= k < |rows| ==> data[k] == Cells(rows[k])
  {
    if rows == [] then [] else [Cells(rows[0])] + Listing(rows[1..])
  }

  /** What the history view receives from a live connection, given where the query fails. */
  function Select(rows: seq<Row>, fault: QueryFault): (model: TableModel)
    ensures |model.data| <= |rows|
    ensures fault != QueryFails ==> model.columns == Columns
  {
    var ordered := OrderBy(rows, Created);
    assert |ordered| == |rows| by {
      assert |multiset(ordered)| == |multiset(rows)|;
    }
    match fault
    case QueryFails => EmptyModel
    case NoFault => TableModel(Columns, Listing(ordered))
    case FetchFailsAfter(k) => TableModel(Columns, Listing(ordered[..if k < |ordered| then k else |ordered|]))
  }

  /** The rows of a listing are the rows listed, one for one. */
  lemma ListingMembers(s: seq<Row>)
    ensures forall r :: r in s ==> Cells(r) in Listing(s)
    ensures forall d :: d in Listing(s) ==> exists r :: r in s && d == Cells(r)
  {
    var data := Listing(s);
    forall r | r in s
      ensures Cells(r) in data
    {
      var k :| 0 <= k < |s| && s[k] == r;
      assert data[k] == Cells(r);
    }
  }

  /**
    Reading from a live connection shows every row of the table as
    (FilePath, Question, Created), and nothing else, ordered by Created.
   */
  lemma SelectListsTable(rows: seq<Row>)
    ensures var m := Select(rows, NoFault);
      && m.columns == ["FilePath", "Question", "Created"]
      && |m.data| == |rows|
      && (forall i, j :: 0 <= i < j < |m.data| ==> m.data[i][2].time <= m.data[j][2].time)
      && (forall r :: r in rows ==> Cells(r) in m.data)
      && (forall d :: d in m.data ==> exists r :: r in rows && d == Cells(r))
      && multiset(m.data) == multiset(Listing(rows))
  {
    var ordered := OrderBy(rows, Created);
    assert Select(rows, NoFault) == TableModel(Columns, Listing(ordered));
    OrderByMembers(rows, Created);
    ListingMembers(ordered);
    ListingOrdered(ordered);
    ListingOrderBy(rows);
  }

  /** Listing a row in front of others lists its cells in front. */
  lemma ListingCons(x: Row, s: seq<Row>)
    ensures Listing([x] + s) == [Cells(x)] + Listing(s)
  {
    assert ([x] + s)[1..] == s;
  }

  /** A row inserted in front is listed in front. */
  lemma ListingInsertFront(x: Row, s: seq<Row>)
    requires SortedBy(s, Created) && (s == [] || Created(x) < Created(s[0]))
    ensures multiset(Listing(InsertByKey(x, s, Created))) == multiset(Listing(s)) + multiset{Cells(x)}
  {
    InsertByKeyFront(x, s, Created);
    ListingCons(x, s);
  }

  /** Listing a row inserted by Created adds its cells once to the listing. */
  lemma {:induction false} ListingInsert(x: Row, s: seq<Row>)
    requires SortedBy(s, Created)
    ensures multiset(Listing(InsertByKey(x, s, Created))) == multiset(Listing(s)) + multiset{Cells(x)}
  {
    if s == [] || Created(x) < Created(s[0]) {
      ListingInsertFront(x, s);
    } else {
      InsertByKeyPasses(x, s, Created);
      var tail := s[1..];
      var rest := InsertByKey(x, tail, Created);
      ListingInsert(x, tail);
      ListingCons(s[0], rest);
      ListingCons(s[0], tail);
      assert s == [s[0]] + tail;
    }
  }

  /** Ordering by Created lists each row as often as the table holds it. */
  lemma {:induction false} ListingOrderBy(s: seq<Row>)
    ensures multiset(Listing(OrderBy(s, Created))) == multiset(Listing(s))
  {
    if s != [] {
      assert s == [s[0]] + s[1..];
      ListingOrderBy(s[1..]);
      ListingInsert(s[0], OrderBy(s[1..], Created));
      ListingCons(s[0], s[1..]);
    }
  }

  /** Rows sorted by Created are listed with non-decreasing Created cells. */
  lemma ListingOrdered(s: seq<Row>)
    requires SortedBy(s, Created)
    ensures forall i, j :: 0 <= i < j < |Listing(s)| ==> Listing(s)[i][2].time <= Listing(s)[j][2].time
  {
    var data: seq<seq<Cell>> := Listing(s);
    forall i: int, j: int | 0 <= i < j < |data|
      ensures data[i][2].time <= data[j][2].time
    {
      assert data[i][2].time == Created(s[i]);
      assert data[j][2].time == Created(s[j]);
    }
  }

  /** A row inserted through a live connection shows up in the next read. */
  lemma CreateThenList(rows: seq<Row>, imagePath: string, question: string, serverNow: int)
    ensures Cells(Row(imagePath, question, serverNow)) in Select(rows + [Row(imagePath, question, serverNow)], NoFault).data
  {
    SelectListsTable(rows + [Row(imagePath, question, serverNow)]);
  }

  /** After deleting the rows older than the cutoff, the next read shows only rows created at or after it. */
  lemma DeletionLeavesRecent(rows: seq<Row>, cutoff: int)
    ensures forall d: seq<Cell> :: d in Select(Retained(rows, Created, cutoff), NoFault).data ==> d[2].time >= cutoff
  {
    var kept := Retained(rows, Created, cutoff);
    SelectListsTable(kept);
    RetainedMembers(rows, Created, cutoff);
  }

  /** A read whose fetch fails part way shows a prefix of the full read. */
  lemma {:induction false} PartialReadIsPrefix(rows: seq<Row>, k: nat)
    ensures Select(rows, FetchFailsAfter(k)).columns == Columns
    ensures Select(rows, FetchFailsAfter(k)).data <= Select(rows, NoFault).data
  {
    var ordered := OrderBy(rows, Created);
    var n := if k < |ordered| then k else |ordered|;
    assert Listing(ordered[..n]) == Listing(ordered)[..n];
  }

  class DataBase {
    var hasConnection: bool  // DriverManager.getConnection succeeded, so connection != null
    var probe: Probe         // what connection.isValid(2) does
    var rows: seq<Row>       // the HISTORY table, in insertion order

    /** The constructor: the connection opens or not; the table already holds what was stored before. */
    constructor (connects: bool, liveness: Probe, stored: seq<Row>)
      ensures hasConnection == connects && probe == liveness && rows == stored
    {
      hasConnection, probe, rows := connects, liveness, stored;
    }

    /** isConnected: a connection exists and its validity probe answers true; a probe that throws counts as false. */
    function IsConnected(): (connected: bool)
      reads this
      ensures connected ==> hasConnection && probe == Valid
      ensures hasConnection && probe == Valid ==> connected
    {
      hasConnection && probe.Valid?
    }

    /**
      CreateData: INSERT INTO HISTORY (FilePath, Question); the server
      assigns Created. Nothing happens when the store is not connected, and
      a storage error is swallowed.
     */
    method CreateData(imagePath: string, question: string, serverNow: int, fails: bool)
      modifies this`rows
      ensures IsConnected() && !fails ==> rows == old(rows) + [Row(imagePath, question, serverNow)]
      ensures !IsConnected() || fails ==> rows == old(rows)
    {
      if IsConnected() {
        if !fails {
          rows := rows + [Row(imagePath, question, serverNow)];
        }
      }
    }

    /** getHistoryTableModel: fills the column names and the rows of the ordered result set. */
    method GetHistoryTableModel(fault: QueryFault) returns (model: TableModel)
      ensures !IsConnected() ==> model == EmptyModel
      ensures IsConnected() ==> model == Select(rows, fault)
    {
      if !IsConnected() {
        return TableModel([], []);
      }
      if fault == QueryFails {
        return TableModel([], []);
      }
      var resultSet := OrderBy(rows, Created);
      var columnNames := ReadColumnNames();
      var data := FetchRows(resultSet, fault);
      model := TableModel(columnNames, data);
    }

    /**
      Delete: DELETE FROM HISTORY WHERE Created < now - days. The connection
      check only logs, so without a connection the statement is still
      prepared on a null reference and the NullPointerException escapes; a
      storage error returns 0.
     */
    method Delete(days: int, now: int, fails: bool) returns (outcome: DeleteOutcome)
      modifies this`rows
      ensures !hasConnection ==> outcome == NullConnection && rows == old(rows)
      ensures hasConnection && fails ==> outcome == Count(0) && rows == old(rows)
      ensures hasConnection && !fails ==>
        rows == Retained(old(rows), Created, Cutoff(now, days)) &&
        outcome == Count(|Older(old(rows), Created, Cutoff(now, days))|)
    {
      if !hasConnection {
        return NullConnection;
      }
      if fails {
        return Count(0);
      }
      var cutoff := Cutoff(now, days);
      var removed := Older(rows, Created, cutoff);
      rows := Retained(rows, Created, cutoff);
      return Count(|removed|);
    }
  }

  /** The loop over the result set's metadata. */
  method ReadColumnNames() returns (columnNames: seq<string>)
    ensures columnNames == Columns
  {
    columnNames := [];
    for i := 1 to |Columns| + 1
      invariant columnNames == Columns[..i - 1]
    {
      columnNames := columnNames + [Columns[i - 1]];
    }
  }

  /** The loop over the columns of the current result row. */
  method ReadRow(r: Row) returns (row: seq<Cell>)
    ensures row == Cells(r)
  {
    row := [];
    for i := 1 to |Columns| + 1
      invariant row == Cells(r)[..i - 1]
    {
      row := row + [Column(r, i)];
    }
  }

  /** The loop over the result set, which stops where ResultSet.next throws. */
  method FetchRows(resultSet: seq<Row>, fault: QueryFault) returns (data: seq<seq<Cell>>)
    requires !fault.QueryFails?
    ensures fault.NoFault? ==> data == Listing(resultSet)
    ensures fault.FetchFailsAfter? ==>
      data == Listing(resultSet[..if fault.rows < |resultSet| then fault.rows else |resultSet|])
  {
    data := [];
    var next := 0;
    while next < |resultSet| && (fault.NoFault? || next < fault.rows)
      invariant 0 <= next <= |resultSet|
      invariant fault.FetchFailsAfter? ==> next <= fault.rows
      invariant data == Listing(resultSet[..next])
    {
      var row := ReadRow(resultSet[next]);
      assert resultSet[..next + 1] == resultSet[..next] + [resultSet[next]];
      ListingAppend(resultSet[..next], resultSet[next]);
      data := data + [row];
      next := next + 1;
    }
    assert fault.NoFault? ==> resultSet[..next] == resultSet;
  }

  lemma {:induction false} ListingAppend(rows: seq<Row>, r: Row)
    ensures Listing(rows + [r]) == Listing(rows) + [Cells(r)]
  {
  }
}
