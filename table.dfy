/**
  What the two history stores share: the connection probe, the table model
  handed to the history view, the failures the database can report, and the
  semantics of the two SQL statements that do more than insert one row,
  `ORDER BY Created` and `DELETE ... WHERE Created < ?`, over rows kept in
  insertion order.
 */
module Table {

  /** What Connection.isValid(2) does on the live connection. */
  datatype Probe = Valid | Invalid | Throws

  /** One cell of the history view; Stamp stands for a timestamp formatted as yyyy-MM-dd HH:mm:ss. */
  datatype Cell = Text(text: string) | Flag(flag: bool) | Stamp(time: int)

  /** DefaultTableModel: column names and rows of cells. */
  datatype TableModel = TableModel(columns: seq<string>, data: seq<seq<Cell>>)

  const EmptyModel := TableModel([], [])

  /** Where the SELECT of getHistoryTableModel throws SQLException, if it does. */
  datatype QueryFault =
    | NoFault
    | QueryFails               // createStatement, executeQuery or getMetaData throws
    | FetchFailsAfter(rows: nat)  // ResultSet.next throws after this many rows were read

  /** What Delete does: return a count, or let a NullPointerException escape. */
  datatype DeleteOutcome = Count(removed: nat) | NullConnection

  /** Timestamps are whole seconds of local date-time. */
  const SecondsPerDay := 86400

  /** LocalDateTime.now().minusDays(days). */
  function Cutoff(now: int, days: int): (c: int)
    ensures days >= 0 ==> c <= now
    ensures c + days * SecondsPerDay == now
  {
    now - days * SecondsPerDay
  }

  ghost predicate SortedBy<T>(s: seq<T>, key: T -> int) {
    forall i, j :: 0 <= i < j < |s| ==> key(s[i]) <= key(s[j])
  }

  /** Places x in the sorted s after every element whose key is smaller or equal. */
  function InsertByKey<T>(x: T, s: seq<T>, key: T -> int): (r: seq<T>)
    requires SortedBy(s, key)
    ensures |r| == |s| + 1
    ensures key(r[0]) == key(x) || (s != [] && key(r[0]) == key(s[0]))
    ensures SortedBy(r, key)
    ensures multiset(r) == multiset(s) + multiset{x}
  {
    if s == [] || key(x) < key(s[0]) then [x] + s
    else
      var rest := InsertByKey(x, s[1..], key);
      assert s == [s[0]] + s[1..];
      [s[0]] + rest
  }

  /** Before an element whose key is larger than x's, or into nothing, insertion puts x first. */
  lemma InsertByKeyFront<T>(x: T, s: seq<T>, key: T -> int)
    requires SortedBy(s, key) && (s == [] || key(x) < key(s[0]))
    ensures InsertByKey(x, s, key) == [x] + s
  {
  }

  /** Past an element whose key is not larger than x's, insertion keeps that element first and inserts into the rest. */
  lemma InsertByKeyPasses<T>(x: T, s: seq<T>, key: T -> int)
    requires SortedBy(s, key) && s != [] && key(s[0]) <= key(x)
    ensures SortedBy(s[1..], key)
    ensures InsertByKey(x, s, key) == [s[0]] + InsertByKey(x, s[1..], key)
  {
    assert SortedBy(s[1..], key) by {
      forall i, j | 0 <= i < j < |s[1..]|
        ensures key(s[1..][i]) <= key(s[1..][j])
      {
        assert s[1..][i] == s[i + 1] && s[1..][j] == s[j + 1];
      }
    }
  }

  /** The row order of `ORDER BY key`. */
  function OrderBy<T>(s: seq<T>, key: T -> int): (r: seq<T>)
    ensures SortedBy(r, key)
    ensures multiset(r) == multiset(s)
  {
    if s == [] then []
    else
      assert s == [s[0]] + s[1..];
      InsertByKey(s[0], OrderBy(s[1..], key), key)
  }

  /** Ordering keeps the same elements, as many as there were. */
  lemma OrderByMembers<T>(s: seq<T>, key: T -> int)
    ensures |OrderBy(s, key)| == |s|
    ensures forall x :: x in OrderBy(s, key) <==> x in s
  {
    var r := OrderBy(s, key);
    assert |multiset(r)| == |multiset(s)|;
    forall x
      ensures x in r <==> x in s
    {
      assert x in r <==> x in multiset(r);
      assert x in s <==> x in multiset(s);
    }
  }

  /** The rows `WHERE key < cutoff` selects, in table order. */
  function Older<T>(s: seq<T>, key: T -> int, cutoff: int): (r: seq<T>)
    ensures |r| <= |s|
    ensures forall y :: y in r ==> key(y) < cutoff
  {
    if s == [] then []
    else if key(s[0]) < cutoff then [s[0]] + Older(s[1..], key, cutoff)
    else Older(s[1..], key, cutoff)
  }

  /** The rows a `DELETE ... WHERE key < cutoff` leaves, in table order. */
  function Retained<T>(s: seq<T>, key: T -> int, cutoff: int): (r: seq<T>)
    ensures |r| <= |s|
    ensures forall y :: y in r ==> key(y) >= cutoff
  {
    if s == [] then []
    else if key(s[0]) < cutoff then Retained(s[1..], key, cutoff)
    else [s[0]] + Retained(s[1..], key, cutoff)
  }

  /** Deletion splits the table: every row is either removed or retained, never both, never lost. */
  lemma {:induction false} RetentionSplits<T>(s: seq<T>, key: T -> int, cutoff: int)
    ensures multiset(Older(s, key, cutoff)) + multiset(Retained(s, key, cutoff)) == multiset(s)
    ensures |Older(s, key, cutoff)| + |Retained(s, key, cutoff)| == |s|
  {
    if s != [] {
      RetentionSplits(s[1..], key, cutoff);
      assert s == [s[0]] + s[1..];
    }
  }

  /** A row survives deletion exactly when its key is at or after the cutoff. */
  lemma {:induction false} RetainedMembers<T>(s: seq<T>, key: T -> int, cutoff: int)
    ensures forall y :: y in Retained(s, key, cutoff) <==> y in s && key(y) >= cutoff
  {
    if s != [] {
      RetainedMembers(s[1..], key, cutoff);
      assert s == [s[0]] + s[1..];
    }
  }

  /** A second deletion with the same cutoff removes nothing more. */
  lemma {:induction false} RetentionIdempotent<T>(s: seq<T>, key: T -> int, cutoff: int)
    ensures Retained(Retained(s, key, cutoff), key, cutoff) == Retained(s, key, cutoff)
    ensures Older(Retained(s, key, cutoff), key, cutoff) == []
  {
    if s != [] {
      RetentionIdempotent(s[1..], key, cutoff);
    }
  }

  /** When every key is at or after the cutoff nothing is removed. */
  lemma {:induction false} RetentionKeepsRecent<T>(s: seq<T>, key: T -> int, cutoff: int)
    requires forall y :: y in s ==> key(y) >= cutoff
    ensures Retained(s, key, cutoff) == s && Older(s, key, cutoff) == []
  {
    if s != [] {
      RetentionKeepsRecent(s[1..], key, cutoff);
    }
  }

  /** When every key is before the cutoff, as with a cutoff of now and zero days kept, every row is removed. */
  lemma {:induction false} RetentionClearsOlder<T>(s: seq<T>, key: T -> int, cutoff: int)
    requires forall y :: y in s ==> key(y) < cutoff
    ensures Retained(s, key, cutoff) == [] && Older(s, key, cutoff) == s
  {
    if s != [] {
      RetentionClearsOlder(s[1..], key, cutoff);
      assert s == [s[0]] + s[1..];
    }
  }

  /** A later cutoff (fewer days kept) removes at least as many rows. */
  lemma {:induction false} RetentionMonotone<T>(s: seq<T>, key: T -> int, early: int, late: int)
    requires early <= late
    ensures |Older(s, key, early)| <= |Older(s, key, late)|
  {
    if s != [] {
      RetentionMonotone(s[1..], key, early, late);
    }
  }
}
