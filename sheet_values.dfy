/**
 * The two-column sheet as values: reading its rows into a snapshot (the
 * header row skipped, short rows dropped, the last row for a key winning)
 * and rendering a table listing as the values written back.
 */
module SheetValues {
  import opened Records

  /** One row of cell values as the sheet returns them. */
  type Row = seq<string>

  /** The header row, always first on the sheet and never data. */
  const Header: Row := ["Name", "Registration No"]

  /** Whether `row` has at least two cells and carries registration number `k`. */
  ghost predicate RowCarries(row: Row, k: RegNo) {
    |row| >= 2 && row[1] == k
  }

  /** Whether the data row at index `j` of `data` (never the header) carries registration number `k`. */
  ghost predicate CarriesKey(data: seq<Row>, j: int, k: RegNo) {
    1 <= j < |data| && RowCarries(data[j], k)
  }

  /** The map the data rows build: each row of two or more cells sets `row[1]` to `row[0]`. */
  function BodyMap(body: seq<Row>): (m: Snapshot)
  {
    if body == [] then map[]
    else
      var last := body[|body| - 1];
      var m := BodyMap(body[..|body| - 1]);
      if |last| >= 2 then m[last[1] := last[0]] else m
  }

  /** The sheet snapshot: every row after the first, read by `BodyMap`. */
  function SheetMap(data: seq<Row>): (m: Snapshot) {
    if data == [] then map[] else BodyMap(data[1..])
  }

  /**
   * Reads the sheet values into a snapshot with a loop over the rows after the
   * header, as the source does.
   */
  method BuildSheetMap(data: seq<Row>) returns (m: Snapshot)
    ensures m == SheetMap(data)
  {
    m := map[];
    if |data| == 0 {
      return;
    }
    var i := 1;
    while i < |data|
      invariant 1 <= i <= |data|
      invariant m == BodyMap(data[1..i])
    {
      var row := data[i];
      assert data[1..i + 1][..i - 1] == data[1..i];
      if |row| >= 2 {
        m := m[row[1] := row[0]];
      }
      i := i + 1;
    }
    assert data[1..i] == data[1..];
  }

  lemma {:induction false} BodyMapKeys(body: seq<Row>, k: RegNo)
    ensures k in BodyMap(body) <==> exists j :: 0 <= j < |body| && RowCarries(body[j], k)
    decreases |body|
  {
    if body != [] {
      var n := |body| - 1;
      var prefix := body[..n];
      BodyMapKeys(prefix, k);
      assert forall j :: 0 <= j < n ==> prefix[j] == body[j];
      if k in BodyMap(body) && !RowCarries(body[n], k) {
        var j :| 0 <= j < n && RowCarries(prefix[j], k);
        assert RowCarries(body[j], k);
      }
    }
  }

  /**
   * A registration number is on the sheet snapshot exactly when some row
   * other than the first has at least two cells and carries it.
   */
  lemma {:induction false} SheetMapKeys(data: seq<Row>, k: RegNo)
    ensures k in SheetMap(data) <==> exists j :: CarriesKey(data, j, k)
  {
    if data != [] {
      var body := data[1..];
      BodyMapKeys(body, k);
      if k in SheetMap(data) {
        var j :| 0 <= j < |body| && |body[j]| >= 2 && body[j][1] == k;
        assert CarriesKey(data, j + 1, k);
      }
      if exists j :: CarriesKey(data, j, k) {
        var j :| CarriesKey(data, j, k);
        assert body[j - 1] == data[j];
      }
    }
  }

  lemma {:induction false} BodyMapLastWins(body: seq<Row>, j: nat)
    requires j < |body| && |body[j]| >= 2
    requires forall j' :: j < j' < |body| && |body[j']| >= 2 ==> body[j'][1] != body[j][1]
    ensures body[j][1] in BodyMap(body) && BodyMap(body)[body[j][1]] == body[j][0]
    decreases |body|
  {
    var n := |body| - 1;
    if j < n {
      var prefix := body[..n];
      assert forall j' :: j < j' < n ==> prefix[j'] == body[j'];
      BodyMapLastWins(prefix, j);
    }
  }

  /**
   * When several data rows carry the same registration number, the snapshot
   * holds the name from the last of them.
   */
  lemma {:induction false} SheetMapLastWins(data: seq<Row>, j: int)
    requires 1 <= j < |data| && |data[j]| >= 2
    requires forall j' :: j < j' < |data| ==> !CarriesKey(data, j', data[j][1])
    ensures data[j][1] in SheetMap(data) && SheetMap(data)[data[j][1]] == data[j][0]
  {
    var body := data[1..];
    forall j' | j - 1 < j' < |body| && |body[j']| >= 2
      ensures body[j'][1] != body[j - 1][1]
    {
      assert body[j'] == data[j' + 1];
      assert !CarriesKey(data, j' + 1, data[j][1]);
    }
    BodyMapLastWins(body, j - 1);
  }

  lemma {:induction false} BodyMapSkipsShortRow(pre: seq<Row>, r: Row, post: seq<Row>)
    requires |r| < 2
    ensures BodyMap(pre + [r] + post) == BodyMap(pre + post)
    decreases |post|
  {
    if post == [] {
      assert (pre + [r] + post)[..|pre|] == pre;
      assert pre + post == pre;
    } else {
      var n := |post| - 1;
      BodyMapSkipsShortRow(pre, r, post[..n]);
      assert (pre + [r] + post)[..|pre| + 1 + n] == pre + [r] + post[..n];
      assert (pre + post)[..|pre| + n] == pre + post[..n];
    }
  }

  /** A row with fewer than two cells after the header adds nothing to the snapshot. */
  lemma {:induction false} SheetMapSkipsShortRow(pre: seq<Row>, r: Row, post: seq<Row>)
    requires |pre| >= 1 && |r| < 2
    ensures SheetMap(pre + [r] + post) == SheetMap(pre + post)
  {
    assert (pre + [r] + post)[1..] == pre[1..] + [r] + post;
    assert (pre + post)[1..] == pre[1..] + post;
    BodyMapSkipsShortRow(pre[1..], r, post);
  }

  /** The first row is never read as data, whatever it holds. */
  lemma SheetMapSkipsFirstRow(first: Row, other: Row, body: seq<Row>)
    ensures SheetMap([first] + body) == SheetMap([other] + body)
  {
  }

  /** One `[name, reg_no]` row per student row, in listing order. */
  function RecordRows(rows: seq<Student>): (data: seq<Row>)
  {
    if rows == [] then []
    else RecordRows(rows[..|rows| - 1]) + [[rows[|rows| - 1].name, rows[|rows| - 1].regNo]]
  }

  /** The values written back to the sheet: the header, then every table row. */
  function PushedSheet(rows: seq<Student>): (data: seq<Row>)
  {
    [Header] + RecordRows(rows)
  }

  lemma {:induction false} RecordRowsShape(rows: seq<Student>)
    ensures |RecordRows(rows)| == |rows|
    ensures forall i :: 0 <= i < |rows| ==> RecordRows(rows)[i] == [rows[i].name, rows[i].regNo]
    decreases |rows|
  {
    if rows != [] {
      var n := |rows| - 1;
      RecordRowsShape(rows[..n]);
    }
  }

  lemma {:induction false} RecordRowsReadBack(rows: seq<Student>)
    ensures BodyMap(RecordRows(rows)) == SnapshotOf(rows)
    decreases |rows|
  {
    if rows != [] {
      var n := |rows| - 1;
      RecordRowsReadBack(rows[..n]);
      var body := RecordRows(rows);
      assert body[..|body| - 1] == RecordRows(rows[..n]);
    }
  }

  /**
   * Pushing a full listing of a table writes exactly the header followed by
   * one `[name, reg_no]` row per table entry, and reading those values back
   * gives the table again.
   */
  lemma {:induction false} PushedSheetMirrorsTable(rows: seq<Student>, m: Snapshot)
    requires Lists(rows, m)
    ensures |PushedSheet(rows)| == |m| + 1 && PushedSheet(rows)[0] == Header
    ensures forall i :: 1 <= i < |PushedSheet(rows)| ==>
      var row := PushedSheet(rows)[i];
      |row| == 2 && row[1] in m && row[0] == m[row[1]]
    ensures SheetMap(PushedSheet(rows)) == m
  {
    RecordRowsShape(rows);
    RecordRowsReadBack(rows);
    ListedSnapshot(rows, m);
    var data := PushedSheet(rows);
    assert data[1..] == RecordRows(rows);
    forall i | 1 <= i < |data| ensures |data[i]| == 2 && data[i][1] in m && data[i][0] == m[data[i][1]] {
      assert data[i] == RecordRows(rows)[i - 1];
    }
  }
}
