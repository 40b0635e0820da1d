/**
 * The records both stores hold: a student's name keyed by the student's
 * registration number, and the dictionary `sync_data` builds from the rows
 * the `student` table returns.
 */
module Records {

  /** A registration number: the primary key of the `student` table. */
  type RegNo = string

  /** A student's name: the one attribute a sync can change. */
  type Name = string

  /** The full state of one store at one instant: registration number to name. */
  type Snapshot = map<RegNo, Name>

  /** One row of `SELECT name, reg_no FROM student`. */
  datatype Student = Student(name: Name, regNo: RegNo)

  /**
   * The dictionary `{reg_no: name for name, reg_no in rows}`: every row's key
   * is present, and every key comes from some row carrying that name.
   */
  function SnapshotOf(rows: seq<Student>): (m: Snapshot)
    ensures forall i :: 0 <= i < |rows| ==> rows[i].regNo in m
    ensures forall k :: k in m ==>
      exists i :: 0 <= i < |rows| && rows[i].regNo == k && rows[i].name == m[k]
  {
    if rows == [] then map[]
    else
      var last := rows[|rows| - 1];
      var prefix := SnapshotOf(rows[..|rows| - 1]);
      assert forall i :: 0 <= i < |rows| - 1 ==> rows[..|rows| - 1][i] == rows[i];
      prefix[last.regNo := last.name]
  }

  /**
   * `rows` lists exactly the entries of `m`: one row per key, each with the
   * key's name, and no other rows.
   */
  ghost predicate Lists(rows: seq<Student>, m: Snapshot) {
    && |rows| == |m|
    && (forall i :: 0 <= i < |rows| ==> rows[i].regNo in m && m[rows[i].regNo] == rows[i].name)
    && (forall i, j :: 0 <= i < j < |rows| ==> rows[i].regNo != rows[j].regNo)
    && (forall k :: k in m ==> exists i :: 0 <= i < |rows| && rows[i].regNo == k)
  }

  /** The dictionary built from a full listing of a table is that table. */
  lemma ListedSnapshot(rows: seq<Student>, m: Snapshot)
    requires Lists(rows, m)
    ensures SnapshotOf(rows) == m
  {
  }
}
