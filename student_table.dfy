/**
 * The `student` table, `name` keyed by the primary key `reg_no`, with the
 * three single-row statements the pass issues and the full-table select.
 */
module StudentDb {
  import opened Records

  class StudentTable {
    /** The table's rows: registration number (primary key) to name. */
    var rows: Snapshot

    constructor (initial: Snapshot)
      ensures rows == initial
    {
      rows := initial;
    }

    /** `INSERT INTO student (name, reg_no)`: the primary key must not be taken yet. */
    method Insert(name: Name, regNo: RegNo)
      requires regNo !in rows
      modifies this
      ensures rows == old(rows)[regNo := name]
      ensures |rows| == |old(rows)| + 1
    {
      rows := rows[regNo := name];
    }

    /** `UPDATE student SET name WHERE reg_no`: changes that one key's name; no row matches an absent key. */
    method Update(name: Name, regNo: RegNo)
      modifies this
      ensures regNo in old(rows) ==> rows == old(rows)[regNo := name]
      ensures regNo !in old(rows) ==> rows == old(rows)
      ensures rows.Keys == old(rows).Keys
    {
      if regNo in rows {
        rows := rows[regNo := name];
      }
    }

    /** `DELETE FROM student WHERE reg_no`: removes that key's row, if any. */
    method Delete(regNo: RegNo)
      modifies this
      ensures rows == old(rows) - {regNo}
    {
      rows := rows - {regNo};
    }

    /** `SELECT name, reg_no FROM student`: every row once, in an order the table chooses. */
    method SelectAll() returns (result: seq<Student>)
      ensures Lists(result, rows)
    {
      result := [];
      var left := rows.Keys;
      while left != {}
        invariant left <= rows.Keys
        invariant |result| + |left| == |rows|
        invariant forall i :: 0 <= i < |result| ==>
          result[i].regNo in rows && result[i].regNo !in left && rows[result[i].regNo] == result[i].name
        invariant forall i, j :: 0 <= i < j < |result| ==> result[i].regNo != result[j].regNo
        invariant forall k :: k in rows && k !in left ==> exists i :: 0 <= i < |result| && result[i].regNo == k
        decreases left
      {
        var k :| k in left;
        ghost var before := result;
        result := result + [Student(rows[k], k)];
        left := left - {k};
        forall k' | k' in rows && k' !in left
          ensures exists i :: 0 <= i < |result| && result[i].regNo == k'
        {
          if k' == k {
            assert result[|before|].regNo == k';
          } else {
            var i :| 0 <= i < |before| && before[i].regNo == k';
            assert result[i].regNo == k';
          }
        }
      }
    }
  }
}
