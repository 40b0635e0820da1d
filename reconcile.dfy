/**
 * The decision rules of one reconciliation pass, as values: which sheet
 * entries are inserted or updated in the table, which table entries are
 * offered for deletion, which answers confirm a deletion, and the table a
 * completed pass leaves behind.
 */
module Reconcile {
  import opened Records

  /**
   * What a pass does to the table: entries to insert (keys only on the
   * sheet), entries to update (keys on both sides whose names differ) and
   * the keys offered for deletion (keys only in the table).
   */
  datatype Plan = Plan(inserts: Snapshot, updates: Snapshot, candidates: set<RegNo>)

  /** The plan for the table snapshot `db` and the sheet snapshot `sheet`, comparing names exactly. */
  function Diff(db: Snapshot, sheet: Snapshot): (p: Plan) {
    Plan(
      map k | k in sheet && k !in db :: sheet[k],
      map k | k in sheet && k in db && db[k] != sheet[k] :: sheet[k],
      set k | k in db && k !in sheet)
  }

  /** The table after the plan's inserts and updates, no deletion taken. */
  function Upserted(db: Snapshot, p: Plan): (r: Snapshot) {
    db + p.inserts + p.updates
  }

  /**
   * Every sheet key falls in exactly one class: inserted with the sheet's
   * name, updated to the sheet's name, or left alone because both names are
   * equal; deletion candidates are exactly the table keys missing from the sheet.
   */
  lemma DiffClassifiesKeys(db: Snapshot, sheet: Snapshot, k: RegNo)
    ensures var p := Diff(db, sheet);
      && (k in p.inserts <==> k in sheet && k !in db)
      && (k in p.updates <==> k in sheet && k in db && db[k] != sheet[k])
      && (k in p.inserts ==> p.inserts[k] == sheet[k])
      && (k in p.updates ==> p.updates[k] == sheet[k])
      && !(k in p.inserts && k in p.updates)
      && (k in p.candidates <==> k in db && k !in sheet)
  {
  }

  /**
   * Applying the inserts and updates converges the table on the sheet: every
   * sheet key holds the sheet's name and every other key keeps its entry.
   */
  lemma UpsertedConverges(db: Snapshot, sheet: Snapshot)
    ensures Upserted(db, Diff(db, sheet)) == db + sheet
    ensures forall k :: k in sheet ==> k in Upserted(db, Diff(db, sheet)) && Upserted(db, Diff(db, sheet))[k] == sheet[k]
    ensures forall k :: k !in sheet ==> (k in Upserted(db, Diff(db, sheet)) <==> k in db)
    ensures forall k :: k !in sheet && k in db ==> Upserted(db, Diff(db, sheet))[k] == db[k]
  {
  }

  /**
   * The plan is empty of inserts and updates exactly when every sheet entry
   * is already in the table with the same name.
   */
  lemma {:induction false} NothingToUpsertIff(db: Snapshot, sheet: Snapshot)
    ensures Diff(db, sheet).inserts == map[] && Diff(db, sheet).updates == map[]
        <==> forall k :: k in sheet ==> k in db && db[k] == sheet[k]
  {
    var p := Diff(db, sheet);
    if p.inserts == map[] && p.updates == map[] {
      forall k | k in sheet ensures k in db && db[k] == sheet[k] {
        DiffClassifiesKeys(db, sheet, k);
        assert k !in p.inserts && k !in p.updates;
      }
    }
    if forall k :: k in sheet ==> k in db && db[k] == sheet[k] {
      assert p.inserts.Keys == {};
      assert p.updates.Keys == {};
    }
  }

  /**
   * Diffing the converged table against the same sheet again finds nothing
   * to insert or update, and the same deletion candidates.
   */
  lemma DiffIdempotent(db: Snapshot, sheet: Snapshot)
    ensures Diff(Upserted(db, Diff(db, sheet)), sheet).inserts == map[]
    ensures Diff(Upserted(db, Diff(db, sheet)), sheet).updates == map[]
    ensures Diff(Upserted(db, Diff(db, sheet)), sheet).candidates == Diff(db, sheet).candidates
  {
  }

  /** ASCII lower-casing of one character. */
  function LowerChar(c: char): char {
    if 'A' <= c <= 'Z' then (c as int + 32) as char else c
  }

  /** Lower-casing of a string, character by character. */
  function Lower(s: string): (r: string)
    ensures |r| == |s|
    ensures forall i :: 0 <= i < |s| ==> r[i] == LowerChar(s[i])
  {
    if s == [] then [] else [LowerChar(s[0])] + Lower(s[1..])
  }

  /** An operator answer that confirms a deletion: it lower-cases to `"y"`. */
  predicate Affirmative(answer: string) {
    Lower(answer) == "y"
  }

  /** Exactly the answers `"y"` and `"Y"` confirm a deletion. */
  lemma AffirmativeIff(answer: string)
    ensures Affirmative(answer) <==> answer == "y" || answer == "Y"
  {
  }

  /** The deletion candidates the operator confirms, given the answer for each key. */
  function Confirmed(db: Snapshot, sheet: Snapshot, answer: RegNo -> string): (keys: set<RegNo>) {
    set k | k in Diff(db, sheet).candidates && Affirmative(answer(k))
  }

  /** The table a completed pass leaves: the sheet upserted, the confirmed candidates removed. */
  function Reconciled(db: Snapshot, sheet: Snapshot, answer: RegNo -> string): (r: Snapshot) {
    Upserted(db, Diff(db, sheet)) - Confirmed(db, sheet, answer)
  }

  /**
   * After a pass every sheet entry is in the table with the sheet's name,
   * and no key appears that was in neither store.
   */
  lemma ReconciledHoldsSheet(db: Snapshot, sheet: Snapshot, answer: RegNo -> string)
    ensures forall k :: k in sheet ==> k in Reconciled(db, sheet, answer) && Reconciled(db, sheet, answer)[k] == sheet[k]
    ensures forall k :: k in Reconciled(db, sheet, answer) ==> k in db || k in sheet
  {
  }

  /**
   * Deletion safety: a table key disappears exactly when it is missing from
   * the sheet and its answer is affirmative; a key the operator declines
   * keeps its name.
   */
  lemma DeletionSafety(db: Snapshot, sheet: Snapshot, answer: RegNo -> string, k: RegNo)
    requires k in db
    ensures k !in Reconciled(db, sheet, answer) <==> k !in sheet && Affirmative(answer(k))
    ensures k !in sheet && !Affirmative(answer(k)) ==> Reconciled(db, sheet, answer)[k] == db[k]
  {
  }

  /**
   * When the operator confirms every deletion offered, the table ends up
   * holding exactly the sheet's entries.
   */
  lemma AllConfirmedMirrorsSheet(db: Snapshot, sheet: Snapshot, answer: RegNo -> string)
    requires forall k :: k in db && k !in sheet ==> Affirmative(answer(k))
    ensures Reconciled(db, sheet, answer) == sheet
  {
  }

  /** A sheet that adds one student to the table yields one insert and nothing else. */
  lemma NewStudentScenario()
    ensures Diff(map["1" := "Alice"], map["1" := "Alice", "2" := "Bob"])
      == Plan(map["2" := "Bob"], map[], {})
  {
  }

  /**
   * A renamed student and a student missing from the sheet: one update, one
   * deletion candidate, and declining the deletion keeps that student.
   */
  lemma RenameAndDeclineScenario(answer: RegNo -> string)
    requires answer("2") == "n"
    ensures Diff(map["1" := "Alice", "2" := "Bob"], map["1" := "Alicia"])
      == Plan(map[], map["1" := "Alicia"], {"2"})
    ensures Reconciled(map["1" := "Alice", "2" := "Bob"], map["1" := "Alicia"], answer)
      == map["1" := "Alicia", "2" := "Bob"]
  {
  }
}
