/** The `waivers` table of waiver.db and the routes of 3PL.py that list,
    add, update and delete its rows. */
module Waivers {
  import opened Tables
  import opened Keys
  import opened Api

  /** One row of `waivers`. */
  datatype Waiver = Waiver(id: int, suite: string, waiverId: string, moduleName: string, testCase: string, note: Option<string>)

  function WaiverRowId(w: Waiver): int { w.id }
  function WaiverSuite(w: Waiver): string { w.suite }

  /** The four fields `add_waiver` and `update_waiver` insist on. */
  predicate HasRequired(suite: Field, waiverId: Field, moduleName: Field, testCase: Field)
  {
    Present(suite) && Present(waiverId) && Present(moduleName) && Present(testCase)
  }

  /** The row a request with every required field writes under id. */
  function RowFrom(id: int, suite: Field, waiverId: Field, moduleName: Field, testCase: Field, note: Field): (w: Waiver)
    requires HasRequired(suite, waiverId, moduleName, testCase)
    ensures w.id == id && w.suite == Upper(suite.text)
    ensures w.waiverId == waiverId.text && w.moduleName == moduleName.text && w.testCase == testCase.text
    ensures w.note == Stored(note)
  {
    Waiver(id, Upper(suite.text), waiverId.text, moduleName.text, testCase.text, Stored(note))
  }

  /** A listing by suite holds exactly the rows of that suite, so a waiver
      appended under a suite shows up last in that suite's listing and
      nowhere else. */
  lemma ListAfterAdd(rows: seq<Waiver>, w: Waiver, suite: string)
    ensures Select(rows + [w], WaiverSuite, suite)
         == Select(rows, WaiverSuite, suite) + (if w.suite == suite then [w] else [])
  {
    SelectAppend(rows, [w], WaiverSuite, suite);
    assert Select([w], WaiverSuite, suite) == (if w.suite == suite then [w] else []) + Select([], WaiverSuite, suite);
  }

  class WaiverStore {
    /** The rows in rowid order. */
    var waivers: seq<Waiver>
    /** The id AUTOINCREMENT hands out next. */
    var nextId: int

    /** Ids are handed out in increasing order and never reused. */
    ghost predicate Valid()
      reads this
    {
      Ascending(waivers, WaiverRowId) && AllBelow(waivers, WaiverRowId, nextId)
    }

    /** `CREATE TABLE IF NOT EXISTS waivers` on a fresh database. */
    constructor ()
      ensures Valid() && waivers == [] && nextId == 1
    {
      waivers := [];
      nextId := 1;
    }

    /** `list_waivers`: the rows of the upper-cased suite, `ORDER BY id`. */
    method List(suite: string) returns (rows: seq<Waiver>)
      requires Valid()
      ensures forall w :: w in rows <==> w in waivers && w.suite == Upper(suite)
      ensures Ascending(rows, WaiverRowId)
    {
      rows := Select(waivers, WaiverSuite, Upper(suite));
      SelectAscending(waivers, WaiverRowId, WaiverSuite, Upper(suite));
    }

    /** `add_waiver`: a request missing a required field is refused and
        changes nothing; otherwise the row is appended under a fresh id. */
    method Add(suite: Field, waiverId: Field, moduleName: Field, testCase: Field, note: Field) returns (resp: Response)
      requires Valid()
      modifies this
      ensures Valid()
      ensures !HasRequired(suite, waiverId, moduleName, testCase) ==>
        resp == Failed(400, MissingFields) && waivers == old(waivers) && nextId == old(nextId)
      ensures HasRequired(suite, waiverId, moduleName, testCase) ==>
        && resp == Created(old(nextId))
        && waivers == old(waivers) + [RowFrom(old(nextId), suite, waiverId, moduleName, testCase, note)]
        && nextId == old(nextId) + 1
    {
      if !HasRequired(suite, waiverId, moduleName, testCase) {
        return Failed(400, MissingFields);
      }
      var w := RowFrom(nextId, suite, waiverId, moduleName, testCase, note);
      waivers := waivers + [w];
      resp := Created(nextId);
      nextId := nextId + 1;
    }

    /** `update_waiver`: every column of the row with this id is rewritten;
        404 when no row has the id. */
    method Update(id: int, suite: Field, waiverId: Field, moduleName: Field, testCase: Field, note: Field) returns (resp: Response)
      requires Valid()
      modifies this
      ensures Valid() && nextId == old(nextId)
      ensures !HasRequired(suite, waiverId, moduleName, testCase) ==>
        resp == Failed(400, MissingFieldsForUpdate) && waivers == old(waivers)
      ensures HasRequired(suite, waiverId, moduleName, testCase) ==>
        && waivers == Replace(old(waivers), WaiverRowId, id, RowFrom(id, suite, waiverId, moduleName, testCase, note))
        && resp == if Select(old(waivers), WaiverRowId, id) == [] then Failed(404, "waiver not found") else Done
    {
      if !HasRequired(suite, waiverId, moduleName, testCase) {
        return Failed(400, MissingFieldsForUpdate);
      }
      var affected := |Select(waivers, WaiverRowId, id)|;
      waivers := Replace(waivers, WaiverRowId, id, RowFrom(id, suite, waiverId, moduleName, testCase, note));
      resp := if affected == 0 then Failed(404, "waiver not found") else Done;
    }

    /** `delete_waiver`: removes the row with this id; 404 when there is none. */
    method Delete(id: int) returns (resp: Response)
      requires Valid()
      modifies this
      ensures Valid() && nextId == old(nextId)
      ensures waivers == Drop(old(waivers), WaiverRowId, id)
      ensures resp == if Select(old(waivers), WaiverRowId, id) == [] then Failed(404, "waiver not found") else Done
    {
      var affected := |Select(waivers, WaiverRowId, id)|;
      waivers := Drop(waivers, WaiverRowId, id);
      DropAscending(old(waivers), WaiverRowId, WaiverRowId, id);
      resp := if affected == 0 then Failed(404, "waiver not found") else Done;
    }
  }
}
