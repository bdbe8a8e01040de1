/** retry.db as 3PL.py uses it: the `suites` table (the blocks a retry tip
    is filed under) and the `retry_tips` table. A tip names its suite only
    through its `type` text; nothing links the two tables. */
module Retry {
  import opened Tables
  import opened Keys
  import opened Ordering
  import opened Api

  /** One row of `suites`. */
  datatype Suite = Suite(id: int, key: string, title: string, tag: string, order: int)

  /** One row of `retry_tips`; `kind` is its `type` column. */
  datatype Tip = Tip(id: int, kind: string, moduleCase: string, condition: string, trick: Option<string>)

  function SuiteRowId(s: Suite): int { s.id }
  function SuiteKey(s: Suite): string { s.key }
  function SuiteOrder(s: Suite): int { s.order }
  function WithSuiteOrder(s: Suite, order: int): Suite { s.(order := order) }

  /** `ORDER BY display_order` */
  function SuiteSortKey(s: Suite): SortKey { SortKey([], s.order, 0) }

  function TipRowId(t: Tip): int { t.id }
  function TipKind(t: Tip): string { t.kind }

  /** The five suites `init_db` puts into an empty `suites` table, with
      the ids AUTOINCREMENT gives them from first on. */
  function DefaultSuites(first: int): seq<Suite>
  {
    [ Suite(first, "BASIC", "Basic 測項", "SIM / Host / Permission 類", 10),
      Suite(first + 1, "GTS", "GTS 測項", "GTS", 20),
      Suite(first + 2, "CTS", "CTS 測項", "CTS", 30),
      Suite(first + 3, "SECURITYTOT", "Security / TOT 測項", "Security / TOT", 40),
      Suite(first + 4, "SPECIAL", "特殊情況 ", "Special Cases / General", 50) ]
  }

  /** The seeded suites have non-empty, well-formed keys. */
  lemma DefaultSuiteKeys(first: int)
    ensures forall s :: s in DefaultSuites(first) ==> s.key != [] && WellFormedKey(s.key)
  {
    var d := DefaultSuites(first);
    forall i | 0 <= i < |d| ensures d[i].key != [] && WellFormedKey(d[i].key) {
      LettersKey(d[i].key);
    }
  }

  /** No two seeded suites share a key. */
  lemma DefaultSuitesUnique(first: int)
    ensures UniqueBy(DefaultSuites(first), SuiteKey)
  {
    var d := DefaultSuites(first);
    forall i, j | 0 <= i < j < |d| ensures d[i].key != d[j].key {
      assert d[i].key[0] != d[j].key[0] || d[i].key[1] != d[j].key[1];
    }
  }

  /** The seeded suites take ids first to first+4 in list order and
      orders 10 to 50 in the same order. */
  lemma DefaultSuitesOrdered(first: int)
    ensures var d := DefaultSuites(first);
      && Ascending(d, SuiteRowId) && AllBelow(d, SuiteRowId, first + |d|)
      && OrdersOf(d, SuiteOrder) == [Slot(0), Slot(1), Slot(2), Slot(3), Slot(4)]
  {
  }

  /** What `add_suite` makes of a request, in the order it checks:
      a missing or empty title, a null tag (`None.strip()` raises), a key
      that comes out empty, a key some suite already has, or a new suite
      with its key, stripped title and stripped tag. */
  datatype SuiteDecision =
    | NoTitle
    | NullTag
    | NoKey
    | KeyTaken(key: string)
    | NewSuite(key: string, title: string, tag: string)

  /** `all(data.get(k) for k in required_fields)` for `suite_title`: the
      title is present and not empty. */
  predicate TitleGiven(title: Field)
  {
    title.Text? && title.text != []
  }

  /** The key `add_suite` derives once the title is given: from the
      stripped tag, a missing tag counting as empty, else from the stripped
      title. */
  function RequestKey(title: Field, tag: Field): string
    requires title.Text?
  {
    DeriveKey(Strip(title.text), if tag.Text? then Strip(tag.text) else [])
  }

  function DecideSuite(suites: seq<Suite>, title: Field, tag: Field): (d: SuiteDecision)
    ensures d.NoTitle? <==> !TitleGiven(title)
    ensures d.NullTag? <==> (TitleGiven(title) && tag.Null?)
    ensures d.NoKey? <==> (TitleGiven(title) && !tag.Null? && RequestKey(title, tag) == [])
    ensures d.KeyTaken? <==> (TitleGiven(title) && !tag.Null? && RequestKey(title, tag) != []
      && Select(suites, SuiteKey, RequestKey(title, tag)) != [])
    ensures d.NewSuite? <==> (TitleGiven(title) && !tag.Null? && RequestKey(title, tag) != []
      && Select(suites, SuiteKey, RequestKey(title, tag)) == [])
    ensures d.NewSuite? ==> d.key != [] && WellFormedKey(d.key) && Select(suites, SuiteKey, d.key) == []
    ensures d.NewSuite? ==> d.title == Strip(title.text)
    ensures d.NewSuite? ==> d.tag == if tag.Text? then Strip(tag.text) else []
    ensures d.NewSuite? || d.KeyTaken? ==> d.key == RequestKey(title, tag)
    ensures d.KeyTaken? ==> exists s :: s in suites && s.key == d.key
  {
    if !(title.Text? && title.text != []) then NoTitle
    else if tag.Null? then NullTag
    else
      var suiteTitle := Strip(title.text);
      var suiteTag := if tag.Text? then Strip(tag.text) else [];
      var key := DeriveKey(suiteTitle, suiteTag);
      if key == [] then NoKey
      else if Select(suites, SuiteKey, key) != [] then
        assert Select(suites, SuiteKey, key)[0] in Select(suites, SuiteKey, key);
        KeyTaken(key)
      else
        NewSuite(key, suiteTitle, suiteTag)
  }

  /** The 409 message of `add_suite`. */
  function KeyTakenMessage(key: string): string
  {
    "Suite key '" + key + "' already exists. Please use a unique title or tag."
  }

  /** The response `add_suite` gives for each refusal. */
  function Refusal(d: SuiteDecision): Response
  {
    match d
    case NoTitle => Failed(400, "Missing required field: suite_title")
    case NullTag => Crashed
    case NoKey => Failed(400, "Cannot generate a unique key from title or tag.")
    case KeyTaken(key) => Failed(409, KeyTakenMessage(key))
    case NewSuite(_, _, _) => Done
  }

  /** The 404 message `delete_suite` evidently means for a key no suite
      has: one that names the key. `DeleteSuite` answers with the message
      as written, `SuiteNotFoundAsWritten`. */
  function SuiteNotFound(key: string): string
  {
    "Suite key '" + key + "' not found."
  }

  /** The 404 message as 3PL.py:851 writes it: without the `f` prefix the
      placeholder is never filled in, so every key gets the same text. */
  function SuiteNotFoundAsWritten(key: string): string
  {
    "Suite key '{suite_key}' not found."
  }

  /** As written, the message cannot tell two missing keys apart. */
  lemma SuiteNotFoundAsWrittenIgnoresKey()
    ensures SuiteNotFoundAsWritten("GTS") == SuiteNotFoundAsWritten("CTS")
    ensures "GTS" != "CTS"
  {
  }

  /** The message that was meant names the key, so different keys give
      different messages. */
  lemma SuiteNotFoundNamesKey(a: string, b: string)
    requires SuiteNotFound(a) == SuiteNotFound(b)
    ensures a == b
  {
    var m := SuiteNotFound(a);
    assert m[11..|m| - 12] == a;
    assert m[11..|m| - 12] == b;
  }

  class RetryStore {
    var suites: seq<Suite>
    var tips: seq<Tip>
    var nextSuiteId: int
    var nextTipId: int

    ghost predicate Valid()
      reads this
    {
      && SuitesOk(suites, nextSuiteId)
      && Ascending(tips, TipRowId) && AllBelow(tips, TipRowId, nextTipId)
    }

    /** The two tables created empty on a fresh database. */
    constructor ()
      ensures Valid()
      ensures suites == [] && tips == [] && nextSuiteId == 1 && nextTipId == 1
    {
      suites := [];
      tips := [];
      nextSuiteId := 1;
      nextTipId := 1;
    }

    /** The seeding step of `init_db`: only an empty `suites` table gets
        the five default suites. */
    method SeedSuites()
      requires Valid()
      modifies this
      ensures Valid() && tips == old(tips) && nextTipId == old(nextTipId)
      ensures old(suites) != [] ==> suites == old(suites) && nextSuiteId == old(nextSuiteId)
      ensures old(suites) == [] ==>
        suites == DefaultSuites(old(nextSuiteId)) && nextSuiteId == old(nextSuiteId) + 5
    {
      if suites == [] {
        DefaultSuiteKeys(nextSuiteId);
        DefaultSuitesUnique(nextSuiteId);
        DefaultSuitesOrdered(nextSuiteId);
        suites := DefaultSuites(nextSuiteId);
        nextSuiteId := nextSuiteId + 5;
      }
    }

    /** `list_suites`: every suite once, by ascending display order. */
    method ListSuites() returns (rows: seq<Suite>)
      ensures SortedBy(rows, SuiteSortKey)
      ensures multiset(rows) == multiset(suites)
    {
      rows := SortBy(suites, SuiteSortKey);
      SortByIsSorted(suites, SuiteSortKey);
    }

    /** `add_suite`. The checks come in this order, and each failure
        leaves the tables alone: a missing or empty title (400), a null
        tag (`None.strip()` raises), a key that comes out empty (400), a
        key already taken (409). Otherwise the suite is appended with the
        next display order. */
    method AddSuite(title: Field, tag: Field) returns (resp: Response)
      requires Valid()
      modifies this
      ensures Valid() && tips == old(tips) && nextTipId == old(nextTipId)
      ensures !DecideSuite(old(suites), title, tag).NewSuite? ==>
        resp == Refusal(DecideSuite(old(suites), title, tag))
        && suites == old(suites) && nextSuiteId == old(nextSuiteId)
      ensures DecideSuite(old(suites), title, tag).NewSuite? ==>
        var d := DecideSuite(old(suites), title, tag);
        && resp == SuiteCreated(old(nextSuiteId), d.key)
        && suites == old(suites) + [Suite(old(nextSuiteId), d.key, d.title, d.tag, NextOrder(OrdersOf(old(suites), SuiteOrder)))]
        && nextSuiteId == old(nextSuiteId) + 1
    {
      var d := DecideSuite(suites, title, tag);
      if !d.NewSuite? {
        return Refusal(d);
      }
      resp := AppendSuite(d.key, d.title, d.tag);
    }

    /** The INSERT of `add_suite` once every check has passed: the next id
        and the next display order. */
    method AppendSuite(key: string, title: string, tag: string) returns (resp: Response)
      requires Valid()
      requires key != [] && WellFormedKey(key) && Select(suites, SuiteKey, key) == []
      modifies this
      ensures Valid() && tips == old(tips) && nextTipId == old(nextTipId)
      ensures resp == SuiteCreated(old(nextSuiteId), key)
      ensures suites == old(suites) + [Suite(old(nextSuiteId), key, title, tag, NextOrder(OrdersOf(old(suites), SuiteOrder)))]
      ensures nextSuiteId == old(nextSuiteId) + 1
    {
      var order := NextOrder(OrdersOf(suites, SuiteOrder));
      var s := Suite(nextSuiteId, key, title, tag, order);
      AppendSuiteValid(suites, s, nextSuiteId);
      suites := suites + [s];
      resp := SuiteCreated(nextSuiteId, key);
      nextSuiteId := nextSuiteId + 1;
    }

    /** `delete_suite`: the tips filed under the upper-cased key go first,
        whether or not a suite has that key; then the suite row. The 404
        is the message as written, which does not name the key. */
    method DeleteSuite(suiteKey: string) returns (resp: Response)
      requires Valid()
      modifies this
      ensures Valid() && nextSuiteId == old(nextSuiteId) && nextTipId == old(nextTipId)
      ensures tips == Drop(old(tips), TipKind, Upper(suiteKey))
      ensures suites == Drop(old(suites), SuiteKey, Upper(suiteKey))
      ensures Select(old(suites), SuiteKey, Upper(suiteKey)) == [] ==>
        resp == Failed(404, SuiteNotFoundAsWritten(Upper(suiteKey)))
      ensures Select(old(suites), SuiteKey, Upper(suiteKey)) != [] ==>
        resp == Removed(Upper(suiteKey), |Select(old(tips), TipKind, Upper(suiteKey))|)
      ensures |suites| == |old(suites)| - |Select(old(suites), SuiteKey, Upper(suiteKey))|
      ensures |Select(old(suites), SuiteKey, Upper(suiteKey))| <= 1
    {
      var key := Upper(suiteKey);
      var tipsAffected := |Select(tips, TipKind, key)|;
      DropAscending(tips, TipRowId, TipKind, key);
      tips := Drop(tips, TipKind, key);
      var suitesAffected := |Select(suites, SuiteKey, key)|;
      DropAscending(suites, SuiteRowId, SuiteKey, key);
      DropUnique(suites, SuiteKey, key);
      DropCount(suites, SuiteKey, key);
      UniqueSelect(suites, SuiteKey, key);
      suites := Drop(suites, SuiteKey, key);
      if suitesAffected == 0 {
        resp := Failed(404, SuiteNotFoundAsWritten(key));
      } else {
        resp := Removed(key, tipsAffected);
      }
    }

    /** `reorder_suites`: a body that is not a list, or an empty one, is
        refused; otherwise entry i sets the order of the suite with its
        upper-cased key to (i+1)*10, one UPDATE at a time. */
    method ReorderSuites(payload: Payload<string>) returns (resp: Response)
      requires Valid()
      modifies this
      ensures Valid() && tips == old(tips)
      ensures nextSuiteId == old(nextSuiteId) && nextTipId == old(nextTipId)
      ensures (ListOrEmpty(payload).None? || ListOrEmpty(payload) == Some([])) ==>
        resp == Failed(400, "Invalid or empty reorder list") && suites == old(suites)
      ensures ListOrEmpty(payload).Some? && ListOrEmpty(payload).value != [] ==>
        resp == Done && suites == Reorder(old(suites), SuiteKey, UpperEach(ListOrEmpty(payload).value), WithSuiteOrder)
    {
      var data := ListOrEmpty(payload);
      if data.None? || data.value == [] {
        return Failed(400, "Invalid or empty reorder list");
      }
      var ks := UpperEach(data.value);
      var rows := suites;
      assert ks[..0] == [];
      var i := 0;
      while i < |ks|
        invariant 0 <= i <= |ks|
        invariant suites == Reorder(rows, SuiteKey, ks[..i], WithSuiteOrder)
        invariant tips == old(tips) && nextSuiteId == old(nextSuiteId) && nextTipId == old(nextTipId)
      {
        ReorderStep(rows, SuiteKey, ks, WithSuiteOrder, i);
        suites := SetOrderWhere(suites, SuiteKey, ks[i], WithSuiteOrder, Slot(i));
        i := i + 1;
      }
      assert ks[..i] == ks;
      ReorderKeepsSuites(rows, ks);
      ReorderedSuitesValid(rows, ks, nextSuiteId);
      resp := Done;
    }

    /** `list_retry_tips`: every tip, `ORDER BY id`. */
    method ListTips() returns (rows: seq<Tip>)
      requires Valid()
      ensures rows == tips && Ascending(rows, TipRowId)
    {
      rows := tips;
    }

    /** `add_retry_tip`: `type`, `module_case` and `condition` are required;
        the type is stored as given, not upper-cased. */
    method AddTip(kind: Field, moduleCase: Field, condition: Field, trick: Field) returns (resp: Response)
      requires Valid()
      modifies this
      ensures Valid() && suites == old(suites) && nextSuiteId == old(nextSuiteId)
      ensures !(Present(kind) && Present(moduleCase) && Present(condition)) ==>
        resp == Failed(400, MissingFields) && tips == old(tips) && nextTipId == old(nextTipId)
      ensures Present(kind) && Present(moduleCase) && Present(condition) ==>
        && resp == Created(old(nextTipId))
        && tips == old(tips) + [Tip(old(nextTipId), kind.text, moduleCase.text, condition.text, Stored(trick))]
        && nextTipId == old(nextTipId) + 1
    {
      if !(Present(kind) && Present(moduleCase) && Present(condition)) {
        return Failed(400, MissingFields);
      }
      tips := tips + [Tip(nextTipId, kind.text, moduleCase.text, condition.text, Stored(trick))];
      resp := Created(nextTipId);
      nextTipId := nextTipId + 1;
    }

    /** `update_retry_tip`: every column of the tip with this id is
        rewritten; 404 when no tip has the id. */
    method UpdateTip(id: int, kind: Field, moduleCase: Field, condition: Field, trick: Field) returns (resp: Response)
      requires Valid()
      modifies this
      ensures Valid() && suites == old(suites)
      ensures nextSuiteId == old(nextSuiteId) && nextTipId == old(nextTipId)
      ensures !(Present(kind) && Present(moduleCase) && Present(condition)) ==>
        resp == Failed(400, MissingFieldsForUpdate) && tips == old(tips)
      ensures Present(kind) && Present(moduleCase) && Present(condition) ==>
        && tips == Replace(old(tips), TipRowId, id, Tip(id, kind.text, moduleCase.text, condition.text, Stored(trick)))
        && resp == if Select(old(tips), TipRowId, id) == [] then Failed(404, "Tip not found") else Done
    {
      if !(Present(kind) && Present(moduleCase) && Present(condition)) {
        return Failed(400, MissingFieldsForUpdate);
      }
      var affected := |Select(tips, TipRowId, id)|;
      tips := Replace(tips, TipRowId, id, Tip(id, kind.text, moduleCase.text, condition.text, Stored(trick)));
      resp := if affected == 0 then Failed(404, "Tip not found") else Done;
    }

    /** `delete_retry_tip`: removes the tip with this id; 404 when there is none. */
    method DeleteTip(id: int) returns (resp: Response)
      requires Valid()
      modifies this
      ensures Valid() && suites == old(suites)
      ensures nextSuiteId == old(nextSuiteId) && nextTipId == old(nextTipId)
      ensures tips == Drop(old(tips), TipRowId, id)
      ensures resp == if Select(old(tips), TipRowId, id) == [] then Failed(404, "Tip not found") else Done
    {
      var affected := |Select(tips, TipRowId, id)|;
      DropAscending(tips, TipRowId, TipRowId, id);
      tips := Drop(tips, TipRowId, id);
      resp := if affected == 0 then Failed(404, "Tip not found") else Done;
    }
  }

  /** A reorder changes display orders only: ids, keys, titles and tags
      stay where they were. */
  lemma ReorderKeepsSuites(rows: seq<Suite>, ks: seq<string>)
    ensures var r := Reorder(rows, SuiteKey, ks, WithSuiteOrder);
      forall i :: 0 <= i < |rows| ==>
        r[i].id == rows[i].id && r[i].key == rows[i].key && r[i].title == rows[i].title && r[i].tag == rows[i].tag
  {
  }

  /** The invariants of the `suites` table. */
  ghost predicate SuitesOk(suites: seq<Suite>, nextId: int)
  {
    && Ascending(suites, SuiteRowId) && AllBelow(suites, SuiteRowId, nextId)
    && UniqueBy(suites, SuiteKey)
    && (forall s :: s in suites ==> s.key != [] && WellFormedKey(s.key))
  }

  lemma ReorderedSuitesValid(rows: seq<Suite>, ks: seq<string>, nextId: int)
    requires SuitesOk(rows, nextId)
    ensures SuitesOk(Reorder(rows, SuiteKey, ks, WithSuiteOrder), nextId)
  {
    var r := Reorder(rows, SuiteKey, ks, WithSuiteOrder);
    ReorderKeepsSuites(rows, ks);
    forall s | s in r ensures s.id < nextId && s.key != [] && WellFormedKey(s.key) {
      var i :| 0 <= i < |r| && r[i] == s;
      assert rows[i] in rows;
    }
  }

  /** Appending a suite under the next id with a fresh, well-formed key
      keeps the invariants of the table. */
  lemma AppendSuiteValid(rows: seq<Suite>, s: Suite, nextId: int)
    requires SuitesOk(rows, nextId)
    requires s.id == nextId && s.key != [] && WellFormedKey(s.key) && Select(rows, SuiteKey, s.key) == []
    ensures SuitesOk(rows + [s], nextId + 1)
  {
    forall other | other in rows ensures other.key != s.key {
      assert other in Select(rows, SuiteKey, other.key);
    }
  }

  /** A suite appended by `add_suite` has a larger order than every other
      suite, so it is listed last. */
  lemma AddedSuiteListedLast(rows: seq<Suite>, s: Suite)
    requires s.order == NextOrder(OrdersOf(rows, SuiteOrder))
    ensures SortBy(rows + [s], SuiteSortKey) == SortBy(rows, SuiteSortKey) + [s]
  {
    var orders := OrdersOf(rows, SuiteOrder);
    forall i | 0 <= i < |rows| ensures KeyLe(SuiteSortKey(rows[i]), SuiteSortKey(s)) {
      assert orders[i] in orders;
    }
    SortByAppendLast(rows, s, SuiteSortKey);
  }
}
