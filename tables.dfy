/** Generic facts about tables held as sequences of rows in rowid order:
    the rows a `WHERE key = k` clause matches, the rows a `DELETE ... WHERE`
    leaves behind, the order an `ORDER BY` produces, and the last position
    of a key in a list of keys. */
module Tables {

  datatype Option<+T> = None | Some(value: T)

  /** The rows a `WHERE keyOf(row) = k` clause matches, in table order. */
  function Select<T(!new), K(==)>(rows: seq<T>, keyOf: T -> K, k: K): (r: seq<T>)
    ensures |r| <= |rows|
    ensures forall x :: x in r <==> x in rows && keyOf(x) == k
    decreases |rows|
  {
    if rows == [] then []
    else (if keyOf(rows[0]) == k then [rows[0]] else []) + Select(rows[1..], keyOf, k)
  }

  /** The rows a `DELETE ... WHERE keyOf(row) = k` leaves, in table order. */
  function Drop<T(!new), K(==)>(rows: seq<T>, keyOf: T -> K, k: K): (r: seq<T>)
    ensures |r| <= |rows|
    ensures forall x :: x in r <==> x in rows && keyOf(x) != k
    decreases |rows|
  {
    if rows == [] then []
    else (if keyOf(rows[0]) != k then [rows[0]] else []) + Drop(rows[1..], keyOf, k)
  }

  /** A delete removes exactly the rows the same WHERE clause selects:
      the affected-row count is the number of matching rows. */
  lemma {:induction false} DropCount<T(!new), K>(rows: seq<T>, keyOf: T -> K, k: K)
    ensures |Drop(rows, keyOf, k)| + |Select(rows, keyOf, k)| == |rows|
    ensures Select(rows, keyOf, k) == [] ==> Drop(rows, keyOf, k) == rows
    decreases |rows|
  {
    if rows != [] {
      DropCount(rows[1..], keyOf, k);
      assert rows == [rows[0]] + rows[1..];
    }
  }

  lemma {:induction false} SelectAppend<T(!new), K>(a: seq<T>, b: seq<T>, keyOf: T -> K, k: K)
    ensures Select(a + b, keyOf, k) == Select(a, keyOf, k) + Select(b, keyOf, k)
    decreases |a|
  {
    if a == [] {
      assert a + b == b;
    } else {
      assert (a + b)[1..] == a[1..] + b;
      SelectAppend(a[1..], b, keyOf, k);
    }
  }

  /** Scanning one more row adds that row to the matches when it matches. */
  lemma SelectSnoc<T(!new), K>(rows: seq<T>, i: nat, keyOf: T -> K, k: K)
    requires i < |rows|
    ensures Select(rows[..i + 1], keyOf, k) == Select(rows[..i], keyOf, k) + (if keyOf(rows[i]) == k then [rows[i]] else [])
  {
    assert rows[..i + 1] == rows[..i] + [rows[i]];
    SelectAppend(rows[..i], [rows[i]], keyOf, k);
    assert Select([rows[i]], keyOf, k) == (if keyOf(rows[i]) == k then [rows[i]] else []) + Select([], keyOf, k);
  }

  lemma {:induction false} DropAppend<T(!new), K>(a: seq<T>, b: seq<T>, keyOf: T -> K, k: K)
    ensures Drop(a + b, keyOf, k) == Drop(a, keyOf, k) + Drop(b, keyOf, k)
    decreases |a|
  {
    if a == [] {
      assert a + b == b;
    } else {
      assert (a + b)[1..] == a[1..] + b;
      DropAppend(a[1..], b, keyOf, k);
    }
  }

  /** Selecting on one key after deleting another changes nothing. */
  lemma {:induction false} SelectDropOther<T(!new), K>(rows: seq<T>, keyOf: T -> K, gone: K, k: K)
    requires gone != k
    ensures Select(Drop(rows, keyOf, gone), keyOf, k) == Select(rows, keyOf, k)
    decreases |rows|
  {
    if rows != [] {
      SelectDropOther(rows[1..], keyOf, gone, k);
      var head := if keyOf(rows[0]) != gone then [rows[0]] else [];
      SelectAppend(head, Drop(rows[1..], keyOf, gone), keyOf, k);
    }
  }

  lemma {:induction false} SelectMultiset<T(!new), K>(a: seq<T>, b: seq<T>, keyOf: T -> K, k: K)
    requires multiset(a) == multiset(b)
    ensures multiset(Select(a, keyOf, k)) == multiset(Select(b, keyOf, k))
  {
    forall x ensures multiset(Select(a, keyOf, k))[x] == multiset(Select(b, keyOf, k))[x] {
      SelectCount(a, keyOf, k, x);
      SelectCount(b, keyOf, k, x);
    }
  }

  lemma {:induction false} SelectCount<T(!new), K>(rows: seq<T>, keyOf: T -> K, k: K, x: T)
    ensures multiset(Select(rows, keyOf, k))[x] == if keyOf(x) == k then multiset(rows)[x] else 0
    decreases |rows|
  {
    if rows != [] {
      SelectCount(rows[1..], keyOf, k, x);
      assert rows == [rows[0]] + rows[1..];
    }
  }

  /** No two rows share a key (a UNIQUE or PRIMARY KEY column). */
  ghost predicate UniqueBy<T(!new), K>(rows: seq<T>, keyOf: T -> K)
  {
    forall i, j :: 0 <= i < j < |rows| ==> keyOf(rows[i]) != keyOf(rows[j])
  }

  /** Row ids increase along the table (rowid order of an AUTOINCREMENT key). */
  ghost predicate Ascending<T>(rows: seq<T>, idOf: T -> int)
  {
    forall i, j :: 0 <= i < j < |rows| ==> idOf(rows[i]) < idOf(rows[j])
  }

  /** Every id is below the next id the table will hand out. */
  ghost predicate AllBelow<T>(rows: seq<T>, idOf: T -> int, next: int)
  {
    forall x :: x in rows ==> idOf(x) < next
  }

  lemma {:induction false} DropAscending<T(!new), K>(rows: seq<T>, idOf: T -> int, keyOf: T -> K, k: K)
    requires Ascending(rows, idOf)
    ensures Ascending(Drop(rows, keyOf, k), idOf)
    decreases |rows|
  {
    if rows != [] {
      DropAscending(rows[1..], idOf, keyOf, k);
      var rest := Drop(rows[1..], keyOf, k);
      forall y | y in rest ensures idOf(rows[0]) < idOf(y) {
        var j :| 0 <= j < |rows[1..]| && rows[1..][j] == y;
        assert rows[j + 1] == y;
      }
    }
  }

  lemma {:induction false} DropUnique<T(!new), K>(rows: seq<T>, keyOf: T -> K, k: K)
    requires UniqueBy(rows, keyOf)
    ensures UniqueBy(Drop(rows, keyOf, k), keyOf)
    decreases |rows|
  {
    if rows != [] {
      DropUnique(rows[1..], keyOf, k);
      var rest := Drop(rows[1..], keyOf, k);
      forall y | y in rest ensures keyOf(rows[0]) != keyOf(y) {
        var j :| 0 <= j < |rows[1..]| && rows[1..][j] == y;
        assert rows[j + 1] == y;
      }
    }
  }

  lemma {:induction false} SelectNone<T(!new), K>(rows: seq<T>, keyOf: T -> K, k: K)
    requires forall i :: 0 <= i < |rows| ==> keyOf(rows[i]) != k
    ensures Select(rows, keyOf, k) == []
    decreases |rows|
  {
    if rows != [] {
      SelectNone(rows[1..], keyOf, k);
    }
  }

  /** After a delete, the WHERE clause it used matches nothing. */
  lemma SelectDropped<T(!new), K>(rows: seq<T>, keyOf: T -> K, k: K)
    ensures Select(Drop(rows, keyOf, k), keyOf, k) == []
  {
    var d := Drop(rows, keyOf, k);
    forall i | 0 <= i < |d| ensures keyOf(d[i]) != k {
      assert d[i] in d;
    }
    SelectNone(d, keyOf, k);
  }

  /** Under a unique key at most one row matches, so an UPDATE or DELETE
      by that key affects zero rows or exactly one. */
  lemma {:induction false} UniqueSelect<T(!new), K>(rows: seq<T>, keyOf: T -> K, k: K)
    requires UniqueBy(rows, keyOf)
    ensures |Select(rows, keyOf, k)| <= 1
    decreases |rows|
  {
    if rows != [] {
      UniqueSelect(rows[1..], keyOf, k);
      if keyOf(rows[0]) == k {
        SelectNone(rows[1..], keyOf, k);
      }
    }
  }

  lemma {:induction false} SelectAscending<T(!new), K>(rows: seq<T>, idOf: T -> int, keyOf: T -> K, k: K)
    requires Ascending(rows, idOf)
    ensures Ascending(Select(rows, keyOf, k), idOf)
    decreases |rows|
  {
    if rows != [] {
      SelectAscending(rows[1..], idOf, keyOf, k);
      var rest := Select(rows[1..], keyOf, k);
      forall y | y in rest ensures idOf(rows[0]) < idOf(y) {
        var j :| 0 <= j < |rows[1..]| && rows[1..][j] == y;
        assert rows[j + 1] == y;
      }
    }
  }

  /** An id at or above every id in the table matches no row. */
  lemma SelectFresh<T(!new)>(rows: seq<T>, idOf: T -> int, next: int)
    requires AllBelow(rows, idOf, next)
    ensures Select(rows, idOf, next) == []
  {
    forall i | 0 <= i < |rows| ensures idOf(rows[i]) != next {
      assert rows[i] in rows;
    }
    SelectNone(rows, idOf, next);
  }

  /** Deleting the row just appended under a fresh id gives back the table
      as it was before the insert. */
  lemma DeleteUndoesInsert<T(!new)>(rows: seq<T>, idOf: T -> int, x: T)
    requires AllBelow(rows, idOf, idOf(x))
    ensures Drop(rows + [x], idOf, idOf(x)) == rows
  {
    SelectFresh(rows, idOf, idOf(x));
    DropCount(rows, idOf, idOf(x));
    DropAppend(rows, [x], idOf, idOf(x));
    assert Drop([x], idOf, idOf(x)) == [] + Drop([], idOf, idOf(x));
  }

  /** Appending a row under the next id keeps the ids ascending and
      below the advanced counter. */
  lemma AppendFresh<T>(rows: seq<T>, idOf: T -> int, next: int, x: T)
    requires Ascending(rows, idOf) && AllBelow(rows, idOf, next) && idOf(x) == next
    ensures Ascending(rows + [x], idOf) && AllBelow(rows + [x], idOf, next + 1)
  {
    forall i | 0 <= i < |rows| ensures idOf(rows[i]) < next {
      assert rows[i] in rows;
    }
  }

  /** The rows after `UPDATE ... SET <every column> WHERE keyOf(row) = k`:
      each matching row is replaced by x. */
  function Replace<T, K(==)>(rows: seq<T>, keyOf: T -> K, k: K, x: T): (r: seq<T>)
    ensures |r| == |rows|
    ensures forall i :: 0 <= i < |rows| && keyOf(rows[i]) != k ==> r[i] == rows[i]
    ensures forall i :: 0 <= i < |rows| && keyOf(rows[i]) == k ==> r[i] == x
  {
    seq(|rows|, i requires 0 <= i < |rows| => if keyOf(rows[i]) == k then x else rows[i])
  }

  /** A replace touches no row outside its WHERE clause: deleting the
      matching rows afterwards leaves what deleting them beforehand leaves. */
  lemma {:induction false} ReplaceKeepsOthers<T(!new), K>(rows: seq<T>, keyOf: T -> K, k: K, x: T)
    requires keyOf(x) == k
    ensures Drop(Replace(rows, keyOf, k, x), keyOf, k) == Drop(rows, keyOf, k)
    decreases |rows|
  {
    if rows != [] {
      ReplaceKeepsOthers(rows[1..], keyOf, k, x);
      assert Replace(rows, keyOf, k, x)[1..] == Replace(rows[1..], keyOf, k, x);
    }
  }

  /** After a replace under a unique key, the key reads x if it was in the
      table and nothing otherwise. */
  lemma {:induction false} ReplaceReads<T(!new), K>(rows: seq<T>, keyOf: T -> K, k: K, x: T)
    requires keyOf(x) == k && UniqueBy(rows, keyOf)
    ensures Select(Replace(rows, keyOf, k, x), keyOf, k) == if Select(rows, keyOf, k) == [] then [] else [x]
    decreases |rows|
  {
    if rows != [] {
      var r := Replace(rows, keyOf, k, x);
      assert r[1..] == Replace(rows[1..], keyOf, k, x);
      ReplaceReads(rows[1..], keyOf, k, x);
      if keyOf(rows[0]) == k {
        SelectNone(rows[1..], keyOf, k);
        SelectNone(r[1..], keyOf, k);
      }
    }
  }

  // ---------------------------------------------------------------------------
  // ORDER BY: a stable insertion sort on a sort key.

  /** The columns an `ORDER BY` compares, most significant first: a TEXT
      column (compared code point by code point, as SQLite's BINARY
      collation compares UTF-8) and two INTEGER columns. */
  datatype SortKey = SortKey(text: string, major: int, minor: int)

  predicate TextLe(a: string, b: string)
    decreases |a|
  {
    a == [] || (b != [] && (a[0] < b[0] || (a[0] == b[0] && TextLe(a[1..], b[1..]))))
  }

  predicate KeyLe(a: SortKey, b: SortKey)
  {
    if a.text != b.text then TextLe(a.text, b.text)
    else if a.major != b.major then a.major < b.major
    else a.minor <= b.minor
  }

  lemma {:induction false} TextLeTotal(a: string, b: string)
    ensures TextLe(a, b) || TextLe(b, a)
    decreases |a|
  {
    if a != [] && b != [] && a[0] == b[0] {
      TextLeTotal(a[1..], b[1..]);
    }
  }

  lemma {:induction false} TextLeTrans(a: string, b: string, c: string)
    requires TextLe(a, b) && TextLe(b, c)
    ensures TextLe(a, c)
    decreases |a|
  {
    if a != [] && b != [] && c != [] && a[0] == b[0] && b[0] == c[0] {
      TextLeTrans(a[1..], b[1..], c[1..]);
    }
  }

  lemma {:induction false} TextLeAntisym(a: string, b: string)
    requires TextLe(a, b) && TextLe(b, a)
    ensures a == b
    decreases |a|
  {
    if a != [] && b != [] {
      TextLeAntisym(a[1..], b[1..]);
      assert a == [a[0]] + a[1..] && b == [b[0]] + b[1..];
    }
  }

  /** KeyLe is total and transitive: a total preorder (in fact a total order). */
  lemma KeyLeTotal(a: SortKey, b: SortKey)
    ensures KeyLe(a, b) || KeyLe(b, a)
  {
    TextLeTotal(a.text, b.text);
  }

  lemma KeyLeTrans(a: SortKey, b: SortKey, c: SortKey)
    requires KeyLe(a, b) && KeyLe(b, c)
    ensures KeyLe(a, c)
  {
    if a.text != b.text && b.text != c.text {
      TextLeTrans(a.text, b.text, c.text);
      if a.text == c.text {
        TextLeAntisym(a.text, b.text);
      }
    } else if a.text != b.text || b.text != c.text {
    }
  }

  predicate SortedBy<T>(s: seq<T>, key: T -> SortKey)
  {
    forall i, j :: 0 <= i < j < |s| ==> KeyLe(key(s[i]), key(s[j]))
  }

  /** Puts x before the first element whose key is at least x's. */
  function Insert<T>(x: T, s: seq<T>, key: T -> SortKey): (r: seq<T>)
    ensures |r| == |s| + 1
    ensures multiset(r) == multiset(s) + multiset{x}
    decreases |s|
  {
    if s == [] then [x]
    else if KeyLe(key(x), key(s[0])) then [x] + s
    else assert s == [s[0]] + s[1..]; [s[0]] + Insert(x, s[1..], key)
  }

  /** The rows in the order `ORDER BY key` yields; rows with equal keys
      keep their table order. */
  function SortBy<T>(s: seq<T>, key: T -> SortKey): (r: seq<T>)
    ensures |r| == |s|
    ensures multiset(r) == multiset(s)
    decreases |s|
  {
    if s == [] then []
    else assert s == [s[0]] + s[1..]; Insert(s[0], SortBy(s[1..], key), key)
  }

  lemma {:induction false} InsertSorted<T>(x: T, s: seq<T>, key: T -> SortKey)
    requires SortedBy(s, key)
    ensures SortedBy(Insert(x, s, key), key)
    decreases |s|
  {
    if s == [] {
    } else if KeyLe(key(x), key(s[0])) {
      forall y | y in s ensures KeyLe(key(x), key(y)) {
        var j :| 0 <= j < |s| && s[j] == y;
        if j > 0 {
          KeyLeTrans(key(x), key(s[0]), key(s[j]));
        }
      }
      ConsSorted(x, s, key);
    } else {
      KeyLeTotal(key(x), key(s[0]));
      InsertSorted(x, s[1..], key);
      InsertAbove(x, s, key);
      ConsSorted(s[0], Insert(x, s[1..], key), key);
    }
  }

  /** A row whose key is at most every key of a sorted listing can go
      first. */
  lemma ConsSorted<T>(y: T, r: seq<T>, key: T -> SortKey)
    requires SortedBy(r, key) && forall z :: z in r ==> KeyLe(key(y), key(z))
    ensures SortedBy([y] + r, key)
  {
    var t := [y] + r;
    forall i, j | 0 <= i < j < |t| ensures KeyLe(key(t[i]), key(t[j])) {
      assert t[j] == r[j - 1] && r[j - 1] in r;
      if i > 0 {
        assert t[i] == r[i - 1];
      }
    }
  }

  /** Inserting x behind the head of a sorted listing keeps everything at
      or above the head. */
  lemma InsertAbove<T>(x: T, s: seq<T>, key: T -> SortKey)
    requires SortedBy(s, key) && s != [] && KeyLe(key(s[0]), key(x))
    ensures forall y :: y in Insert(x, s[1..], key) ==> KeyLe(key(s[0]), key(y))
  {
    var r := Insert(x, s[1..], key);
    forall y | y in r ensures KeyLe(key(s[0]), key(y)) {
      assert y in multiset(r);
      if y != x {
        assert y in multiset(s[1..]);
        var j :| 0 <= j < |s[1..]| && s[1..][j] == y;
        assert s[j + 1] == y;
      }
    }
  }

  /** What `ORDER BY` promises: the listing is sorted and holds exactly the table's rows. */
  lemma {:induction false} SortByIsSorted<T>(s: seq<T>, key: T -> SortKey)
    ensures SortedBy(SortBy(s, key), key)
    ensures multiset(SortBy(s, key)) == multiset(s)
    decreases |s|
  {
    if s != [] {
      SortByIsSorted(s[1..], key);
      InsertSorted(s[0], SortBy(s[1..], key), key);
    }
  }

  /** An already sorted table is listed as it stands. */
  lemma {:induction false} SortBySorted<T>(s: seq<T>, key: T -> SortKey)
    requires SortedBy(s, key)
    ensures SortBy(s, key) == s
    decreases |s|
  {
    if s != [] {
      assert SortedBy(s[1..], key);
      SortBySorted(s[1..], key);
    }
  }

  lemma {:induction false} SelectSorted<T(!new), K>(s: seq<T>, key: T -> SortKey, keyOf: T -> K, k: K)
    requires SortedBy(s, key)
    ensures SortedBy(Select(s, keyOf, k), key)
    decreases |s|
  {
    if s != [] {
      assert SortedBy(s[1..], key);
      SelectSorted(s[1..], key, keyOf, k);
      var rest := Select(s[1..], keyOf, k);
      if keyOf(s[0]) == k {
        forall j | 0 <= j < |rest| ensures KeyLe(key(s[0]), key(rest[j])) {
          assert rest[j] in rest;
          var m :| 0 <= m < |s[1..]| && s[1..][m] == rest[j];
          assert s[m + 1] == rest[j];
        }
        var r := [s[0]] + rest;
        forall i, j | 0 <= i < j < |r| ensures KeyLe(key(r[i]), key(r[j])) {
          if i > 0 {
            assert r[i] == rest[i - 1] && r[j] == rest[j - 1];
          } else {
            assert r[j] == rest[j - 1];
          }
        }
      }
    }
  }

  lemma {:induction false} SelectInsertOther<T(!new), K>(x: T, s: seq<T>, key: T -> SortKey, keyOf: T -> K, k: K)
    requires keyOf(x) != k
    ensures Select(Insert(x, s, key), keyOf, k) == Select(s, keyOf, k)
    decreases |s|
  {
    if s == [] {
    } else if KeyLe(key(x), key(s[0])) {
      SelectAppend([x], s, keyOf, k);
    } else {
      SelectInsertOther(x, s[1..], key, keyOf, k);
      var rest := Insert(x, s[1..], key);
      assert Insert(x, s, key) == [s[0]] + rest;
      assert ([s[0]] + rest)[1..] == rest;
    }
  }

  /** The case of SelectInsertSame where x goes in front of every row. */
  lemma SelectInsertFront<T(!new), K>(x: T, s: seq<T>, key: T -> SortKey, keyOf: T -> K, k: K)
    requires SortedBy(s, key) && keyOf(x) == k
    requires s != [] && KeyLe(key(x), key(s[0]))
    ensures Select(Insert(x, s, key), keyOf, k) == Insert(x, Select(s, keyOf, k), key)
  {
    SelectAppend([x], s, keyOf, k);
    var sel := Select(s, keyOf, k);
    if sel != [] {
      assert sel[0] in s;
      var m :| 0 <= m < |s| && s[m] == sel[0];
      if m > 0 {
        KeyLeTrans(key(x), key(s[0]), key(s[m]));
      }
    }
  }

  lemma {:induction false} SelectInsertSame<T(!new), K>(x: T, s: seq<T>, key: T -> SortKey, keyOf: T -> K, k: K)
    requires SortedBy(s, key) && keyOf(x) == k
    ensures Select(Insert(x, s, key), keyOf, k) == Insert(x, Select(s, keyOf, k), key)
    decreases |s|
  {
    if s == [] {
    } else if KeyLe(key(x), key(s[0])) {
      SelectInsertFront(x, s, key, keyOf, k);
    } else {
      assert SortedBy(s[1..], key);
      SelectInsertSame(x, s[1..], key, keyOf, k);
      var rest := Insert(x, s[1..], key);
      var tail := Select(s[1..], keyOf, k);
      assert Insert(x, s, key) == [s[0]] + rest;
      assert Select([s[0]] + rest, keyOf, k) == Select([s[0]], keyOf, k) + Select(rest, keyOf, k) by {
        SelectAppend([s[0]], rest, keyOf, k);
      }
      assert Select(s, keyOf, k) == Select([s[0]], keyOf, k) + tail by {
        SelectAppend([s[0]], s[1..], keyOf, k);
        assert [s[0]] + s[1..] == s;
      }
      if keyOf(s[0]) == k {
        assert Select([s[0]], keyOf, k) == [s[0]];
        assert Insert(x, [s[0]] + tail, key) == [s[0]] + Insert(x, tail, key) by {
          assert ([s[0]] + tail)[0] == s[0];
          assert ([s[0]] + tail)[1..] == tail;
        }
        calc {
          Select(Insert(x, s, key), keyOf, k);
          [s[0]] + Select(rest, keyOf, k);
          [s[0]] + Insert(x, tail, key);
          Insert(x, [s[0]] + tail, key);
          Insert(x, Select(s, keyOf, k), key);
        }
      } else {
        assert Select([s[0]], keyOf, k) == [];
        calc {
          Select(Insert(x, s, key), keyOf, k);
          [] + Select(rest, keyOf, k);
          Insert(x, tail, key);
          { assert Select(s, keyOf, k) == [] + tail; assert [] + tail == tail; }
          Insert(x, Select(s, keyOf, k), key);
        }
      }
    }
  }

  lemma {:induction false} InsertBeforeLast<T>(y: T, t: seq<T>, x: T, key: T -> SortKey)
    requires KeyLe(key(y), key(x))
    ensures Insert(y, t + [x], key) == Insert(y, t, key) + [x]
    decreases |t|
  {
    if t == [] {
      assert [] + [x] == [x];
    } else {
      assert (t + [x])[0] == t[0];
      assert (t + [x])[1..] == t[1..] + [x];
      if !KeyLe(key(y), key(t[0])) {
        InsertBeforeLast(y, t[1..], x, key);
      }
    }
  }

  /** A row appended with a sort key no row precedes is listed last. */
  lemma {:induction false} SortByAppendLast<T>(s: seq<T>, x: T, key: T -> SortKey)
    requires forall i :: 0 <= i < |s| ==> KeyLe(key(s[i]), key(x))
    ensures SortBy(s + [x], key) == SortBy(s, key) + [x]
    decreases |s|
  {
    if s == [] {
      assert [] + [x] == [x];
    } else {
      assert (s + [x])[0] == s[0];
      assert (s + [x])[1..] == s[1..] + [x];
      SortByAppendLast(s[1..], x, key);
      InsertBeforeLast(s[0], SortBy(s[1..], key), x, key);
    }
  }

  /** Listing a whole table and keeping one key's rows gives the same rows,
      in the same order, as listing only that key's rows. */
  lemma {:induction false} SelectSortBy<T(!new), K>(s: seq<T>, key: T -> SortKey, keyOf: T -> K, k: K)
    ensures Select(SortBy(s, key), keyOf, k) == SortBy(Select(s, keyOf, k), key)
    decreases |s|
  {
    if s != [] {
      SelectSortBy(s[1..], key, keyOf, k);
      SortByIsSorted(s[1..], key);
      var tail := Select(s[1..], keyOf, k);
      assert SortBy(s, key) == Insert(s[0], SortBy(s[1..], key), key);
      if keyOf(s[0]) == k {
        SelectInsertSame(s[0], SortBy(s[1..], key), key, keyOf, k);
        assert Select(s, keyOf, k) == [s[0]] + tail;
        assert SortBy([s[0]] + tail, key) == Insert(s[0], SortBy(tail, key), key) by {
          assert ([s[0]] + tail)[0] == s[0];
          assert ([s[0]] + tail)[1..] == tail;
        }
      } else {
        SelectInsertOther(s[0], SortBy(s[1..], key), key, keyOf, k);
        assert Select(s, keyOf, k) == [] + tail;
        assert [] + tail == tail;
      }
    }
  }

  // ---------------------------------------------------------------------------
  // Positions in a list of keys.

  /** Where k last occurs in ks: the statement a loop of UPDATEs executes
      last for k, so the one whose value sticks. */
  function LastPosition<K(==)>(ks: seq<K>, k: K): (r: Option<nat>)
    ensures r.None? <==> k !in ks
    ensures r.Some? ==> r.value < |ks| && ks[r.value] == k
    ensures r.Some? ==> forall j :: r.value < j < |ks| ==> ks[j] != k
    decreases |ks|
  {
    if ks == [] then None
    else if ks[|ks| - 1] == k then Some(|ks| - 1)
    else LastPosition(ks[..|ks| - 1], k)
  }

  lemma LastPositionSnoc<K>(ks: seq<K>, i: nat, k: K)
    requires i < |ks|
    ensures LastPosition(ks[..i + 1], k) == if ks[i] == k then Some(i) else LastPosition(ks[..i], k)
  {
    assert ks[..i + 1][..i] == ks[..i];
  }

  ghost predicate Distinct<K>(ks: seq<K>)
  {
    forall i, j :: 0 <= i < j < |ks| ==> ks[i] != ks[j]
  }
}
