/** import_ctsv_gtsi.py: the bulk loader that rewrites ctsv_gtsi.db from a
    fixed list of cards. It upserts the three default sections, empties
    the card and image tables and inserts the cards one by one. Unlike
    3PL.py it turns SQLite's foreign keys on, so a card whose section does
    not exist is refused with an exception that ends the run. */
module Loader {
  import opened Tables
  import opened Keys
  import opened Ordering
  import opened Catalog

  /** One entry of the `cards` list `main` builds. */
  datatype Draft = Draft(section: string, title: string, subtitle: Option<string>, content: Option<string>,
                         note: Option<string>, urls: seq<string>, order: int)

  /** The `default_sections` of `upsert_sections`. */
  function LoaderSections(): seq<Section>
  {
    [ Section("GTSI", "GTS-I 手動測試 ", "GTS-I", 10),
      Section("CTSV", "CTS Verifier 手動測試", "CTS Verifier", 20),
      Section("MADA", "MADA Check List", "MADA", 30) ]
  }

  lemma LoaderSectionsUnique()
    ensures UniqueBy(LoaderSections(), SectionKey)
  {
    var d := LoaderSections();
    forall i, j | 0 <= i < j < |d| ensures d[i].key != d[j].key {
      assert d[i].key[0] != d[j].key[0];
    }
  }

  // upsert_sections

  /** One pass of the loop of `upsert_sections`: the UPDATE when a row has
      the key, the INSERT otherwise. */
  function Upsert(rows: seq<Section>, s: Section): seq<Section>
  {
    if Select(rows, SectionKey, s.key) == [] then rows + [s] else Replace(rows, SectionKey, s.key, s)
  }

  /** The table after the loop has handled every entry of ds in turn. */
  function UpsertAll(rows: seq<Section>, ds: seq<Section>): seq<Section>
    decreases |ds|
  {
    if ds == [] then rows else Upsert(UpsertAll(rows, ds[..|ds| - 1]), ds[|ds| - 1])
  }

  /** After one upsert the key is held by exactly the given row, the
      primary key stays unique, and every other key reads as before. */
  lemma UpsertPlaced(rows: seq<Section>, s: Section)
    requires UniqueBy(rows, SectionKey)
    ensures UniqueBy(Upsert(rows, s), SectionKey)
    ensures Select(Upsert(rows, s), SectionKey, s.key) == [s]
  {
    var r := Upsert(rows, s);
    if Select(rows, SectionKey, s.key) == [] {
      SelectAppend(rows, [s], SectionKey, s.key);
      assert Select([s], SectionKey, s.key) == [s] + Select([], SectionKey, s.key);
      forall i | 0 <= i < |rows| ensures rows[i].key != s.key {
        assert rows[i] in rows;
      }
    } else {
      ReplaceReads(rows, SectionKey, s.key, s);
    }
  }

  /** An upsert leaves the rows of every other key as they were. */
  lemma UpsertOther(rows: seq<Section>, s: Section, k: string)
    requires k != s.key
    ensures Select(Upsert(rows, s), SectionKey, k) == Select(rows, SectionKey, k)
  {
    var r := Upsert(rows, s);
    if Select(rows, SectionKey, s.key) == [] {
      SelectAppend(rows, [s], SectionKey, k);
      assert Select([s], SectionKey, k) == Select([], SectionKey, k);
    } else {
      ReplaceKeepsOthers(rows, SectionKey, s.key, s);
      SelectDropOther(r, SectionKey, s.key, k);
      SelectDropOther(rows, SectionKey, s.key, k);
    }
  }

  lemma {:induction false} UpsertAllUnique(rows: seq<Section>, ds: seq<Section>)
    requires UniqueBy(rows, SectionKey)
    ensures UniqueBy(UpsertAll(rows, ds), SectionKey)
    decreases |ds|
  {
    if ds != [] {
      var n := |ds| - 1;
      var before := UpsertAll(rows, ds[..n]);
      assert UpsertAll(rows, ds) == Upsert(before, ds[n]);
      UpsertAllUnique(rows, ds[..n]);
      UpsertPlaced(before, ds[n]);
    }
  }

  /** No entry of ds has key k. */
  predicate Unlisted(ds: seq<Section>, k: string)
  {
    forall i :: 0 <= i < |ds| ==> ds[i].key != k
  }

  lemma {:induction false} UpsertAllOthers(rows: seq<Section>, ds: seq<Section>, k: string)
    requires Unlisted(ds, k)
    ensures Select(UpsertAll(rows, ds), SectionKey, k) == Select(rows, SectionKey, k)
    decreases |ds|
  {
    if ds != [] {
      var n := |ds| - 1;
      var init := ds[..n];
      var before := UpsertAll(rows, init);
      assert UpsertAll(rows, ds) == Upsert(before, ds[n]);
      UnlistedPrefix(ds, n, k);
      UpsertAllOthers(rows, init, k);
      UpsertOther(before, ds[n], k);
    }
  }

  lemma UnlistedPrefix(ds: seq<Section>, n: nat, k: string)
    requires Unlisted(ds, k) && n <= |ds|
    ensures Unlisted(ds[..n], k)
  {
  }

  /** The last upsert of a list leaves a row of another key in place. */
  lemma UpsertAllKeeps(rows: seq<Section>, ds: seq<Section>, row: Section)
    requires ds != [] && row.key != ds[|ds| - 1].key
    requires Select(UpsertAll(rows, ds[..|ds| - 1]), SectionKey, row.key) == [row]
    ensures Select(UpsertAll(rows, ds), SectionKey, row.key) == [row]
  {
    var n := |ds| - 1;
    assert UpsertAll(rows, ds) == Upsert(UpsertAll(rows, ds[..n]), ds[n]);
    UpsertOther(UpsertAll(rows, ds[..n]), ds[n], row.key);
  }

  lemma UniquePrefix(ds: seq<Section>, n: nat)
    requires UniqueBy(ds, SectionKey) && n <= |ds|
    ensures UniqueBy(ds[..n], SectionKey)
  {
    forall i, j | 0 <= i < j < n ensures ds[..n][i].key != ds[..n][j].key {
      assert ds[..n][i] == ds[i] && ds[..n][j] == ds[j];
    }
  }

  /** The last upsert of a list places its section. */
  lemma UpsertAllLast(rows: seq<Section>, ds: seq<Section>)
    requires UniqueBy(rows, SectionKey) && ds != []
    ensures Select(UpsertAll(rows, ds), SectionKey, ds[|ds| - 1].key) == [ds[|ds| - 1]]
  {
    var n := |ds| - 1;
    assert UpsertAll(rows, ds) == Upsert(UpsertAll(rows, ds[..n]), ds[n]);
    UpsertAllUnique(rows, ds[..n]);
    UpsertPlaced(UpsertAll(rows, ds[..n]), ds[n]);
  }

  lemma {:induction false} UpsertAllListed(rows: seq<Section>, ds: seq<Section>, i: nat)
    requires UniqueBy(rows, SectionKey) && UniqueBy(ds, SectionKey) && i < |ds|
    ensures Select(UpsertAll(rows, ds), SectionKey, ds[i].key) == [ds[i]]
    decreases |ds|
  {
    var n := |ds| - 1;
    if i < n {
      var init := ds[..n];
      assert init[i] == ds[i];
      UniquePrefix(ds, n);
      assert ds[i].key != ds[n].key;
      UpsertAllListed(rows, init, i);
      UpsertAllKeeps(rows, ds, ds[i]);
    } else {
      UpsertAllLast(rows, ds);
    }
  }

  /** `upsert_sections` with distinct keys: each listed section exists
      exactly once with the listed title, tag and order, and the sections
      with any other key read as before. */
  lemma UpsertAllPlaced(rows: seq<Section>, ds: seq<Section>)
    requires UniqueBy(rows, SectionKey) && UniqueBy(ds, SectionKey)
    ensures UniqueBy(UpsertAll(rows, ds), SectionKey)
    ensures forall i :: 0 <= i < |ds| ==> Select(UpsertAll(rows, ds), SectionKey, ds[i].key) == [ds[i]]
    ensures forall k :: Unlisted(ds, k) ==> Select(UpsertAll(rows, ds), SectionKey, k) == Select(rows, SectionKey, k)
  {
    UpsertAllUnique(rows, ds);
    forall i | 0 <= i < |ds| ensures Select(UpsertAll(rows, ds), SectionKey, ds[i].key) == [ds[i]] {
      UpsertAllListed(rows, ds, i);
    }
    forall k | Unlisted(ds, k) ensures Select(UpsertAll(rows, ds), SectionKey, k) == Select(rows, SectionKey, k) {
      UpsertAllOthers(rows, ds, k);
    }
  }

  /** After `upsert_sections`, GTSI, CTSV and MADA hold exactly the loader's
      rows, whatever the table held before. */
  lemma LoaderSectionsPresent(rows: seq<Section>, i: nat)
    requires UniqueBy(rows, SectionKey) && i < |LoaderSections()|
    ensures Select(UpsertAll(rows, LoaderSections()), SectionKey, LoaderSections()[i].key) == [LoaderSections()[i]]
  {
    LoaderSectionsUnique();
    UpsertAllPlaced(rows, LoaderSections());
  }

  /** `upsert_sections`: for each default section, a SELECT for its key,
      then the UPDATE or the INSERT. */
  method UpsertSections(db: CatalogStore)
    requires db.Valid()
    modifies db
    ensures db.Valid()
    ensures db.sections == UpsertAll(old(db.sections), LoaderSections())
    ensures db.cards == old(db.cards) && db.images == old(db.images)
    ensures db.nextCardId == old(db.nextCardId) && db.nextImageId == old(db.nextImageId)
  {
    var ds := LoaderSections();
    var i := 0;
    assert ds[..0] == [];
    while i < |ds|
      invariant 0 <= i <= |ds|
      invariant db.sections == UpsertAll(old(db.sections), ds[..i])
      invariant UniqueBy(db.sections, SectionKey)
      invariant db.cards == old(db.cards) && db.images == old(db.images)
      invariant db.nextCardId == old(db.nextCardId) && db.nextImageId == old(db.nextImageId)
    {
      var s := ds[i];
      UpsertPlaced(db.sections, s);
      if Select(db.sections, SectionKey, s.key) != [] {
        db.sections := Replace(db.sections, SectionKey, s.key, s);
      } else {
        db.sections := db.sections + [s];
      }
      assert ds[..i + 1][..i] == ds[..i];
      i := i + 1;
    }
    assert ds[..i] == ds;
  }

  /** `clear_cards`: every image row, then every card row. The
      AUTOINCREMENT counters keep their values. */
  method ClearCards(db: CatalogStore)
    requires db.Valid()
    modifies db
    ensures db.Valid()
    ensures db.cards == [] && db.images == [] && db.sections == old(db.sections)
    ensures db.nextCardId == old(db.nextCardId) && db.nextImageId == old(db.nextImageId)
  {
    db.images := [];
    db.cards := [];
  }

  // insert_card

  /** The card row `insert_card` writes for a draft under id. */
  function CardOf(d: Draft, id: int): (c: Card)
    ensures c.id == id && c.section == d.section && c.order == d.order
    ensures c.title == d.title && c.subtitle == d.subtitle && c.content == d.content && c.note == d.note
  {
    Card(id, d.section, d.title, d.subtitle, d.content, d.note, d.order)
  }

  /** The image loop of `insert_card` skips empty filenames but numbers by
      position in the full list: the (position, filename) of each image
      it writes, in order. */
  function Kept(urls: seq<string>): (r: seq<(nat, string)>)
    ensures forall j :: 0 <= j < |r| ==> r[j].0 < |urls| && urls[r[j].0] == r[j].1 && r[j].1 != []
    ensures forall j, k :: 0 <= j < k < |r| ==> r[j].0 < r[k].0
    decreases |urls|
  {
    if urls == [] then []
    else
      var n := |urls| - 1;
      var init := Kept(urls[..n]);
      if urls[n] == [] then init else init + [(n, urls[n])]
  }

  /** Every non-empty filename of the list is written. */
  lemma {:induction false} KeptAll(urls: seq<string>, idx: nat)
    requires idx < |urls| && urls[idx] != []
    ensures (idx, urls[idx]) in Kept(urls)
    decreases |urls|
  {
    var n := |urls| - 1;
    if idx < n {
      KeptAll(urls[..n], idx);
    }
  }

  /** The image rows the loop writes for card cardId, ids from first on:
      they all name the card and keep the order of their position. */
  function KeptImages(cardId: int, urls: seq<string>, first: int): (r: seq<Image>)
    ensures |r| == |Kept(urls)|
    ensures forall j :: 0 <= j < |r| ==> r[j].cardId == cardId && r[j].id == first + j && r[j].filename != []
    ensures forall j :: 0 <= j < |r| ==> r[j].order == Slot(Kept(urls)[j].0) && r[j].filename == urls[Kept(urls)[j].0]
  {
    var kept := Kept(urls);
    seq(|kept|, j requires 0 <= j < |kept| => Image(first + j, cardId, kept[j].1, Slot(kept[j].0)))
  }

  /** Skipped names leave gaps in the orders, but the orders still grow
      strictly. */
  lemma KeptOrdersIncrease(cardId: int, urls: seq<string>, first: int)
    ensures forall j, k :: 0 <= j < k < |KeptImages(cardId, urls, first)| ==>
      KeptImages(cardId, urls, first)[j].order < KeptImages(cardId, urls, first)[k].order
  {
  }

  lemma {:induction false} NonEmptySnoc(parts: seq<string>, x: string)
    ensures NonEmpty(parts + [x]) == NonEmpty(parts) + (if x != [] then [x] else [])
    decreases |parts|
  {
    if parts != [] {
      assert (parts + [x])[1..] == parts[1..] + [x];
      NonEmptySnoc(parts[1..], x);
    }
  }

  /** The filenames written are the non-empty ones, in list order. */
  lemma {:induction false} KeptNames(cardId: int, urls: seq<string>, first: int)
    ensures Filenames(KeptImages(cardId, urls, first)) == NonEmpty(urls)
    decreases |urls|
  {
    if urls != [] {
      var n := |urls| - 1;
      assert urls == urls[..n] + [urls[n]];
      NonEmptySnoc(urls[..n], urls[n]);
      KeptNames(cardId, urls[..n], first);
      assert Filenames(KeptImages(cardId, urls, first))
          == Filenames(KeptImages(cardId, urls[..n], first)) + (if urls[n] != [] then [urls[n]] else []);
    }
  }

  /** Listed on their own, the images written for a card are its
      non-empty filenames in list order. */
  lemma KeptImagesListed(cardId: int, urls: seq<string>, first: int)
    ensures ImageUrls(KeptImages(cardId, urls, first), cardId) == NonEmpty(urls)
  {
    var n := KeptImages(cardId, urls, first);
    SelectAll(n, ImageCard, cardId);
    KeptNames(cardId, urls, first);
    KeptOrdersIncrease(cardId, urls, first);
    assert SortedBy(n, ImageSortKey);
    SortBySorted(n, ImageSortKey);
  }

  /** The next listing of a freshly inserted card shows its non-empty
      filenames in list order. */
  lemma InsertedImagesListed(images: seq<Image>, cardId: int, urls: seq<string>, first: int)
    requires Select(images, ImageCard, cardId) == []
    ensures ImageUrls(images + KeptImages(cardId, urls, first), cardId) == NonEmpty(urls)
  {
    var n := KeptImages(cardId, urls, first);
    SelectAppend(images, n, ImageCard, cardId);
    assert Select(images + n, ImageCard, cardId) == Select(n, ImageCard, cardId);
    KeptImagesListed(cardId, urls, first);
  }

  /** One more pass of the image loop, at position idx. */
  lemma KeptImagesSnoc(cardId: int, urls: seq<string>, idx: nat, first: int)
    requires idx < |urls|
    ensures |Kept(urls[..idx + 1])| == |Kept(urls[..idx])| + (if urls[idx] != [] then 1 else 0)
    ensures KeptImages(cardId, urls[..idx + 1], first)
         == KeptImages(cardId, urls[..idx], first)
            + (if urls[idx] != [] then [Image(first + |Kept(urls[..idx])|, cardId, urls[idx], Slot(idx))] else [])
  {
    assert urls[..idx + 1][..idx] == urls[..idx];
  }

  /** `insert_card` with foreign keys on: a card whose section does not
      exist is refused and nothing is written; otherwise the card takes
      the next id and each non-empty filename at position idx becomes an
      image of that card with order (idx+1)*10. */
  method InsertCard(db: CatalogStore, d: Draft) returns (cardId: Option<int>)
    requires db.Valid()
    modifies db
    ensures db.Valid() && db.sections == old(db.sections)
    ensures cardId.None? <==> Select(old(db.sections), SectionKey, d.section) == []
    ensures cardId.None? ==>
      db.cards == old(db.cards) && db.images == old(db.images)
      && db.nextCardId == old(db.nextCardId) && db.nextImageId == old(db.nextImageId)
    ensures cardId.Some? ==>
      && cardId.value == old(db.nextCardId)
      && db.cards == old(db.cards) + [CardOf(d, old(db.nextCardId))]
      && db.images == old(db.images) + KeptImages(old(db.nextCardId), d.urls, old(db.nextImageId))
      && db.nextCardId == old(db.nextCardId) + 1
      && db.nextImageId == old(db.nextImageId) + |Kept(d.urls)|
  {
    if Select(db.sections, SectionKey, d.section) == [] {
      return None;
    }
    var id := db.nextCardId;
    db.cards := db.cards + [CardOf(d, id)];
    db.nextCardId := id + 1;
    WriteKeptImages(db, id, d.urls);
    cardId := Some(id);
  }

  /** The image loop of `insert_card`: `for idx, fname in
      enumerate(...)`, skipping empty names, one INSERT per kept name. */
  method WriteKeptImages(db: CatalogStore, id: int, urls: seq<string>)
    requires Ascending(db.images, ImageRowId) && AllBelow(db.images, ImageRowId, db.nextImageId)
    modifies db
    ensures Ascending(db.images, ImageRowId) && AllBelow(db.images, ImageRowId, db.nextImageId)
    ensures db.images == old(db.images) + KeptImages(id, urls, old(db.nextImageId))
    ensures db.nextImageId == old(db.nextImageId) + |Kept(urls)|
    ensures db.sections == old(db.sections) && db.cards == old(db.cards) && db.nextCardId == old(db.nextCardId)
  {
    var idx := 0;
    assert urls[..0] == [];
    while idx < |urls|
      invariant 0 <= idx <= |urls|
      invariant db.images == old(db.images) + KeptImages(id, urls[..idx], old(db.nextImageId))
      invariant db.nextImageId == old(db.nextImageId) + |Kept(urls[..idx])|
      invariant Ascending(db.images, ImageRowId) && AllBelow(db.images, ImageRowId, db.nextImageId)
      invariant db.sections == old(db.sections) && db.cards == old(db.cards) && db.nextCardId == old(db.nextCardId)
    {
      KeptImagesSnoc(id, urls, idx, old(db.nextImageId));
      if urls[idx] != [] {
        var image := Image(db.nextImageId, id, urls[idx], Slot(idx));
        AppendFresh(db.images, ImageRowId, db.nextImageId, image);
        db.images := db.images + [image];
        db.nextImageId := db.nextImageId + 1;
      }
      idx := idx + 1;
    }
    assert urls[..idx] == urls;
  }

  // main

  /** The running counter of `main`: `order = 10`, then `order += 10`
      after each card, so the card at position i gets order (i+1)*10. */
  method StageOrders(drafts: seq<Draft>) returns (staged: seq<Draft>)
    ensures |staged| == |drafts|
    ensures forall i :: 0 <= i < |drafts| ==> staged[i] == drafts[i].(order := Slot(i))
    ensures forall i, j :: 0 <= i < j < |staged| ==> staged[i].order < staged[j].order
  {
    staged := [];
    var order := 10;
    var i := 0;
    while i < |drafts|
      invariant 0 <= i <= |drafts| && |staged| == i && order == Slot(i)
      invariant forall k :: 0 <= k < i ==> staged[k] == drafts[k].(order := Slot(k))
    {
      staged := staged + [drafts[i].(order := order)];
      order := order + 10;
      i := i + 1;
    }
  }

  /** Every filename of the cards, card after card. */
  function AllUrls(cards: seq<Draft>): seq<string>
    decreases |cards|
  {
    if cards == [] then [] else AllUrls(cards[..|cards| - 1]) + cards[|cards| - 1].urls
  }

  lemma {:induction false} AllUrlsSameUrls(a: seq<Draft>, b: seq<Draft>)
    requires |a| == |b| && forall i :: 0 <= i < |a| ==> a[i].urls == b[i].urls
    ensures AllUrls(a) == AllUrls(b)
    decreases |a|
  {
    if a != [] {
      AllUrlsSameUrls(a[..|a| - 1], b[..|b| - 1]);
    }
  }

  /** `if f and f not in used_files: used_files.append(f)` over a list:
      each non-empty name once. */
  function Dedup(xs: seq<string>): (r: seq<string>)
    ensures forall x :: x in r <==> x in xs && x != []
    ensures Distinct(r)
    decreases |xs|
  {
    if xs == [] then []
    else
      var n := |xs| - 1;
      assert xs == xs[..n] + [xs[n]];
      var d := Dedup(xs[..n]);
      if xs[n] != [] && xs[n] !in d then d + [xs[n]] else d
  }

  /** Where x first occurs in xs. */
  function FirstAt(xs: seq<string>, x: string): (i: nat)
    requires x in xs
    ensures i < |xs| && xs[i] == x
    ensures forall j :: 0 <= j < i ==> xs[j] != x
  {
    if xs[0] == x then 0 else 1 + FirstAt(xs[1..], x)
  }

  /** The names come in the order of their first occurrence. */
  lemma {:induction false} DedupFirstSeen(xs: seq<string>, p: nat, q: nat)
    requires p < q < |Dedup(xs)|
    ensures FirstAt(xs, Dedup(xs)[p]) < FirstAt(xs, Dedup(xs)[q])
    decreases |xs|
  {
    var n := |xs| - 1;
    var init := xs[..n];
    var d := Dedup(init);
    var r := Dedup(xs);
    assert xs == init + [xs[n]];
    assert r[p] in r && r[q] in r;
    if q < |d| {
      DedupFirstSeen(init, p, q);
      FirstAtPrefix(xs, n, d[p]);
      FirstAtPrefix(xs, n, d[q]);
    } else {
      assert r[q] == xs[n] && xs[n] !in d;
      assert xs[n] !in init;
      assert d[p] in d;
      FirstAtPrefix(xs, n, d[p]);
    }
  }

  lemma FirstAtPrefix(xs: seq<string>, n: nat, x: string)
    requires n <= |xs| && x in xs[..n]
    ensures FirstAt(xs, x) == FirstAt(xs[..n], x)
  {
    var j := FirstAt(xs[..n], x);
    assert xs[j] == x;
  }

  /** The `used_files` loop at the end of `main`. */
  method UsedFiles(cards: seq<Draft>) returns (used: seq<string>)
    ensures used == Dedup(AllUrls(cards))
  {
    used := [];
    var i := 0;
    assert cards[..0] == [];
    while i < |cards|
      invariant 0 <= i <= |cards|
      invariant used == Dedup(AllUrls(cards[..i]))
    {
      var urls := cards[i].urls;
      ghost var seen := AllUrls(cards[..i]);
      used := UseFiles(used, seen, urls);
      assert cards[..i + 1][..i] == cards[..i];
      assert AllUrls(cards[..i + 1]) == seen + urls;
      i := i + 1;
    }
    assert cards[..i] == cards;
  }

  /** The inner loop of the file list: each non-empty name not yet
      listed is appended. */
  method UseFiles(used: seq<string>, ghost seen: seq<string>, urls: seq<string>) returns (r: seq<string>)
    requires used == Dedup(seen)
    ensures r == Dedup(seen + urls)
  {
    r := used;
    var j := 0;
    ghost var done := seen;
    assert seen + urls[..0] == seen;
    while j < |urls|
      invariant 0 <= j <= |urls|
      invariant done == seen + urls[..j] && r == Dedup(done)
    {
      var f := urls[j];
      DedupStep(r, done, f);
      if f != [] && f !in r {
        r := r + [f];
      }
      assert seen + urls[..j + 1] == done + [f];
      done := done + [f];
      j := j + 1;
    }
    assert urls[..j] == urls;
  }

  /** One name more: it is listed when it is non-empty and not yet
      listed. */
  lemma DedupStep(r: seq<string>, xs: seq<string>, f: string)
    requires r == Dedup(xs)
    ensures Dedup(xs + [f]) == if f != [] && f !in r then r + [f] else r
  {
    DedupSnoc(xs, f);
  }

  lemma DedupSnoc(xs: seq<string>, x: string)
    ensures Dedup(xs + [x]) == if x != [] && x !in Dedup(xs) then Dedup(xs) + [x] else Dedup(xs)
  {
    assert (xs + [x])[..|xs|] == xs;
  }

  /** `main`: upsert the sections, clear the cards, give the drafts their
      running orders, insert them one by one, and list the files they
      use. A card whose section is missing raises, so the run stops there
      with the cards before it written and no file list. */
  method Import(db: CatalogStore, drafts: seq<Draft>) returns (used: Option<seq<string>>)
    requires db.Valid()
    modifies db
    ensures db.Valid()
    ensures db.sections == UpsertAll(old(db.sections), LoaderSections())
    ensures |db.cards| <= |drafts|
    ensures forall k :: 0 <= k < |db.cards| ==>
      db.cards[k] == CardOf(drafts[k].(order := Slot(k)), old(db.nextCardId) + k)
      && ImageUrls(db.images, db.cards[k].id) == NonEmpty(drafts[k].urls)
    ensures |db.cards| < |drafts| ==> Select(db.sections, SectionKey, drafts[|db.cards|].section) == []
    ensures used.Some? <==> |db.cards| == |drafts|
    ensures used.Some? ==> used.value == Dedup(AllUrls(drafts))
    ensures forall im :: im in db.images ==> exists k :: 0 <= k < |db.cards| && db.cards[k].id == im.cardId
    ensures db.nextCardId == old(db.nextCardId) + |db.cards|
    ensures db.nextImageId == old(db.nextImageId) + |db.images|
  {
    UpsertSections(db);
    ClearCards(db);
    var staged := StageOrders(drafts);
    ghost var first := db.nextCardId;
    var n, starts := InsertDrafts(db, staged);
    WrittenAll(first, staged, starts);
    DraftsListed(db.images, db.cards, first, staged, drafts, starts, n);
    WrittenCardsOwn(db.images, db.cards, first, staged, starts);
    if n < |staged| {
      return None;
    }
    var files := UsedFiles(staged);
    AllUrlsSameUrls(staged, drafts);
    used := Some(files);
  }

  /** The insert loop of `main` on an emptied card table: cards are
      inserted in turn until one names a missing section. */
  method InsertDrafts(db: CatalogStore, staged: seq<Draft>) returns (n: nat, ghost starts: seq<int>)
    requires db.Valid() && db.cards == [] && db.images == []
    modifies db
    ensures db.Valid() && db.sections == old(db.sections)
    ensures CardsAsDrafted(db.cards, old(db.nextCardId), staged, n)
    ensures |starts| == n && db.images == Written(old(db.nextCardId), staged, starts)
    ensures n < |staged| ==> Select(db.sections, SectionKey, staged[n].section) == []
    ensures db.nextCardId == old(db.nextCardId) + n
    ensures db.nextImageId == old(db.nextImageId) + |db.images|
  {
    ghost var first := db.nextCardId;
    starts := [];
    n := 0;
    var failed := false;
    while n < |staged| && !failed
      decreases |staged| - n, if failed then 0 else 1
      invariant db.Valid() && db.sections == old(db.sections)
      invariant db.nextCardId == first + n
      invariant db.nextImageId == old(db.nextImageId) + |db.images|
      invariant CardsAsDrafted(db.cards, first, staged, n)
      invariant |starts| == n && db.images == Written(first, staged, starts)
      invariant failed ==> n < |staged| && Select(db.sections, SectionKey, staged[n].section) == []
    {
      ghost var cards := db.cards;
      ghost var images := db.images;
      var ok, start := InsertNext(db, first, staged[n], n);
      if !ok {
        failed := true;
      } else {
        CardsStep(cards, first, staged, n);
        WrittenSnoc(first, staged, starts, start);
        starts := starts + [start];
        n := n + 1;
      }
    }
  }

  /** One turn of the insert loop: draft d is inserted as card first+n
      when its section exists, with its image rows from image id start
      on; nothing changes when the section does not exist. */
  method InsertNext(db: CatalogStore, ghost first: int, d: Draft, ghost n: nat) returns (ok: bool, ghost start: int)
    requires db.Valid() && db.nextCardId == first + n
    modifies db
    ensures db.Valid() && db.sections == old(db.sections)
    ensures !ok ==> db.cards == old(db.cards) && db.images == old(db.images)
    ensures !ok ==> db.nextCardId == old(db.nextCardId) && db.nextImageId == old(db.nextImageId)
    ensures !ok ==> Select(db.sections, SectionKey, d.section) == []
    ensures ok ==> db.nextCardId == first + n + 1
    ensures ok ==> db.cards == old(db.cards) + [CardOf(d, first + n)]
    ensures ok ==> db.images == old(db.images) + KeptImages(first + n, d.urls, start)
    ensures ok ==> start == old(db.nextImageId) && db.nextImageId == start + |Kept(d.urls)|
  {
    start := db.nextImageId;
    var cid := InsertCard(db, d);
    ok := cid.Some?;
  }

  /** After the loop, the card of draft k carries that draft with its
      running order and lists exactly its non-empty filenames, in order. */
  lemma DraftsListed(images: seq<Image>, cards: seq<Card>, first: int, staged: seq<Draft>, drafts: seq<Draft>, starts: seq<int>, n: nat)
    requires |staged| == |drafts|
    requires WrittenAsDrafted(images, first, staged, starts, n)
    requires CardsAsDrafted(cards, first, staged, n)
    requires forall k :: 0 <= k < |drafts| ==> staged[k] == drafts[k].(order := Slot(k))
    ensures forall k :: 0 <= k < |cards| ==>
      cards[k] == CardOf(drafts[k].(order := Slot(k)), first + k)
      && ImageUrls(images, cards[k].id) == NonEmpty(drafts[k].urls)
  {
    forall k | 0 <= k < |cards|
      ensures cards[k] == CardOf(drafts[k].(order := Slot(k)), first + k)
      ensures ImageUrls(images, cards[k].id) == NonEmpty(drafts[k].urls)
    {
      DraftListed(images, cards[k], staged[k], drafts[k], k, first, starts[k]);
    }
  }

  /** Draft d, given its running order Slot(k) and written as card
      first+k with its image rows from start on, lists its non-empty
      filenames. */
  lemma DraftListed(images: seq<Image>, card: Card, s: Draft, d: Draft, k: nat, first: int, start: int)
    requires s == d.(order := Slot(k)) && card == CardOf(s, first + k)
    requires Select(images, ImageCard, first + k) == KeptImages(first + k, s.urls, start)
    ensures card == CardOf(d.(order := Slot(k)), first + k)
    ensures ImageUrls(images, card.id) == NonEmpty(d.urls)
  {
    var id := card.id;
    assert id == first + k && s.urls == d.urls;
    ListedFromSelect(images, id, d.urls, start);
  }


  /** The image rows the inserts of the first |starts| drafts write, in
      turn: draft k under card id first+k, from image id starts[k] on. */
  ghost function Written(first: int, staged: seq<Draft>, starts: seq<int>): seq<Image>
    requires |starts| <= |staged|
    decreases |starts|
  {
    if starts == [] then []
    else
      var n := |starts| - 1;
      Written(first, staged, starts[..n]) + KeptImages(first + n, staged[n].urls, starts[n])
  }

  /** Every image written so far names one of the cards inserted so far. */
  lemma {:induction false} WrittenOwners(first: int, staged: seq<Draft>, starts: seq<int>)
    requires |starts| <= |staged|
    ensures forall im :: im in Written(first, staged, starts) ==> first <= im.cardId < first + |starts|
    decreases |starts|
  {
    if starts != [] {
      var n := |starts| - 1;
      WrittenOwners(first, staged, starts[..n]);
      var kept := KeptImages(first + n, staged[n].urls, starts[n]);
      forall im | im in kept ensures im.cardId == first + n {
        var j :| 0 <= j < |kept| && kept[j] == im;
      }
    }
  }

  /** So after the loop every image row belongs to an inserted card. */
  lemma WrittenCardsOwn(images: seq<Image>, cards: seq<Card>, first: int, staged: seq<Draft>, starts: seq<int>)
    requires CardsAsDrafted(cards, first, staged, |starts|)
    requires images == Written(first, staged, starts)
    ensures forall im :: im in images ==> exists k :: 0 <= k < |cards| && cards[k].id == im.cardId
  {
    WrittenOwners(first, staged, starts);
    forall im | im in images
      ensures exists k :: 0 <= k < |cards| && cards[k].id == im.cardId
    {
      var k := im.cardId - first;
      assert cards[k].id == first + k;
    }
  }

  /** One more insert appends its rows. */
  lemma WrittenSnoc(first: int, staged: seq<Draft>, starts: seq<int>, start: int)
    requires |starts| < |staged|
    ensures Written(first, staged, starts + [start])
         == Written(first, staged, starts) + KeptImages(first + |starts|, staged[|starts|].urls, start)
  {
    assert (starts + [start])[..|starts|] == starts;
  }

  /** Every row written names one of the cards inserted. */
  lemma {:induction false} WrittenUnder(first: int, staged: seq<Draft>, starts: seq<int>)
    requires |starts| <= |staged|
    ensures forall j :: 0 <= j < |Written(first, staged, starts)| ==>
      first <= Written(first, staged, starts)[j].cardId < first + |starts|
    decreases |starts|
  {
    if starts != [] {
      var n := |starts| - 1;
      WrittenUnder(first, staged, starts[..n]);
    }
  }

  /** The rows naming the card of draft k are exactly those its insert
      wrote. */
  lemma {:induction false} WrittenSelect(first: int, staged: seq<Draft>, starts: seq<int>, k: nat)
    requires k < |starts| <= |staged|
    ensures Select(Written(first, staged, starts), ImageCard, first + k) == KeptImages(first + k, staged[k].urls, starts[k])
    decreases |starts|
  {
    var n := |starts| - 1;
    if k == n {
      WrittenSelectLast(first, staged, starts);
    } else {
      WrittenSelect(first, staged, starts[..n], k);
      WrittenSelectEarlier(first, staged, starts, k);
    }
  }

  /** The last insert's rows are the only ones naming its card. */
  lemma WrittenSelectLast(first: int, staged: seq<Draft>, starts: seq<int>)
    requires 0 < |starts| <= |staged|
    ensures var n := |starts| - 1;
      Select(Written(first, staged, starts), ImageCard, first + n) == KeptImages(first + n, staged[n].urls, starts[n])
  {
    var n := |starts| - 1;
    WrittenUnder(first, staged, starts[..n]);
    SelectNewCard(Written(first, staged, starts[..n]), first + n, staged[n].urls, starts[n]);
  }

  /** The last insert adds no row naming an earlier card. */
  lemma WrittenSelectEarlier(first: int, staged: seq<Draft>, starts: seq<int>, k: nat)
    requires k < |starts| - 1 && |starts| <= |staged|
    ensures var n := |starts| - 1;
      Select(Written(first, staged, starts), ImageCard, first + k) == Select(Written(first, staged, starts[..n]), ImageCard, first + k)
  {
    var n := |starts| - 1;
    ImagesOfOtherCard(Written(first, staged, starts[..n]), first + n, staged[n].urls, starts[n], first + k);
  }

  /** Appending a new card's rows after rows of lower card ids: its
      selection is exactly those rows. */
  lemma SelectNewCard(prev: seq<Image>, cardId: int, urls: seq<string>, first: int)
    requires forall j :: 0 <= j < |prev| ==> prev[j].cardId < cardId
    ensures Select(prev + KeptImages(cardId, urls, first), ImageCard, cardId) == KeptImages(cardId, urls, first)
  {
    SelectNone(prev, ImageCard, cardId);
    KeptImagesSelect(cardId, urls, first, cardId);
    SelectAppend(prev, KeptImages(cardId, urls, first), ImageCard, cardId);
  }

  /** Appending a card's rows leaves the selection of any other card as
      it was. */
  lemma ImagesOfOtherCard(prev: seq<Image>, cardId: int, urls: seq<string>, first: int, other: int)
    requires other != cardId
    ensures Select(prev + KeptImages(cardId, urls, first), ImageCard, other) == Select(prev, ImageCard, other)
  {
    KeptImagesSelect(cardId, urls, first, other);
    SelectAppend(prev, KeptImages(cardId, urls, first), ImageCard, other);
    assert Select(prev, ImageCard, other) + [] == Select(prev, ImageCard, other);
  }

  /** The image rows naming the cards of the first i drafts, ids first,
      first+1, ..., are exactly the rows their inserts wrote, the insert
      of draft k starting at image id starts[k]. */
  ghost predicate WrittenAsDrafted(images: seq<Image>, first: int, staged: seq<Draft>, starts: seq<int>, i: nat)
  {
    && i <= |staged| && |starts| == i
    && forall k {:trigger starts[k]} :: 0 <= k < i ==> Select(images, ImageCard, first + k) == KeptImages(first + k, staged[k].urls, starts[k])
  }

  /** What the inserts wrote, card by card. */
  lemma WrittenAll(first: int, staged: seq<Draft>, starts: seq<int>)
    requires |starts| <= |staged|
    ensures WrittenAsDrafted(Written(first, staged, starts), first, staged, starts, |starts|)
  {
    forall k | 0 <= k < |starts|
      ensures Select(Written(first, staged, starts), ImageCard, first + k) == KeptImages(first + k, staged[k].urls, starts[k])
    {
      WrittenSelect(first, staged, starts, k);
    }
  }

  /** The card rows are those the inserts of the first n drafts wrote,
      with the ids first, first+1, ... */
  ghost predicate CardsAsDrafted(cards: seq<Card>, first: int, staged: seq<Draft>, n: nat)
  {
    && n <= |staged| && |cards| == n
    && forall k :: 0 <= k < n ==> cards[k] == CardOf(staged[k], first + k)
  }

  /** Appending the card of draft n extends the rows written so far. */
  lemma CardsStep(cards: seq<Card>, first: int, staged: seq<Draft>, n: nat)
    requires CardsAsDrafted(cards, first, staged, n) && n < |staged|
    ensures CardsAsDrafted(cards + [CardOf(staged[n], first + n)], first, staged, n + 1)
  {
  }

  /** A card whose image rows are those one insert wrote lists the
      non-empty filenames of that insert. */
  lemma ListedFromSelect(images: seq<Image>, cardId: int, urls: seq<string>, first: int)
    requires Select(images, ImageCard, cardId) == KeptImages(cardId, urls, first)
    ensures ImageUrls(images, cardId) == NonEmpty(urls)
  {
    var n := KeptImages(cardId, urls, first);
    SelectAll(n, ImageCard, cardId);
    KeptImagesListed(cardId, urls, first);
  }

  /** The rows one insert writes all name its card. */
  lemma KeptImagesSelect(cardId: int, urls: seq<string>, first: int, other: int)
    ensures Select(KeptImages(cardId, urls, first), ImageCard, other)
         == if other == cardId then KeptImages(cardId, urls, first) else []
  {
    if other == cardId {
      SelectAll(KeptImages(cardId, urls, first), ImageCard, other);
    } else {
      SelectNone(KeptImages(cardId, urls, first), ImageCard, other);
    }
  }

  /** Inserting a card's images leaves the listing of every other card
      alone. */
  lemma ImagesOfNewCard(images: seq<Image>, cardId: int, urls: seq<string>, first: int, other: int)
    requires other != cardId
    ensures ImageUrls(images + KeptImages(cardId, urls, first), other) == ImageUrls(images, other)
  {
    var n := KeptImages(cardId, urls, first);
    SelectAppend(images, n, ImageCard, other);
    SelectNone(n, ImageCard, other);
    assert Select(images, ImageCard, other) + [] == Select(images, ImageCard, other);
  }

  /** Drafts filed only under GTSI, CTSV or MADA are all written: the
      upsert guarantees their sections exist. */
  lemma DefaultDraftsLoad(rows: seq<Section>, drafts: seq<Draft>, i: nat)
    requires UniqueBy(rows, SectionKey) && i < |drafts|
    requires drafts[i].section in {"GTSI", "CTSV", "MADA"}
    ensures Select(UpsertAll(rows, LoaderSections()), SectionKey, drafts[i].section) != []
  {
    var ds := LoaderSections();
    if drafts[i].section == "GTSI" {
      LoaderSectionsPresent(rows, 0);
    } else if drafts[i].section == "CTSV" {
      LoaderSectionsPresent(rows, 1);
    } else {
      LoaderSectionsPresent(rows, 2);
    }
  }
}
