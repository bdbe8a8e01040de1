/** ctsv_gtsi.db as the routes of 3PL.py use it: the top-level sections,
    the test cards filed under them, and each card's images. 3PL.py never
    turns on SQLite's foreign keys, so the `ON DELETE CASCADE` clauses of
    the schema do nothing here: deleting a card or a section leaves its
    images in place. */
module Catalog {
  import opened Tables
  import opened Keys
  import opened Ordering
  import opened Api

  /** One row of `ctsv_sections`. */
  datatype Section = Section(key: string, title: string, tag: string, order: int)

  /** One row of `test_cards`. */
  datatype Card = Card(id: int, section: string, title: string, subtitle: Option<string>,
                       content: Option<string>, note: Option<string>, order: int)

  /** One row of `card_images`. */
  datatype Image = Image(id: int, cardId: int, filename: string, order: int)

  /** A card as `list_ctsv_cards` returns it: its columns plus the
      filenames of its images. */
  datatype CardView = CardView(card: Card, imageUrls: seq<string>)

  function SectionKey(s: Section): string { s.key }
  function WithSectionOrder(s: Section, order: int): Section { s.(order := order) }
  /** `ORDER BY display_order` */
  function SectionSortKey(s: Section): SortKey { SortKey([], s.order, 0) }

  function CardRowId(c: Card): int { c.id }
  function CardSection(c: Card): string { c.section }
  function CardOrder(c: Card): int { c.order }
  /** The `WHERE id = ? AND section_key = ?` of `reorder_ctsv_cards`. */
  function CardSlot(c: Card): (int, string) { (c.id, c.section) }
  function WithCardOrder(c: Card, order: int): Card { c.(order := order) }
  /** `ORDER BY section_key, display_order` */
  function CardSortKey(c: Card): SortKey { SortKey(c.section, c.order, 0) }

  function ImageRowId(m: Image): int { m.id }
  function ImageCard(m: Image): int { m.cardId }
  /** `ORDER BY card_id, display_order` */
  function ImageSortKey(m: Image): SortKey { SortKey([], m.cardId, m.order) }

  /** The three sections `init_db` puts into an empty `ctsv_sections`. */
  function DefaultSections(): seq<Section>
  {
    [ Section("GTSI", "GTS Interactive 區塊", "Android 13+ / MADA", 10),
      Section("CTSV", "CTS Verifier 區塊", "CameraITS / Audio / Sensor", 20),
      Section("MADA", "MADA Check List 區塊", "Auto discoverability / Doc", 30) ]
  }

  lemma DefaultSectionsUnique()
    ensures UniqueBy(DefaultSections(), SectionKey)
  {
    var d := DefaultSections();
    forall i, j | 0 <= i < j < |d| ensures d[i].key != d[j].key {
      assert d[i].key[0] != d[j].key[0];
    }
  }

  /** The rows the image loop of `add_ctsv_card` and `update_ctsv_card`
      inserts for a card: url i gets order (i+1)*10 and the i-th fresh id
      from first on. */
  function NewImages(cardId: int, urls: seq<string>, first: int): (r: seq<Image>)
    ensures |r| == |urls|
    ensures forall i :: 0 <= i < |urls| ==> r[i] == Image(first + i, cardId, urls[i], Slot(i))
  {
    seq(|urls|, i requires 0 <= i < |urls| => Image(first + i, cardId, urls[i], Slot(i)))
  }

  function Filenames(imgs: seq<Image>): (r: seq<string>)
    ensures |r| == |imgs| && forall i :: 0 <= i < |imgs| ==> r[i] == imgs[i].filename
  {
    seq(|imgs|, i requires 0 <= i < |imgs| => imgs[i].filename)
  }

  /** The image list `list_ctsv_cards` shows for a card: the filenames of
      the images that name it, by display order. */
  function ImageUrls(images: seq<Image>, cardId: int): seq<string>
  {
    Filenames(SortBy(Select(images, ImageCard, cardId), ImageSortKey))
  }

  lemma {:induction false} SelectAll<T(!new), K>(rows: seq<T>, keyOf: T -> K, k: K)
    requires forall i :: 0 <= i < |rows| ==> keyOf(rows[i]) == k
    ensures Select(rows, keyOf, k) == rows
    decreases |rows|
  {
    if rows != [] {
      SelectAll(rows[1..], keyOf, k);
    }
  }

  /** The images just written for a card are listed in the order given. */
  lemma NewImagesListed(cardId: int, urls: seq<string>, first: int)
    ensures ImageUrls(NewImages(cardId, urls, first), cardId) == urls
  {
    var n := NewImages(cardId, urls, first);
    SelectAll(n, ImageCard, cardId);
    assert SortedBy(n, ImageSortKey);
    SortBySorted(n, ImageSortKey);
  }

  /** Once no image names a card, writing urls for it makes its listed
      images exactly urls, in order: what `add_ctsv_card` and
      `update_ctsv_card` promise the next listing. */
  lemma ImagesAfterWrite(images: seq<Image>, cardId: int, urls: seq<string>, first: int)
    requires Select(images, ImageCard, cardId) == []
    ensures ImageUrls(images + NewImages(cardId, urls, first), cardId) == urls
  {
    SelectAppend(images, NewImages(cardId, urls, first), ImageCard, cardId);
    assert Select(images + NewImages(cardId, urls, first), ImageCard, cardId)
        == Select(NewImages(cardId, urls, first), ImageCard, cardId);
    NewImagesListed(cardId, urls, first);
  }

  /** Writing images for one card leaves every other card's list alone. */
  lemma ImagesOfOthers(images: seq<Image>, cardId: int, urls: seq<string>, first: int, other: int)
    requires other != cardId
    ensures ImageUrls(Drop(images, ImageCard, cardId) + NewImages(cardId, urls, first), other) == ImageUrls(images, other)
  {
    var n := NewImages(cardId, urls, first);
    SelectAppend(Drop(images, ImageCard, cardId), n, ImageCard, other);
    SelectNone(n, ImageCard, other);
    SelectDropOther(images, ImageCard, cardId, other);
    assert Select(Drop(images, ImageCard, cardId), ImageCard, other) + [] == Select(images, ImageCard, other);
  }

  lemma FilenamesAppend(a: seq<Image>, b: seq<Image>)
    ensures Filenames(a + b) == Filenames(a) + Filenames(b)
  {
    assert forall i :: 0 <= i < |a + b| ==> Filenames(a + b)[i] == (Filenames(a) + Filenames(b))[i];
  }

  /** Taking row j out of a table takes one copy of it out of the multiset
      of rows and one copy of its filename out of the multiset of names. */
  lemma FilenamesRemoveAt(b: seq<Image>, j: nat)
    requires j < |b|
    ensures multiset(b[..j] + b[j + 1..]) == multiset(b) - multiset{b[j]}
    ensures multiset(Filenames(b)) == multiset(Filenames(b[..j] + b[j + 1..])) + multiset{b[j].filename}
  {
    var front, x, back := b[..j], b[j], b[j + 1..];
    assert b == front + ([x] + back);
    FilenamesAppend(front, [x] + back);
    FilenamesAppend([x], back);
    FilenamesAppend(front, back);
    var f, g := Filenames(front), Filenames(back);
    assert Filenames([x]) == [x.filename];
    assert Filenames(b) == f + ([x.filename] + g);
    assert Filenames(front + back) == f + g;
    assert multiset(Filenames(b)) == multiset(f) + multiset{x.filename} + multiset(g);
    assert multiset(b) == multiset(front) + multiset{x} + multiset(back);
  }

  /** Listing the same image rows in another order lists the same
      filenames, each as often. */
  lemma {:induction false} FilenamesPermutation(a: seq<Image>, b: seq<Image>)
    requires multiset(a) == multiset(b)
    ensures multiset(Filenames(a)) == multiset(Filenames(b))
    decreases |a|
  {
    if a == [] {
      assert |b| == |multiset(b)| == 0;
    } else {
      var x, tail := a[0], a[1..];
      assert a == [x] + tail;
      assert multiset(a) == multiset{x} + multiset(tail);
      assert x in multiset(b);
      var j :| 0 <= j < |b| && b[j] == x;
      var rest := b[..j] + b[j + 1..];
      FilenamesRemoveAt(b, j);
      assert multiset(tail) == multiset(rest);
      FilenamesPermutation(tail, rest);
      FilenamesAppend([x], tail);
      assert Filenames([x]) == [x.filename];
      assert multiset(Filenames(a)) == multiset{x.filename} + multiset(Filenames(tail));
    }
  }

  /** Images left behind under a card id (by a delete, or by an update of
      an id that had no card) are shown on the card that later gets the
      id, together with the images it was added with: its list holds
      both, each filename as often as it was stored. Where the strays fall
      in the list depends on their display orders. */
  lemma StrayImagesShowUp(images: seq<Image>, cardId: int, urls: seq<string>, first: int)
    ensures multiset(ImageUrls(images + NewImages(cardId, urls, first), cardId))
         == multiset(ImageUrls(images, cardId)) + multiset(urls)
  {
    var n := NewImages(cardId, urls, first);
    var stray := Select(images, ImageCard, cardId);
    SelectAppend(images, n, ImageCard, cardId);
    SelectAll(n, ImageCard, cardId);
    assert Select(images + n, ImageCard, cardId) == stray + n;
    FilenamesPermutation(SortBy(stray + n, ImageSortKey), stray + n);
    FilenamesPermutation(SortBy(stray, ImageSortKey), stray);
    FilenamesAppend(stray, n);
    assert Filenames(n) == urls;
  }

  /** A card appended by `add_ctsv_card` has a larger order than every
      other card of its section, so it comes last within its section. */
  lemma AddedCardListedLast(cards: seq<Card>, c: Card)
    requires c.order == NextOrder(OrdersOf(Select(cards, CardSection, c.section), CardOrder))
    ensures Select(SortBy(cards + [c], CardSortKey), CardSection, c.section)
         == Select(SortBy(cards, CardSortKey), CardSection, c.section) + [c]
  {
    var same := Select(cards, CardSection, c.section);
    var orders := OrdersOf(same, CardOrder);
    SelectSortBy(cards + [c], CardSortKey, CardSection, c.section);
    SelectSortBy(cards, CardSortKey, CardSection, c.section);
    SelectAppend(cards, [c], CardSection, c.section);
    assert Select([c], CardSection, c.section) == [c];
    forall i | 0 <= i < |same| ensures KeyLe(CardSortKey(same[i]), CardSortKey(c)) {
      assert same[i] in same;
      assert orders[i] in orders;
    }
    SortByAppendLast(same, c, CardSortKey);
  }

  /** The columns `update_ctsv_card` rewrites; `display_order` is not one. */
  datatype CardEdit = CardEdit(section: string, title: string, subtitle: Option<string>,
                               content: Option<string>, note: Option<string>)

  function ApplyEdit(c: Card, e: CardEdit): Card
  {
    c.(section := e.section, title := e.title, subtitle := e.subtitle, content := e.content, note := e.note)
  }

  /** `UPDATE ctsv_cards SET ... WHERE id = ?`: the row with this id takes
      the edited columns and keeps its id and order; every other row is
      left alone. */
  function EditCards(rows: seq<Card>, id: int, e: CardEdit): (r: seq<Card>)
    ensures |r| == |rows|
    ensures forall i :: 0 <= i < |rows| ==> r[i].id == rows[i].id && r[i].order == rows[i].order
    ensures forall i :: 0 <= i < |rows| && rows[i].id != id ==> r[i] == rows[i]
    ensures forall i :: 0 <= i < |rows| && rows[i].id == id ==>
      r[i].section == e.section && r[i].title == e.title && r[i].subtitle == e.subtitle
      && r[i].content == e.content && r[i].note == e.note
  {
    seq(|rows|, i requires 0 <= i < |rows| => if rows[i].id == id then ApplyEdit(rows[i], e) else rows[i])
  }
  /** Editing card columns keeps every row id, so the id order and the
      bound on ids still hold. */
  lemma EditCardsKeepsIds(rows: seq<Card>, id: int, e: CardEdit, next: int)
    requires Ascending(rows, CardRowId) && AllBelow(rows, CardRowId, next)
    ensures Ascending(EditCards(rows, id, e), CardRowId) && AllBelow(EditCards(rows, id, e), CardRowId, next)
  {
    var r := EditCards(rows, id, e);
    forall x | x in r ensures CardRowId(x) < next {
      var i :| 0 <= i < |r| && r[i] == x;
      assert rows[i] in rows;
    }
  }


  /** The three fields `add_ctsv_card` and `update_ctsv_card` insist on. */
  predicate HasRequired(sectionKey: Field, title: Field, content: Field)
  {
    Present(sectionKey) && Present(title) && Present(content)
  }

  /** The 404 message `delete_ctsv_section` evidently means for a key no
      section has: one that names the key. `DeleteSection` answers with the
      message as written, `SectionNotFoundAsWritten`. */
  function SectionNotFound(key: string): string
  {
    "Section key '" + key + "' not found."
  }

  /** The 404 message as 3PL.py:1072 writes it: without the `f` prefix the
      placeholder is never filled in. */
  function SectionNotFoundAsWritten(key: string): string
  {
    "Section key '{section_key}' not found."
  }

  /** As written, the message is the same for every key. */
  lemma SectionNotFoundAsWrittenIgnoresKey()
    ensures SectionNotFoundAsWritten("GTSI") == SectionNotFoundAsWritten("MADA")
    ensures "GTSI" != "MADA"
  {
  }

  /** The message that was meant names the key. */
  lemma SectionNotFoundNamesKey(a: string, b: string)
    requires SectionNotFound(a) == SectionNotFound(b)
    ensures a == b
  {
    var m := SectionNotFound(a);
    assert m[13..|m| - 12] == a;
    assert m[13..|m| - 12] == b;
  }

  /** `[(card_id, section_key) for card_id in ids]`: the WHERE clauses of
      the UPDATEs `reorder_ctsv_cards` issues. */
  function SlotsFor(ids: seq<int>, key: string): (r: seq<(int, string)>)
    ensures |r| == |ids| && forall i :: 0 <= i < |ids| ==> r[i] == (ids[i], key)
  {
    seq(|ids|, i requires 0 <= i < |ids| => (ids[i], key))
  }

  /** A card reorder leaves the cards of every other section alone. */
  lemma ReorderCardsStaysInSection(cards: seq<Card>, ids: seq<int>, key: string, i: nat)
    requires i < |cards| && cards[i].section != key
    ensures Reorder(cards, CardSlot, SlotsFor(ids, key), WithCardOrder)[i] == cards[i]
  {
    assert CardSlot(cards[i]) !in SlotsFor(ids, key);
  }

  /** In a card reorder with no id listed twice, the card of the section
      whose id is at position p gets order (p+1)*10. */
  lemma ReorderCardsListed(cards: seq<Card>, ids: seq<int>, key: string, i: nat, p: nat)
    requires Distinct(ids) && i < |cards| && p < |ids|
    requires cards[i].id == ids[p] && cards[i].section == key
    ensures Reorder(cards, CardSlot, SlotsFor(ids, key), WithCardOrder)[i] == cards[i].(order := Slot(p))
  {
    var ks := SlotsFor(ids, key);
    forall a, b | 0 <= a < b < |ks| ensures ks[a] != ks[b] {
      assert ks[a].0 == ids[a] && ks[b].0 == ids[b];
    }
    ReorderListed(cards, CardSlot, ks, WithCardOrder, i, p);
  }

  class CatalogStore {
    var sections: seq<Section>
    var cards: seq<Card>
    var images: seq<Image>
    var nextCardId: int
    var nextImageId: int

    ghost predicate Valid()
      reads this
    {
      && UniqueBy(sections, SectionKey)
      && Ascending(cards, CardRowId) && AllBelow(cards, CardRowId, nextCardId)
      && Ascending(images, ImageRowId) && AllBelow(images, ImageRowId, nextImageId)
    }

    /** The three tables created empty on a fresh database. */
    constructor ()
      ensures Valid()
      ensures sections == [] && cards == [] && images == [] && nextCardId == 1 && nextImageId == 1
    {
      sections := [];
      cards := [];
      images := [];
      nextCardId := 1;
      nextImageId := 1;
    }

    /** The seeding step of `init_db`: only an empty `ctsv_sections` table
        gets the three default sections. */
    method SeedSections()
      requires Valid()
      modifies this
      ensures Valid() && cards == old(cards) && images == old(images)
      ensures nextCardId == old(nextCardId) && nextImageId == old(nextImageId)
      ensures sections == if old(sections) == [] then DefaultSections() else old(sections)
    {
      if sections == [] {
        DefaultSectionsUnique();
        sections := DefaultSections();
      }
    }

    /** `list_ctsv_sections`: every section once, by display order. */
    method ListSections() returns (rows: seq<Section>)
      ensures SortedBy(rows, SectionSortKey)
      ensures multiset(rows) == multiset(sections)
    {
      rows := SortBy(sections, SectionSortKey);
      SortByIsSorted(sections, SectionSortKey);
    }

    /** `list_ctsv_cards`: every card once, ordered by section key and then
        display order, each with the filenames of its images. The images
        are fetched in one query ordered by card id and display order and
        grouped into a dictionary, one `setdefault(...).append` per row. */
    method ListCards() returns (views: seq<CardView>)
      ensures |views| == |cards|
      ensures forall i :: 0 <= i < |views| ==> views[i].imageUrls == ImageUrls(images, views[i].card.id)
      ensures SortedBy(CardsOf(views), CardSortKey)
      ensures multiset(CardsOf(views)) == multiset(cards)
    {
      var sorted := SortBy(cards, CardSortKey);
      var rows := SortBy(images, ImageSortKey);
      var byCard := GroupFilenames(rows);
      ghost var listed := images;
      ghost var urlsOf := c => ImageUrls(listed, c);
      assert (forall c :: c in byCard ==> byCard[c] == urlsOf(c)) && (forall c :: c !in byCard ==> urlsOf(c) == []) by {
        GroupedAll(listed, byCard);
      }
      views := AttachUrls(sorted, byCard, urlsOf);
      assert CardsOf(views) == sorted;
      SortByIsSorted(cards, CardSortKey);
    }

    /** `add_ctsv_card`: a request without section, title or content is
        refused; otherwise the card is appended to its upper-cased section
        after the section's last order, and one image row per url follows. */
    method AddCard(sectionKey: Field, title: Field, subtitle: Field, content: Field, note: Field, urls: seq<string>)
      returns (resp: Response)
      requires Valid()
      modifies this
      ensures Valid() && sections == old(sections)
      ensures !HasRequired(sectionKey, title, content) ==>
        resp == Failed(400, MissingFields) && unchanged(this)
      ensures HasRequired(sectionKey, title, content) ==>
        var key := Upper(sectionKey.text);
        && resp == Created(old(nextCardId))
        && cards == old(cards) + [Card(old(nextCardId), key, title.text, Stored(subtitle), Some(content.text), Stored(note),
                                       NextOrder(OrdersOf(Select(old(cards), CardSection, key), CardOrder)))]
        && images == old(images) + NewImages(old(nextCardId), urls, old(nextImageId))
        && nextCardId == old(nextCardId) + 1
        && nextImageId == old(nextImageId) + |urls|
    {
      if !HasRequired(sectionKey, title, content) {
        return Failed(400, MissingFields);
      }
      var key := Upper(sectionKey.text);
      var order := NextOrder(OrdersOf(Select(cards, CardSection, key), CardOrder));
      var id := nextCardId;
      cards := cards + [Card(id, key, title.text, Stored(subtitle), Some(content.text), Stored(note), order)];
      nextCardId := nextCardId + 1;
      WriteImages(id, urls);
      resp := Created(id);
    }

    /** `update_ctsv_card`: a request without section, title or content is
        refused. Otherwise the card with this id gets the new columns but
        keeps its display order, and the image rows under this id are
        replaced by one row per url, even when no card has the id; the 404
        comes after that. */
    method UpdateCard(id: int, sectionKey: Field, title: Field, subtitle: Field, content: Field, note: Field, urls: seq<string>)
      returns (resp: Response)
      requires Valid()
      modifies this
      ensures Valid() && sections == old(sections) && nextCardId == old(nextCardId)
      ensures !HasRequired(sectionKey, title, content) ==>
        resp == Failed(400, MissingFieldsForUpdate) && unchanged(this)
      ensures HasRequired(sectionKey, title, content) ==>
        var e := CardEdit(Upper(sectionKey.text), title.text, Stored(subtitle), Some(content.text), Stored(note));
        && cards == EditCards(old(cards), id, e)
        && images == Drop(old(images), ImageCard, id) + NewImages(id, urls, old(nextImageId))
        && nextImageId == old(nextImageId) + |urls|
        && resp == if Select(old(cards), CardRowId, id) == [] then Failed(404, "Card not found") else Done
      ensures HasRequired(sectionKey, title, content) ==> ImageUrls(images, id) == urls
    {
      if !HasRequired(sectionKey, title, content) {
        return Failed(400, MissingFieldsForUpdate);
      }
      var e := CardEdit(Upper(sectionKey.text), title.text, Stored(subtitle), Some(content.text), Stored(note));
      var affected := |Select(cards, CardRowId, id)|;
      EditCardsKeepsIds(cards, id, e, nextCardId);
      cards := EditCards(cards, id, e);
      ReplaceImages(id, urls);
      resp := if affected == 0 then Failed(404, "Card not found") else Done;
    }

    /** The image half of `update_ctsv_card`: the DELETE of every image
        row under this id, then the image loop. Afterwards the card lists
        exactly the new urls. */
    method ReplaceImages(id: int, urls: seq<string>)
      requires Ascending(images, ImageRowId) && AllBelow(images, ImageRowId, nextImageId)
      modifies this
      ensures Ascending(images, ImageRowId) && AllBelow(images, ImageRowId, nextImageId)
      ensures images == Drop(old(images), ImageCard, id) + NewImages(id, urls, old(nextImageId))
      ensures nextImageId == old(nextImageId) + |urls|
      ensures sections == old(sections) && cards == old(cards) && nextCardId == old(nextCardId)
      ensures ImageUrls(images, id) == urls
    {
      DropAscending(images, ImageRowId, ImageCard, id);
      var kept := Drop(images, ImageCard, id);
      images := kept;
      WriteImages(id, urls);
      SelectDropped(old(images), ImageCard, id);
      ImagesAfterWrite(kept, id, urls, old(nextImageId));
    }

    /** The image loop shared by `add_ctsv_card` and `update_ctsv_card`:
        `for idx, url in enumerate(image_urls)`, one INSERT per url. */
    method WriteImages(cardId: int, urls: seq<string>)
      requires Ascending(images, ImageRowId) && AllBelow(images, ImageRowId, nextImageId)
      modifies this
      ensures Ascending(images, ImageRowId) && AllBelow(images, ImageRowId, nextImageId)
      ensures images == old(images) + NewImages(cardId, urls, old(nextImageId))
      ensures nextImageId == old(nextImageId) + |urls|
      ensures sections == old(sections) && cards == old(cards) && nextCardId == old(nextCardId)
    {
      var i := 0;
      while i < |urls|
        invariant 0 <= i <= |urls|
        invariant images == old(images) + NewImages(cardId, urls[..i], old(nextImageId))
        invariant nextImageId == old(nextImageId) + i
        invariant Ascending(images, ImageRowId) && AllBelow(images, ImageRowId, nextImageId)
        invariant sections == old(sections) && cards == old(cards) && nextCardId == old(nextCardId)
      {
        assert NewImages(cardId, urls[..i + 1], old(nextImageId))
            == NewImages(cardId, urls[..i], old(nextImageId)) + [Image(nextImageId, cardId, urls[i], Slot(i))];
        var image := Image(nextImageId, cardId, urls[i], Slot(i));
        AppendFresh(images, ImageRowId, nextImageId, image);
        images := images + [image];
        nextImageId := nextImageId + 1;
        i := i + 1;
      }
      assert urls[..i] == urls;
    }

    /** `delete_ctsv_card`: removes the card with this id and nothing
        else, its images included; 404 when there is none. */
    method DeleteCard(id: int) returns (resp: Response)
      requires Valid()
      modifies this
      ensures Valid() && sections == old(sections) && images == old(images)
      ensures nextCardId == old(nextCardId) && nextImageId == old(nextImageId)
      ensures cards == Drop(old(cards), CardRowId, id)
      ensures resp == if Select(old(cards), CardRowId, id) == [] then Failed(404, "Card not found") else Done
    {
      var affected := |Select(cards, CardRowId, id)|;
      DropAscending(cards, CardRowId, CardRowId, id);
      cards := Drop(cards, CardRowId, id);
      resp := if affected == 0 then Failed(404, "Card not found") else Done;
    }

    /** `delete_ctsv_section`: the cards filed under the upper-cased key go
        first, whether or not a section has that key; then the section row.
        Images stay. The 404 is the message as written, which does not name
        the key. */
    method DeleteSection(sectionKey: string) returns (resp: Response)
      requires Valid()
      modifies this
      ensures Valid() && images == old(images)
      ensures nextCardId == old(nextCardId) && nextImageId == old(nextImageId)
      ensures cards == Drop(old(cards), CardSection, Upper(sectionKey))
      ensures sections == Drop(old(sections), SectionKey, Upper(sectionKey))
      ensures Select(old(sections), SectionKey, Upper(sectionKey)) == [] ==>
        resp == Failed(404, SectionNotFoundAsWritten(Upper(sectionKey)))
      ensures Select(old(sections), SectionKey, Upper(sectionKey)) != [] ==>
        resp == Removed(Upper(sectionKey), |Select(old(cards), CardSection, Upper(sectionKey))|)
    {
      var key := Upper(sectionKey);
      var cardsAffected := |Select(cards, CardSection, key)|;
      DropAscending(cards, CardRowId, CardSection, key);
      cards := Drop(cards, CardSection, key);
      var sectionsAffected := |Select(sections, SectionKey, key)|;
      DropUnique(sections, SectionKey, key);
      sections := Drop(sections, SectionKey, key);
      if sectionsAffected == 0 {
        resp := Failed(404, SectionNotFoundAsWritten(key));
      } else {
        resp := Removed(key, cardsAffected);
      }
    }

    /** `reorder_ctsv_sections`: a body that is not a list, or an empty
        one, is refused; otherwise entry i sets the order of the section
        with its upper-cased key to (i+1)*10. */
    method ReorderSections(payload: Payload<string>) returns (resp: Response)
      requires Valid()
      modifies this
      ensures Valid() && cards == old(cards) && images == old(images)
      ensures nextCardId == old(nextCardId) && nextImageId == old(nextImageId)
      ensures (ListOrEmpty(payload).None? || ListOrEmpty(payload) == Some([])) ==>
        resp == Failed(400, "Invalid or empty reorder list") && sections == old(sections)
      ensures ListOrEmpty(payload).Some? && ListOrEmpty(payload).value != [] ==>
        resp == Done && sections == Reorder(old(sections), SectionKey, UpperEach(ListOrEmpty(payload).value), WithSectionOrder)
    {
      var data := ListOrEmpty(payload);
      if data.None? || data.value == [] {
        return Failed(400, "Invalid or empty reorder list");
      }
      var ks := UpperEach(data.value);
      var rows := sections;
      assert ks[..0] == [];
      var i := 0;
      while i < |ks|
        invariant 0 <= i <= |ks|
        invariant sections == Reorder(rows, SectionKey, ks[..i], WithSectionOrder)
        invariant cards == old(cards) && images == old(images)
        invariant nextCardId == old(nextCardId) && nextImageId == old(nextImageId)
      {
        ReorderStep(rows, SectionKey, ks, WithSectionOrder, i);
        sections := SetOrderWhere(sections, SectionKey, ks[i], WithSectionOrder, Slot(i));
        i := i + 1;
      }
      assert ks[..i] == ks;
      resp := Done;
    }

    /** `reorder_ctsv_cards`: only a body that is a non-list truthy value
        is refused; an empty or falsy body reorders nothing. Entry i sets
        order (i+1)*10 on the card with that id, and only if the card is
        in the upper-cased section. */
    method ReorderCards(sectionKey: string, payload: Payload<int>) returns (resp: Response)
      requires Valid()
      modifies this
      ensures Valid() && sections == old(sections) && images == old(images)
      ensures nextCardId == old(nextCardId) && nextImageId == old(nextImageId)
      ensures ListOrEmpty(payload).None? ==>
        resp == Failed(400, "Invalid reorder list format") && cards == old(cards)
      ensures ListOrEmpty(payload).Some? ==>
        resp == Done && cards == Reorder(old(cards), CardSlot, SlotsFor(ListOrEmpty(payload).value, Upper(sectionKey)), WithCardOrder)
    {
      var key := Upper(sectionKey);
      var data := ListOrEmpty(payload);
      if data.None? {
        return Failed(400, "Invalid reorder list format");
      }
      var ks := SlotsFor(data.value, key);
      var rows := cards;
      assert ks[..0] == [];
      var i := 0;
      while i < |ks|
        invariant 0 <= i <= |ks|
        invariant cards == Reorder(rows, CardSlot, ks[..i], WithCardOrder)
        invariant sections == old(sections) && images == old(images)
        invariant nextCardId == old(nextCardId) && nextImageId == old(nextImageId)
      {
        ReorderStep(rows, CardSlot, ks, WithCardOrder, i);
        cards := SetOrderWhere(cards, CardSlot, ks[i], WithCardOrder, Slot(i));
        i := i + 1;
      }
      assert ks[..i] == ks;
      ReorderKeepsCardIds(rows, ks);
      resp := Done;
    }
  }

  /** The grouping loop of `list_ctsv_cards`:
      `imgs_by_card.setdefault(card_id, []).append(filename)` for each image
      row in turn. Every card id the rows name maps to the filenames of its
      rows, in row order; no other id is in the dictionary. */
  method GroupFilenames(rows: seq<Image>) returns (byCard: map<int, seq<string>>)
    ensures forall c :: c in byCard ==> byCard[c] == Filenames(Select(rows, ImageCard, c))
    ensures forall c :: c !in byCard ==> Select(rows, ImageCard, c) == []
  {
    byCard := map[];
    var i := 0;
    while i < |rows|
      invariant 0 <= i <= |rows|
      invariant forall c :: c in byCard ==> byCard[c] == Filenames(Select(rows[..i], ImageCard, c))
      invariant forall c :: c !in byCard ==> Select(rows[..i], ImageCard, c) == []
    {
      var r := rows[i];
      var prev := if r.cardId in byCard then byCard[r.cardId] else [];
      assert prev == Filenames(Select(rows[..i], ImageCard, r.cardId));
      byCard := byCard[r.cardId := prev + [r.filename]];
      forall c | c in byCard ensures byCard[c] == Filenames(Select(rows[..i + 1], ImageCard, c)) {
        SelectSnoc(rows, i, ImageCard, c);
        if c == r.cardId {
          FilenamesSnoc(Select(rows[..i], ImageCard, c), r);
        }
      }
      forall c | c !in byCard ensures Select(rows[..i + 1], ImageCard, c) == [] {
        SelectSnoc(rows, i, ImageCard, c);
      }
      i := i + 1;
    }
    assert rows[..i] == rows;
  }

  lemma FilenamesSnoc(imgs: seq<Image>, m: Image)
    ensures Filenames(imgs + [m]) == Filenames(imgs) + [m.filename]
  {
  }

  /** Grouping the images sorted by card id and display order gives each
      card the list `ImageUrls` describes. */
  lemma GroupedUrls(images: seq<Image>, cardId: int)
    ensures Filenames(Select(SortBy(images, ImageSortKey), ImageCard, cardId)) == ImageUrls(images, cardId)
  {
    SelectSortBy(images, ImageSortKey, ImageCard, cardId);
  }

  /** The last loop of `list_ctsv_cards`: each card in turn gets
      `imgs_by_card.get(c["id"], [])`. */
  method AttachUrls(sorted: seq<Card>, byCard: map<int, seq<string>>, ghost urlsOf: int -> seq<string>) returns (views: seq<CardView>)
    requires forall c :: c in byCard ==> byCard[c] == urlsOf(c)
    requires forall c :: c !in byCard ==> urlsOf(c) == []
    ensures |views| == |sorted|
    ensures forall k :: 0 <= k < |sorted| ==> views[k] == CardView(sorted[k], urlsOf(sorted[k].id))
  {
    views := [];
    var j := 0;
    while j < |sorted|
      invariant 0 <= j <= |sorted|
      invariant |views| == j
      invariant forall k :: 0 <= k < j ==> views[k] == CardView(sorted[k], urlsOf(sorted[k].id))
    {
      var c := sorted[j];
      var urls := if c.id in byCard then byCard[c.id] else [];
      views := views + [CardView(c, urls)];
      j := j + 1;
    }
  }


  lemma GroupedAll(images: seq<Image>, byCard: map<int, seq<string>>)
    requires forall c :: c in byCard ==> byCard[c] == Filenames(Select(SortBy(images, ImageSortKey), ImageCard, c))
    requires forall c :: c !in byCard ==> Select(SortBy(images, ImageSortKey), ImageCard, c) == []
    ensures forall c :: c in byCard ==> byCard[c] == ImageUrls(images, c)
    ensures forall c :: c !in byCard ==> ImageUrls(images, c) == []
  {
    forall c ensures (c in byCard ==> byCard[c] == ImageUrls(images, c)) && (c !in byCard ==> ImageUrls(images, c) == []) {
      GroupedUrls(images, c);
    }
  }

  function CardsOf(views: seq<CardView>): (r: seq<Card>)
    ensures |r| == |views| && forall i :: 0 <= i < |views| ==> r[i] == views[i].card
  {
    seq(|views|, i requires 0 <= i < |views| => views[i].card)
  }

  lemma ReorderKeepsCardIds(rows: seq<Card>, ks: seq<(int, string)>)
    requires Ascending(rows, CardRowId)
    ensures Ascending(Reorder(rows, CardSlot, ks, WithCardOrder), CardRowId)
  {
  }
}
