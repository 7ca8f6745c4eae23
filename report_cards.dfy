/**
 * ReportCardsService (backend/src/report-cards/report-cards.service.ts): report
 * cards and their lines, created as DRAFT, extended with lines and published.
 */
module ReportCards {
  import opened Wrappers
  import opened School
  import opened Seqs

  /** A point in time, as read from the clock when a card is published. */
  type Instant = int

  datatype ReportCardStatus = Draft | Published

  /** A report card: generated uuid key, owning student's primary key, term, lifecycle. */
  datatype ReportCard = ReportCard(
    id: Uuid,
    studentId: nat,
    year: int,
    semester: int,
    status: ReportCardStatus,
    publishedAt: Option<Instant>)

  /** One subject line of a card. */
  datatype ReportCardLine = ReportCardLine(
    id: nat,
    uuid: Uuid,
    reportCardId: Uuid,
    subject: string,
    finalGrade: real,
    comments: Option<string>)

  /** The body of `create`: the student's uuid and the term. */
  datatype CardRequest = CardRequest(studentUuid: Uuid, year: int, semester: int)

  /** One element of the body of `addLines`. */
  datatype LineRequest = LineRequest(subject: string, finalGrade: real, comments: Option<string>)

  /** A card as returned with its `lines` relation loaded. */
  datatype CardView = CardView(card: ReportCard, lines: seq<ReportCardLine>)

  /** The card and line tables, with the generators of card uuids and line keys. */
  datatype Book = Book(
    cards: seq<ReportCard>,
    lines: seq<ReportCardLine>,
    nextCardId: Uuid,
    nextLineId: nat,
    nextLineUuid: Uuid)

  function CardIds(cards: seq<ReportCard>): set<Uuid> {
    set c | c in cards :: c.id
  }

  /**
   * Keys are distinct and below their generators, every card belongs to a
   * known student, every line to a stored card, and a card has a publication
   * time exactly when it is published.
   */
  predicate BookValid(b: Book, students: seq<Student>) {
    && (forall i, j :: 0 <= i < j < |b.cards| ==> b.cards[i].id != b.cards[j].id)
    && (forall i :: 0 <= i < |b.cards| ==>
          && b.cards[i].id < b.nextCardId
          && b.cards[i].studentId in StudentIds(students)
          && (b.cards[i].status == Published <==> b.cards[i].publishedAt.Some?))
    && (forall i, j :: 0 <= i < j < |b.lines| ==>
          b.lines[i].id != b.lines[j].id && b.lines[i].uuid != b.lines[j].uuid)
    && (forall i :: 0 <= i < |b.lines| ==>
          && b.lines[i].id < b.nextLineId
          && b.lines[i].uuid < b.nextLineUuid
          && b.lines[i].reportCardId in CardIds(b.cards))
  }

  /** The position of the card with key `id`, if any. */
  function FindCard(cards: seq<ReportCard>, id: Uuid): (r: Option<nat>)
    ensures r.Some? ==> r.value < |cards| && cards[r.value].id == id
    ensures r.Some? ==> forall j :: 0 <= j < r.value ==> cards[j].id != id
    ensures r.None? ==> forall j :: 0 <= j < |cards| ==> cards[j].id != id
  {
    if cards == [] then None
    else if cards[0].id == id then Some(0)
    else match FindCard(cards[1..], id)
      case None => None
      case Some(k) => Some(k + 1)
  }

  /** Finding a card depends only on the keys, so rewriting a card's other fields does not move it. */
  lemma {:induction false} FindCardSameKeys(cards: seq<ReportCard>, k: nat, c: ReportCard, id: Uuid)
    requires k < |cards| && c.id == cards[k].id
    ensures FindCard(cards[k := c], id) == FindCard(cards, id)
  {
    if k > 0 {
      assert cards[k := c][1..] == cards[1..][k - 1 := c];
      FindCardSameKeys(cards[1..], k - 1, c, id);
    }
  }

  /** `where: { reportCardId }` on lines. */
  function OfCard(cardId: Uuid): ReportCardLine -> bool {
    (l: ReportCardLine) => l.reportCardId == cardId
  }

  /** The `lines` relation of a card: its lines, in table order. */
  function LinesOf(lines: seq<ReportCardLine>, cardId: Uuid): (r: seq<ReportCardLine>)
    ensures |r| <= |lines|
    ensures forall l :: l in r <==> l in lines && l.reportCardId == cardId
  {
    FilterMembers(lines, OfCard(cardId));
    Filter(lines, OfCard(cardId))
  }

  // ---------------------------------------------------------------------------
  // create

  /**
   * `create`: NotFound for an unknown student uuid; otherwise one DRAFT card,
   * unpublished, owned by that student's primary key, for the requested term.
   */
  function CreateCard(b: Book, students: seq<Student>, req: CardRequest): (r: (Result<ReportCard>, Book))
    ensures r.0.Err? <==> FindStudent(students, req.studentUuid).None?
    ensures r.0.Err? ==> r.0.error == NotFound && r.1 == b
    ensures r.0.Ok? ==>
      && r.1 == b.(cards := b.cards + [r.0.value], nextCardId := b.nextCardId + 1)
      && r.0.value.id == b.nextCardId
      && r.0.value.studentId == FindStudent(students, req.studentUuid).value.id
      && r.0.value.year == req.year && r.0.value.semester == req.semester
      && r.0.value.status == Draft && r.0.value.publishedAt.None?
  {
    match FindStudent(students, req.studentUuid)
    case None => (Err(NotFound), b)
    case Some(st) =>
      var card := ReportCard(b.nextCardId, st.id, req.year, req.semester, Draft, None);
      (Ok(card), b.(cards := b.cards + [card], nextCardId := b.nextCardId + 1))
  }

  lemma CreateCardValid(b: Book, students: seq<Student>, req: CardRequest)
    requires BookValid(b, students)
    ensures BookValid(CreateCard(b, students, req).1, students)
  {
    var (r, b') := CreateCard(b, students, req);
    if r.Ok? {
      assert CardIds(b.cards) <= CardIds(b'.cards) by {
        forall x | x in CardIds(b.cards) ensures x in CardIds(b'.cards) {
          var c :| c in b.cards && c.id == x;
          assert c in b'.cards;
        }
      }
    }
  }

  /** A card just created is found as a DRAFT card without lines. */
  lemma CreateThenFindOne(b: Book, students: seq<Student>, req: CardRequest)
    requires BookValid(b, students)
    requires FindStudent(students, req.studentUuid).Some?
    ensures var (r, b') := CreateCard(b, students, req);
      && FindOne(b', r.value.id) == Ok(CardView(r.value, []))
      && r.value.status == Draft
  {
    var (r, b') := CreateCard(b, students, req);
    var n := |b.cards|;
    assert b'.cards[n].id == r.value.id;
    assert forall j :: 0 <= j < n ==> b'.cards[j].id != r.value.id by {
      forall j | 0 <= j < n ensures b'.cards[j].id != r.value.id {
        assert b'.cards[j] == b.cards[j];
      }
    }
    assert forall i :: 0 <= i < |b.lines| ==> !OfCard(r.value.id)(b.lines[i]) by {
      forall i | 0 <= i < |b.lines| ensures !OfCard(r.value.id)(b.lines[i]) {
        var c :| c in b.cards && c.id == b.lines[i].reportCardId;
      }
    }
    FilterSelectsNone(b.lines, OfCard(r.value.id));
  }

  // ---------------------------------------------------------------------------
  // addLines

  /** The lines `addLines` builds from its body, keyed from the generators, all for card `cardId`. */
  function NewLines(nextId: nat, nextUuid: Uuid, cardId: Uuid, reqs: seq<LineRequest>): (r: seq<ReportCardLine>)
    ensures |r| == |reqs|
    ensures forall i :: 0 <= i < |reqs| ==>
      r[i] == ReportCardLine(nextId + i, nextUuid + i, cardId, reqs[i].subject, reqs[i].finalGrade, reqs[i].comments)
  {
    seq(|reqs|, i requires 0 <= i < |reqs| =>
      ReportCardLine(nextId + i, nextUuid + i, cardId, reqs[i].subject, reqs[i].finalGrade, reqs[i].comments))
  }

  /**
   * `addLines`: NotFound for an unknown card and nothing stored; otherwise every
   * requested line is stored for that card and the card is returned with all
   * of its lines.
   */
  function AppendLines(b: Book, cardId: Uuid, reqs: seq<LineRequest>): (r: (Result<CardView>, Book))
    ensures r.0.Err? <==> FindCard(b.cards, cardId).None?
    ensures r.0.Err? ==> r.0.error == NotFound && r.1 == b
    ensures r.0.Ok? ==>
      && r.1.cards == b.cards && r.1.nextCardId == b.nextCardId
      && r.1.lines == b.lines + NewLines(b.nextLineId, b.nextLineUuid, cardId, reqs)
      && r.1.nextLineId == b.nextLineId + |reqs| && r.1.nextLineUuid == b.nextLineUuid + |reqs|
      && r.0.value.card == b.cards[FindCard(b.cards, cardId).value]
      && r.0.value.lines == LinesOf(r.1.lines, cardId)
  {
    match FindCard(b.cards, cardId)
    case None => (Err(NotFound), b)
    case Some(k) =>
      var added := NewLines(b.nextLineId, b.nextLineUuid, cardId, reqs);
      var b' := b.(lines := b.lines + added, nextLineId := b.nextLineId + |reqs|,
                   nextLineUuid := b.nextLineUuid + |reqs|);
      (Ok(CardView(b.cards[k], LinesOf(b'.lines, cardId))), b')
  }

  /**
   * The returned card lists its previous lines, in order, followed by one new
   * line per request carrying that request's subject, grade and comments.
   */
  lemma AppendLinesKeepsOld(b: Book, cardId: Uuid, reqs: seq<LineRequest>)
    requires FindCard(b.cards, cardId).Some?
    ensures var (r, b') := AppendLines(b, cardId, reqs);
      && r.value.lines == LinesOf(b.lines, cardId) + NewLines(b.nextLineId, b.nextLineUuid, cardId, reqs)
      && |r.value.lines| == |LinesOf(b.lines, cardId)| + |reqs|
  {
    var added := NewLines(b.nextLineId, b.nextLineUuid, cardId, reqs);
    FilterAppend(b.lines, added, OfCard(cardId));
    FilterKeepsAll(added, OfCard(cardId));
  }

  /** Adding lines to one card leaves the lines of every other card as they were. */
  lemma AppendLinesLeavesOthers(b: Book, cardId: Uuid, reqs: seq<LineRequest>, other: Uuid)
    requires other != cardId
    ensures LinesOf(AppendLines(b, cardId, reqs).1.lines, other) == LinesOf(b.lines, other)
  {
    var added := NewLines(b.nextLineId, b.nextLineUuid, cardId, reqs);
    FilterAppend(b.lines, added, OfCard(other));
    FilterSelectsNone(added, OfCard(other));
  }

  lemma AppendLinesValid(b: Book, students: seq<Student>, cardId: Uuid, reqs: seq<LineRequest>)
    requires BookValid(b, students)
    ensures BookValid(AppendLines(b, cardId, reqs).1, students)
  {
    var (r, b') := AppendLines(b, cardId, reqs);
    if r.Ok? {
      var k := FindCard(b.cards, cardId).value;
      assert cardId in CardIds(b.cards) by {
        assert b.cards[k] in b.cards;
      }
    }
  }

  // ---------------------------------------------------------------------------
  // findOne, publish

  /** `findOne`: NotFound for an unknown card, otherwise the card with its lines. */
  function FindOne(b: Book, id: Uuid): (r: Result<CardView>)
    ensures r.Err? <==> FindCard(b.cards, id).None?
    ensures r.Err? ==> r.error == NotFound
    ensures r.Ok? ==> r.value.card in b.cards && r.value.card.id == id
  {
    match FindCard(b.cards, id)
    case None => Err(NotFound)
    case Some(k) => Ok(CardView(b.cards[k], LinesOf(b.lines, id)))
  }

  /** The lines `findOne` returns are exactly the stored lines of that card. */
  lemma FindOneLines(b: Book, id: Uuid)
    requires FindOne(b, id).Ok?
    ensures forall l :: l in FindOne(b, id).value.lines <==> l in b.lines && l.reportCardId == id
  {
    FilterMembers(b.lines, OfCard(id));
  }

  /**
   * `publish`: NotFound for an unknown card; otherwise the card becomes
   * PUBLISHED with `publishedAt` set to `now`, whatever its status was, and
   * nothing else changes.
   */
  function PublishCard(b: Book, id: Uuid, now: Instant): (r: (Result<CardView>, Book))
    ensures r.0.Err? <==> FindCard(b.cards, id).None?
    ensures r.0.Err? ==> r.0.error == NotFound && r.1 == b
    ensures r.0.Ok? ==>
      var k := FindCard(b.cards, id).value;
      && r.0.value.card == b.cards[k].(status := Published, publishedAt := Some(now))
      && r.0.value.lines == LinesOf(b.lines, id)
      && r.1 == b.(cards := b.cards[k := r.0.value.card])
  {
    match FindCard(b.cards, id)
    case None => (Err(NotFound), b)
    case Some(k) =>
      var card := b.cards[k].(status := Published, publishedAt := Some(now));
      (Ok(CardView(card, LinesOf(b.lines, id))), b.(cards := b.cards[k := card]))
  }

  /**
   * There is no DRAFT guard: publishing again keeps the card PUBLISHED and only
   * refreshes `publishedAt`, so two publications amount to the later one.
   */
  lemma PublishTwice(b: Book, id: Uuid, first: Instant, second: Instant)
    ensures var (r1, b1) := PublishCard(b, id, first);
      var (r2, b2) := PublishCard(b1, id, second);
      && b2 == PublishCard(b, id, second).1
      && r2 == PublishCard(b, id, second).0
      && (r2.Ok? ==> r2.value.card.status == Published && r2.value.card.publishedAt == Some(second))
  {
    match FindCard(b.cards, id)
    case None =>
    case Some(k) =>
      var b1 := PublishCard(b, id, first).1;
      FindCardSameKeys(b.cards, k, b1.cards[k], id);
  }

  lemma PublishCardValid(b: Book, students: seq<Student>, id: Uuid, now: Instant)
    requires BookValid(b, students)
    ensures BookValid(PublishCard(b, id, now).1, students)
  {
    var (r, b') := PublishCard(b, id, now);
    if r.Ok? {
      var k := FindCard(b.cards, id).value;
      assert CardIds(b'.cards) == CardIds(b.cards) by {
        forall x | x in CardIds(b.cards) ensures x in CardIds(b'.cards) {
          var i :| 0 <= i < |b.cards| && b.cards[i].id == x;
          assert b'.cards[i].id == x;
        }
        forall x | x in CardIds(b'.cards) ensures x in CardIds(b.cards) {
          var i :| 0 <= i < |b'.cards| && b'.cards[i].id == x;
          assert b.cards[i].id == x;
        }
      }
    }
  }

  // ---------------------------------------------------------------------------
  // findOne, addLines and publish as written

  /** The properties the ReportCard entity declares; it has no `uuid`. */
  const CardProperties: set<string> :=
    {"id", "studentId", "year", "semester", "status", "createdAt", "updatedAt", "publishedAt", "student", "lines"}

  /**
   * `reportCardRepository.findOne({ where: { [property]: value } })` behind the
   * service's `.catch`: the ORM rejects a property the entity does not declare,
   * whatever the value, and the catch reports that as NotFound; a lookup by the
   * key `id` is the key lookup.
   */
  function FindOneWhere(b: Book, property: string, value: Uuid): (r: Result<CardView>)
    requires property == "id" || property !in CardProperties
    ensures property !in CardProperties ==> r == Err(NotFound)
    ensures property == "id" ==> r == FindOne(b, value)
  {
    if property in CardProperties then FindOne(b, value) else Err(NotFound)
  }

  /** `findOne` as written: its `where` names `uuid`. */
  function FindOneAsWritten(b: Book, id: Uuid): (r: Result<CardView>)
    ensures r == Err(NotFound)
  {
    FindOneWhere(b, "uuid", id)
  }

  /** `publish` as written: it starts from `findOne`, so it fails before changing anything. */
  function PublishAsWritten(b: Book, id: Uuid, now: Instant): (r: (Result<CardView>, Book))
    ensures r == (Err(NotFound), b)
  {
    match FindOneAsWritten(b, id)
    case Err(e) => (Err(e), b)
    case Ok(_) => PublishCard(b, id, now)
  }

  /**
   * The body of `addLines` with its first lookup made by `property`: look the
   * card up, store one line per request under the card's key, then reload the
   * card by its key. Made by the key, this is exactly `AppendLines`.
   */
  function AddLinesWhere(b: Book, property: string, cardId: Uuid, reqs: seq<LineRequest>): (r: (Result<CardView>, Book))
    requires property == "id" || property !in CardProperties
    ensures property !in CardProperties ==> r == (Err(NotFound), b)
    ensures property == "id" ==> r == AppendLines(b, cardId, reqs)
  {
    match FindOneWhere(b, property, cardId)
    case Err(e) => (Err(e), b)
    case Ok(v) =>
      var added := NewLines(b.nextLineId, b.nextLineUuid, v.card.id, reqs);
      var b' := b.(lines := b.lines + added, nextLineId := b.nextLineId + |reqs|,
                   nextLineUuid := b.nextLineUuid + |reqs|);
      (FindOne(b', v.card.id), b')
  }

  /** `addLines` as written: its lookup names `uuid`. */
  function AppendLinesAsWritten(b: Book, cardId: Uuid, reqs: seq<LineRequest>): (r: (Result<CardView>, Book))
    ensures r == (Err(NotFound), b)
  {
    AddLinesWhere(b, "uuid", cardId, reqs)
  }

  /**
   * As written, a card that `create` has just stored is not found by `findOne`,
   * and `publish` and `addLines` on it fail with NotFound and change nothing,
   * although the card is there to be found by its key.
   */
  lemma CreatedCardNotFoundAsWritten(b: Book, students: seq<Student>, req: CardRequest, now: Instant, reqs: seq<LineRequest>)
    requires BookValid(b, students)
    requires FindStudent(students, req.studentUuid).Some?
    ensures var (r, b') := CreateCard(b, students, req);
      && FindOne(b', r.value.id).Ok?
      && FindOneAsWritten(b', r.value.id) == Err(NotFound)
      && PublishAsWritten(b', r.value.id, now) == (Err(NotFound), b')
      && AppendLinesAsWritten(b', r.value.id, reqs) == (Err(NotFound), b')
  {
    CreateThenFindOne(b, students, req);
  }

  // ---------------------------------------------------------------------------
  // findAll

  /** `order: { year: 'DESC', semester: 'DESC' }`: `a` may come before `c`. */
  predicate NewerOrSame(a: ReportCard, c: ReportCard) {
    a.year > c.year || (a.year == c.year && a.semester >= c.semester)
  }

  predicate NewestFirst(s: seq<ReportCard>) {
    forall i, j :: 0 <= i < j < |s| ==> NewerOrSame(s[i], s[j])
  }

  /** Places `c` into an ordered sequence, keeping the order. */
  function InsertByTerm(c: ReportCard, s: seq<ReportCard>): (r: seq<ReportCard>)
    requires NewestFirst(s)
    ensures NewestFirst(r)
    ensures multiset(r) == multiset(s) + multiset{c}
  {
    if s == [] then [c]
    else if NewerOrSame(c, s[0]) then [c] + s
    else
      var rest := InsertByTerm(c, s[1..]);
      assert s == [s[0]] + s[1..];
      assert forall j :: 0 <= j < |rest| ==> NewerOrSame(s[0], rest[j]) by {
        forall j | 0 <= j < |rest| ensures NewerOrSame(s[0], rest[j]) {
          assert rest[j] in multiset(rest);
          if rest[j] != c {
            var m :| 0 <= m < |s[1..]| && s[1..][m] == rest[j];
            assert s[m + 1] == rest[j];
          }
        }
      }
      assert multiset([s[0]] + rest) == multiset([s[0]]) + multiset(rest);
      [s[0]] + rest
  }

  /** The cards in the order the query returns them; cards of the same term keep no promised order. */
  function SortNewestFirst(s: seq<ReportCard>): (r: seq<ReportCard>)
    ensures NewestFirst(r)
    ensures multiset(r) == multiset(s)
  {
    if s == [] then []
    else
      assert s == [s[0]] + s[1..];
      InsertByTerm(s[0], SortNewestFirst(s[1..]))
  }

  /** The `where` of `findAll`: the given student's cards, or every card when none is given. */
  function OwnedBy(studentId: Option<nat>): ReportCard -> bool {
    (c: ReportCard) => studentId.None? || c.studentId == studentId.value
  }

  function CardsOf(views: seq<CardView>): (r: seq<ReportCard>)
    ensures |r| == |views| && forall i :: 0 <= i < |views| ==> r[i] == views[i].card
  {
    seq(|views|, i requires 0 <= i < |views| => views[i].card)
  }

  /**
   * `findAll`: the selected cards, newest term first, each with its lines;
   * they are the selected cards of the table, each as often as it is stored.
   */
  function FindAll(b: Book, studentId: Option<nat>): (r: seq<CardView>)
    ensures NewestFirst(CardsOf(r))
    ensures multiset(CardsOf(r)) == multiset(Filter(b.cards, OwnedBy(studentId)))
    ensures forall i :: 0 <= i < |r| ==> r[i].lines == LinesOf(b.lines, r[i].card.id)
  {
    var sorted := SortNewestFirst(Filter(b.cards, OwnedBy(studentId)));
    var r := seq(|sorted|, i requires 0 <= i < |sorted| => CardView(sorted[i], LinesOf(b.lines, sorted[i].id)));
    assert CardsOf(r) == sorted;
    r
  }

  /** A card is listed exactly when it is stored and matches the student filter. */
  lemma FindAllSelects(b: Book, studentId: Option<nat>, c: ReportCard)
    ensures c in CardsOf(FindAll(b, studentId)) <==>
      c in b.cards && (studentId.None? || c.studentId == studentId.value)
  {
    var r := FindAll(b, studentId);
    FilterMembers(b.cards, OwnedBy(studentId));
    assert c in CardsOf(r) <==> c in multiset(CardsOf(r));
    assert c in Filter(b.cards, OwnedBy(studentId)) <==> c in multiset(Filter(b.cards, OwnedBy(studentId)));
  }

  // ---------------------------------------------------------------------------
  // the service

  class ReportCardsService {
    /** The student repository; this service only reads it. */
    var students: seq<Student>
    var cards: seq<ReportCard>
    var lines: seq<ReportCardLine>
    var nextCardId: Uuid
    var nextLineId: nat
    var nextLineUuid: Uuid

    function Snapshot(): Book
      reads this
    {
      Book(cards, lines, nextCardId, nextLineId, nextLineUuid)
    }

    ghost predicate Valid()
      reads this
    {
      BookValid(Snapshot(), students)
    }

    constructor (students: seq<Student>, book: Book)
      requires BookValid(book, students)
      ensures Valid()
      ensures this.students == students && Snapshot() == book
    {
      this.students := students;
      cards := book.cards;
      lines := book.lines;
      nextCardId := book.nextCardId;
      nextLineId := book.nextLineId;
      nextLineUuid := book.nextLineUuid;
    }

    /** `create`: look the student up by uuid, then save a DRAFT card for its key. */
    method Create(req: CardRequest) returns (r: Result<ReportCard>)
      requires Valid()
      modifies this
      ensures Valid() && students == old(students)
      ensures (r, Snapshot()) == CreateCard(old(Snapshot()), students, req)
    {
      CreateCardValid(Snapshot(), students, req);
      var student := FindStudent(students, req.studentUuid);
      if student.None? {
        return Err(NotFound);
      }
      var card := ReportCard(nextCardId, student.value.id, req.year, req.semester, Draft, None);
      cards := cards + [card];
      nextCardId := nextCardId + 1;
      r := Ok(card);
    }

    /** `addLines`: look the card up, save one line per request for it, reload the card with its lines. */
    method AddLines(cardId: Uuid, reqs: seq<LineRequest>) returns (r: Result<CardView>)
      requires Valid()
      modifies this
      ensures Valid() && students == old(students)
      ensures (r, Snapshot()) == AppendLines(old(Snapshot()), cardId, reqs)
    {
      AppendLinesValid(Snapshot(), students, cardId, reqs);
      var found := FindCard(cards, cardId);
      if found.None? {
        return Err(NotFound);
      }
      lines := lines + NewLines(nextLineId, nextLineUuid, cardId, reqs);
      nextLineId, nextLineUuid := nextLineId + |reqs|, nextLineUuid + |reqs|;
      r := Ok(CardView(cards[found.value], LinesOf(lines, cardId)));
    }

    /** `publish`: find the card with its lines, set its status and publication time in place, save it. */
    method Publish(id: Uuid, now: Instant) returns (r: Result<CardView>)
      requires Valid()
      modifies this
      ensures Valid() && students == old(students)
      ensures (r, Snapshot()) == PublishCard(old(Snapshot()), id, now)
    {
      PublishCardValid(Snapshot(), students, id, now);
      var found := FindCard(cards, id);
      if found.None? {
        return Err(NotFound);
      }
      var card := cards[found.value];
      card := card.(status := Published);
      card := card.(publishedAt := Some(now));
      cards := cards[found.value := card];
      r := Ok(CardView(card, LinesOf(lines, id)));
    }
  }
}
