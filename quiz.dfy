/** The quiz routes: the question list with its fixed answer scale, submitting a quiz, and
    reading back one result. The caller's id and role come from the authentication layer and
    are parameters here. */
module Quiz {
  import opened Wrappers
  import opened Store
  import opened Scoring
  import StableSort

  // ---------------------------------------------------------------------------------------
  // GET /questions

  datatype ScaleEntry = ScaleEntry(value: int, meaning: string)

  /** The answer scale sent with the questions, top value first. */
  const Scale: seq<ScaleEntry> := [
    ScaleEntry(5, "Very true of me"),
    ScaleEntry(4, "Mostly true of me"),
    ScaleEntry(3, "Sometimes true of me"),
    ScaleEntry(2, "Rarely true of me"),
    ScaleEntry(1, "Not true of me")
  ]

  const Tip := "Avoid choosing \"3\" unless it truly happens only once in a while. Try to lean toward either side that best fits you."

  /** An answer value some entry of the scale offers. */
  predicate OnScale(v: int) {
    exists k :: 0 <= k < |Scale| && Scale[k].value == v
  }

  /** The scale offers exactly the values 1 to 5, where 5 is the points each answer adds to the
      maximum score. */
  lemma ScaleIsOneToFive(v: int)
    ensures OnScale(v) <==> 1 <= v <= PointsPerAnswer
  {
    if 1 <= v <= PointsPerAnswer {
      assert Scale[PointsPerAnswer - v].value == v;
    }
  }

  datatype QuestionsPage = QuestionsPage(questions: seq<Question>, scale: seq<ScaleEntry>, tip: string)

  function ByOrder(q: Question): int { -q.questionOrder }

  /** `SELECT * FROM questions ORDER BY question_order` together with the instructions. */
  function ListQuestions(questions: seq<Question>): (page: QuestionsPage)
    ensures multiset(page.questions) == multiset(questions)
    ensures forall a, b :: 0 <= a < b < |page.questions| ==>
              page.questions[a].questionOrder <= page.questions[b].questionOrder
    ensures page.scale == Scale && page.tip == Tip
    ensures forall k :: 0 <= k < |page.scale| ==> 1 <= page.scale[k].value <= PointsPerAnswer
  {
    var sorted := StableSort.Sort(questions, ByOrder);
    StableSort.SortPermutes(questions, ByOrder);
    StableSort.SortOrders(questions, ByOrder);
    assert forall a, b :: 0 <= a < b < |sorted| ==> ByOrder(sorted[a]) >= ByOrder(sorted[b]);
    QuestionsPage(sorted, Scale, Tip)
  }

  // ---------------------------------------------------------------------------------------
  // POST /submit

  /** One element of the submitted `responses` array. */
  datatype Answer = Answer(questionId: int, answerValue: int)

  /** The `responses` body field: absent (or otherwise falsy), present but not an array, or
      an array of answers. */
  datatype ResponsesField = Absent | NotAnArray | Answers(items: seq<Answer>)

  /** The validation in front of every insert. */
  predicate Acceptable(field: ResponsesField): (ok: bool)
    ensures ok <==> field != Absent && field != NotAnArray && field != Answers([])
  {
    field.Answers? && |field.items| > 0
  }

  /** The join rows the submitted answers produce, in submission order. */
  function ItemRows(questions: seq<Question>, items: seq<Answer>): seq<AnswerRow> {
    if items == [] then []
    else
      var it := items[|items| - 1];
      ItemRows(questions, items[..|items| - 1]) + Matches(questions, it.questionId, it.answerValue)
  }

  /** The details table after one `stmt.run` per answer, each row taking the next SERIAL id. */
  function InsertDetails(details: seq<ResponseDetail>, responseId: int, items: seq<Answer>): seq<ResponseDetail> {
    if items == [] then details
    else
      var before := InsertDetails(details, responseId, items[..|items| - 1]);
      var it := items[|items| - 1];
      before + [ResponseDetail(NextId(DetailIds(before)), responseId, it.questionId, it.answerValue)]
  }

  datatype Submitted = Submitted(responseId: int, gifts: seq<Gift>)

  /** The new detail rows all belong to the new response, one per answer in order, and the
      existing rows stay in front of them. */
  lemma {:induction false} InsertDetailsShape(details: seq<ResponseDetail>, responseId: int, items: seq<Answer>)
    ensures |InsertDetails(details, responseId, items)| == |details| + |items|
    ensures InsertDetails(details, responseId, items)[..|details|] == details
    ensures forall j :: |details| <= j < |InsertDetails(details, responseId, items)| ==>
      && InsertDetails(details, responseId, items)[j].responseId == responseId
      && InsertDetails(details, responseId, items)[j].questionId == items[j - |details|].questionId
      && InsertDetails(details, responseId, items)[j].answerValue == items[j - |details|].answerValue
  {
    if items != [] {
      var front := items[..|items| - 1];
      InsertDetailsShape(details, responseId, front);
      var before := InsertDetails(details, responseId, front);
      var ds := InsertDetails(details, responseId, items);
      forall j | |details| <= j < |ds|
        ensures ds[j].responseId == responseId
        ensures ds[j].questionId == items[j - |details|].questionId
        ensures ds[j].answerValue == items[j - |details|].answerValue
      {
        if j < |before| {
          assert ds[j] == before[j];
          assert front[j - |details|] == items[j - |details|];
        }
      }
      assert ds[..|details|] == before[..|details|];
    }
  }

  /** The join for the new response sees exactly the submitted answers, provided no earlier
      detail row belongs to it. */
  lemma {:induction false} InsertedRows(questions: seq<Question>, details: seq<ResponseDetail>, responseId: int, items: seq<Answer>)
    requires forall k :: 0 <= k < |details| ==> details[k].responseId != responseId
    ensures AnswerRows(questions, InsertDetails(details, responseId, items), responseId) == ItemRows(questions, items)
  {
    if items == [] {
      AnswerRowsUnreferenced(questions, details, responseId);
    } else {
      var front := items[..|items| - 1];
      InsertedRows(questions, details, responseId, front);
      var before := InsertDetails(details, responseId, front);
      var ds := InsertDetails(details, responseId, items);
      assert ds[..|ds| - 1] == before;
    }
  }

  /** A fresh response id is referenced by no detail of a valid database. */
  lemma FreshResponseUnreferenced(responses: seq<QuizResponse>, details: seq<ResponseDetail>)
    requires forall d :: d in details ==> exists r :: r in responses && r.id == d.responseId
    ensures forall k :: 0 <= k < |details| ==> details[k].responseId != NextId(ResponseIds(responses))
  {
    var rid := NextId(ResponseIds(responses));
    forall k | 0 <= k < |details| ensures details[k].responseId != rid {
      assert details[k] in details;
      var r :| r in responses && r.id == details[k].responseId;
      var m :| 0 <= m < |responses| && responses[m] == r;
      assert ResponseIds(responses)[m] == r.id;
    }
  }

  /** `POST /submit`: rejects a missing, non-array or empty `responses` field before touching
      the store; otherwise records the response (without comments), one detail per answer,
      and answers 201 with the new id and the gifts its answers score. */
  method Submit(db: Database, userId: int, field: ResponsesField, now: int) returns (reply: Reply<Submitted>)
    requires db.Valid()
    modifies db
    ensures !Acceptable(field) ==> reply == Fail(400, "Responses are required") && unchanged(db)
    ensures Acceptable(field) ==>
      var rid := NextId(ResponseIds(old(db.responses)));
      && db.responses == old(db.responses) + [QuizResponse(rid, userId, None, now)]
      && db.details == InsertDetails(old(db.details), rid, field.items)
      && db.users == old(db.users) && db.questions == old(db.questions)
      && db.descriptions == old(db.descriptions)
      && reply == Ok(201, Submitted(rid, Gifts(ItemRows(db.questions, field.items), db.descriptions)))
    ensures db.Valid()
  {
    if !Acceptable(field) {
      return Fail(400, "Responses are required");
    }
    var items := field.items;
    var rid := NextId(ResponseIds(db.responses));
    FreshResponseUnreferenced(db.responses, db.details);
    ghost var oldDetails := db.details;
    db.responses := db.responses + [QuizResponse(rid, userId, None, now)];
    for k := 0 to |items|
      invariant db.details == InsertDetails(oldDetails, rid, items[..k])
      invariant db.responses == old(db.responses) + [QuizResponse(rid, userId, None, now)]
      invariant db.users == old(db.users) && db.questions == old(db.questions)
      invariant db.descriptions == old(db.descriptions)
    {
      assert items[..k + 1][..k] == items[..k];
      db.details := db.details + [ResponseDetail(NextId(DetailIds(db.details)), rid, items[k].questionId, items[k].answerValue)];
    }
    assert items[..|items|] == items;
    InsertedRows(db.questions, oldDetails, rid, items);
    ValidAfterSubmit(old(db.responses), oldDetails, rid, userId, now, items);
    var rows := AnswerRows(db.questions, db.details, rid);
    var gifts := CalculateGifts(rows, db.descriptions);
    reply := Ok(201, Submitted(rid, gifts));
  }

  /** Recording a response and its details keeps every detail attached to a response. */
  lemma ValidAfterSubmit(responses: seq<QuizResponse>, details: seq<ResponseDetail>, rid: int, userId: int, now: int, items: seq<Answer>)
    requires forall d :: d in details ==> exists r :: r in responses && r.id == d.responseId
    ensures var rs, ds := responses + [QuizResponse(rid, userId, None, now)], InsertDetails(details, rid, items);
      forall d :: d in ds ==> exists r :: r in rs && r.id == d.responseId
  {
    var rs, ds := responses + [QuizResponse(rid, userId, None, now)], InsertDetails(details, rid, items);
    InsertDetailsShape(details, rid, items);
    forall d | d in ds ensures exists r :: r in rs && r.id == d.responseId {
      var m :| 0 <= m < |ds| && ds[m] == d;
      if m < |details| {
        assert d == details[m];
        assert d in details;
        var r :| r in responses && r.id == d.responseId;
        assert r in rs;
      } else {
        assert ds[m].responseId == rid;
        assert rs[|responses|] in rs;
      }
    }
  }

  // ---------------------------------------------------------------------------------------
  // GET /result/:responseId

  /** `WHERE id = ? AND (user_id = ? OR ? = "admin")`; with no column called admin, SQLite reads
      the double-quoted "admin" as a string. */
  predicate Visible(r: QuizResponse, responseId: int, callerId: int, callerRole: string) {
    r.id == responseId && (r.userId == callerId || callerRole == AdminRole)
  }

  /** `db.get`: the first visible row, if any. */
  function FindVisible(responses: seq<QuizResponse>, responseId: int, callerId: int, callerRole: string): (r: Option<QuizResponse>)
    ensures r.Some? <==> exists k :: 0 <= k < |responses| && Visible(responses[k], responseId, callerId, callerRole)
    ensures r.Some? ==> r.value in responses && Visible(r.value, responseId, callerId, callerRole)
  {
    if responses == [] then None
    else if Visible(responses[0], responseId, callerId, callerRole) then Some(responses[0])
    else
      var rest := FindVisible(responses[1..], responseId, callerId, callerRole);
      assert forall k :: 0 < k < |responses| ==> responses[k] == responses[1..][k - 1];
      rest
  }

  datatype ResultView = ResultView(responseId: int, userId: int, createdAt: int,
                                   gifts: seq<Gift>, responses: seq<AnswerRow>)

  /** `GET /result/:responseId`: the result is shown exactly when the response exists and the
      caller owns it or is an admin; then it carries the answers by question order and the
      gifts they score. Anything else is 404. */
  method GetResult(db: Database, responseId: int, callerId: int, callerRole: string) returns (reply: Reply<ResultView>)
    ensures reply.Ok? <==> exists k :: 0 <= k < |db.responses| && db.responses[k].id == responseId
                              && (db.responses[k].userId == callerId || callerRole == AdminRole)
    ensures reply.Fail? ==> reply == Fail(404, "Quiz result not found")
    ensures reply.Ok? ==>
      && reply.status == 200
      && reply.body.responseId == responseId
      && (exists r :: r in db.responses && Visible(r, responseId, callerId, callerRole)
                      && r.userId == reply.body.userId && r.createdAt == reply.body.createdAt)
      && reply.body.responses == OrderedAnswerRows(db.questions, db.details, responseId)
      && reply.body.gifts == Gifts(reply.body.responses, db.descriptions)
  {
    var found := FindVisible(db.responses, responseId, callerId, callerRole);
    if found.None? {
      return Fail(404, "Quiz result not found");
    }
    var rows := OrderedAnswerRows(db.questions, db.details, responseId);
    var gifts := CalculateGifts(rows, db.descriptions);
    reply := Ok(200, ResultView(responseId, found.value.userId, found.value.createdAt, gifts, rows));
  }

  // ---------------------------------------------------------------------------------------
  // Submitting, then reading back

  /** Rows already in the order `ORDER BY q.question_order` puts them. */
  predicate InQuestionOrder(rows: seq<AnswerRow>) {
    forall a, b :: 0 <= a < b < |rows| ==> rows[a].questionOrder <= rows[b].questionOrder
  }

  /** No two gifts share a percentage. */
  predicate NoTies(gifts: seq<Gift>) {
    forall a, b :: 0 <= a < b < |gifts| ==> gifts[a].percentage != gifts[b].percentage
  }

  function GiftPct(g: Gift): int { g.percentage }

  /** The rows `/submit` evidently means to score: its join read with `ORDER BY
      q.question_order`, as `/result/:id` reads it. */
  function IntendedSubmitRows(questions: seq<Question>, items: seq<Answer>): seq<AnswerRow> {
    StableSort.Sort(ItemRows(questions, items), Ascending)
  }

  /** The ordered join `/result/:id` reads for the response `/submit` has just created is the
      submitted answers' join in question order. */
  lemma ResultRowsAreIntended(questions: seq<Question>, responses: seq<QuizResponse>, details: seq<ResponseDetail>,
                              items: seq<Answer>)
    requires forall d :: d in details ==> exists r :: r in responses && r.id == d.responseId
    ensures var rid := NextId(ResponseIds(responses));
      OrderedAnswerRows(questions, InsertDetails(details, rid, items), rid) == IntendedSubmitRows(questions, items)
  {
    var rid := NextId(ResponseIds(responses));
    FreshResponseUnreferenced(responses, details);
    InsertedRows(questions, details, rid, items);
  }

  /** Scored from the ordered join, the gifts `/submit` answers with are exactly those
      `/result/:id` shows for the new response, ties included. */
  lemma IntendedSubmitThenResult(questions: seq<Question>, responses: seq<QuizResponse>, details: seq<ResponseDetail>,
                                 descriptions: seq<GiftDescription>, items: seq<Answer>)
    requires forall d :: d in details ==> exists r :: r in responses && r.id == d.responseId
    ensures var rid := NextId(ResponseIds(responses));
      Gifts(IntendedSubmitRows(questions, items), descriptions)
        == Gifts(OrderedAnswerRows(questions, InsertDetails(details, rid, items), rid), descriptions)
  {
    ResultRowsAreIntended(questions, responses, details, items);
  }

  /** Rows already in question order are their own ordered join. */
  lemma InOrderIsIntended(rows: seq<AnswerRow>)
    requires InQuestionOrder(rows)
    ensures StableSort.Sort(rows, Ascending) == rows
  {
    assert StableSort.NonIncreasing(rows, Ascending) by {
      forall a, b | 0 <= a < b < |rows| ensures Ascending(rows[a]) >= Ascending(rows[b]) {
        assert rows[a].questionOrder <= rows[b].questionOrder;
      }
    }
    StableSort.SortOfSorted(rows, Ascending);
  }

  /** Without tied percentages the ranking does not depend on the order of the rows. */
  lemma UntiedGiftsAgree(rows: seq<AnswerRow>, other: seq<AnswerRow>, descriptions: seq<GiftDescription>)
    requires multiset(other) == multiset(rows)
    requires NoTies(Gifts(rows, descriptions))
    ensures Gifts(other, descriptions) == Gifts(rows, descriptions)
  {
    var submitted, shown := Gifts(rows, descriptions), Gifts(other, descriptions);
    Scoring.GiftsPermutationInvariant(other, rows, descriptions);
    GiftsRanked(rows, descriptions);
    GiftsRanked(other, descriptions);
    assert StableSort.NonIncreasing(shown, GiftPct) by {
      forall a, b | 0 <= a < b < |shown| ensures GiftPct(shown[a]) >= GiftPct(shown[b]) {
        assert shown[a].percentage >= shown[b].percentage;
      }
    }
    forall a, b | 0 <= a < b < |submitted| ensures GiftPct(submitted[a]) > GiftPct(submitted[b]) {
      assert submitted[a].percentage >= submitted[b].percentage;
    }
    StableSort.StrictOrderUnique(submitted, shown, GiftPct);
  }

  /** What `/result/:id` shows for the response `/submit` has just created, against the gifts
      `/submit` answered with: the same gifts, and in the same order when the answers came in
      question order or no two percentages tie. */
  lemma SubmitThenResult(questions: seq<Question>, responses: seq<QuizResponse>, details: seq<ResponseDetail>,
                         descriptions: seq<GiftDescription>, items: seq<Answer>)
    requires forall d :: d in details ==> exists r :: r in responses && r.id == d.responseId
    ensures var rid := NextId(ResponseIds(responses));
      var submitted := Gifts(ItemRows(questions, items), descriptions);
      var shown := Gifts(OrderedAnswerRows(questions, InsertDetails(details, rid, items), rid), descriptions);
      && multiset(shown) == multiset(submitted)
      && (InQuestionOrder(ItemRows(questions, items)) ==> shown == submitted)
      && (NoTies(submitted) ==> shown == submitted)
  {
    var rows := ItemRows(questions, items);
    ResultRowsAreIntended(questions, responses, details, items);
    StableSort.SortPermutes(rows, Ascending);
    Scoring.GiftsPermutationInvariant(IntendedSubmitRows(questions, items), rows, descriptions);
    if InQuestionOrder(rows) {
      InOrderIsIntended(rows);
    }
    if NoTies(Gifts(rows, descriptions)) {
      UntiedGiftsAgree(rows, IntendedSubmitRows(questions, items), descriptions);
    }
  }

  /** The categories and sums of two answers in two categories. */
  lemma TwoRowTally(x: AnswerRow, y: AnswerRow)
    requires x.giftCategory != y.giftCategory
    ensures Categories([x, y]) == [x.giftCategory, y.giftCategory]
    ensures Total([x, y], x.giftCategory) == x.answerValue && Count([x, y], x.giftCategory) == 1
    ensures Total([x, y], y.giftCategory) == y.answerValue && Count([x, y], y.giftCategory) == 1
  {
    assert [x, y][..1] == [x] && [x][..0] == [];
    assert Categories([x]) == [x.giftCategory];
    assert Total([x], x.giftCategory) == x.answerValue && Count([x], x.giftCategory) == 1;
    assert Total([x], y.giftCategory) == 0 && Count([x], y.giftCategory) == 0;
  }

  /** Two answers of equal value in two categories tie, and the tie keeps row order. */
  lemma TwoRowTie(x: AnswerRow, y: AnswerRow, descriptions: seq<GiftDescription>)
    requires x.giftCategory != y.giftCategory && x.answerValue == y.answerValue
    ensures |Gifts([x, y], descriptions)| == 2
    ensures Gifts([x, y], descriptions)[0].category == x.giftCategory
  {
    TwoRowTally(x, y);
    var t := Tally([x, y]);
    assert t[0].percentage == t[1].percentage;
    StableSort.SortOfSorted(t, Pct);
    assert Ranked([x, y]) == t;
  }

  /** The join of the tie below, unordered: question 2's row comes first. */
  lemma TieRows(qs: seq<Question>, items: seq<Answer>)
    requires qs == [Question(1, "A", "first", 1), Question(2, "B", "second", 2)]
    requires items == [Answer(2, 5), Answer(1, 5)]
    ensures ItemRows(qs, items) == [JoinRow(5, qs[1]), JoinRow(5, qs[0])]
  {
    var ra, rb := JoinRow(5, qs[0]), JoinRow(5, qs[1]);
    assert Matches(qs, 2, 5) == [rb] by {
      assert Matches(qs[..1], 2, 5) == [] by { assert qs[..1][..0] == []; }
    }
    assert Matches(qs, 1, 5) == [ra] by {
      assert Matches(qs[..1], 1, 5) == [ra] by { assert qs[..1][..0] == []; }
    }
    assert ItemRows(qs, items[..1]) == [rb] by {
      assert items[..1][..0] == [];
    }
  }

  /** `/submit` scores its join without `ORDER BY`, `/result/:id` with `ORDER BY
      q.question_order`; with tied percentages the two rank the gifts differently. Question 1
      (category A, order 1) and question 2 (category B, order 2), both answered 5, with
      question 2's answer sent first: `/submit` ranks B first, `/result/:id` ranks A first. */
  lemma SubmitResultTieCounterexample()
    ensures var qs := [Question(1, "A", "first", 1), Question(2, "B", "second", 2)];
      var items := [Answer(2, 5), Answer(1, 5)];
      && |Gifts(ItemRows(qs, items), [])| == 2 && Gifts(ItemRows(qs, items), [])[0].category == "B"
      && |Gifts(OrderedAnswerRows(qs, InsertDetails([], 1, items), 1), [])| == 2
      && Gifts(OrderedAnswerRows(qs, InsertDetails([], 1, items), 1), [])[0].category == "A"
  {
    var qs := [Question(1, "A", "first", 1), Question(2, "B", "second", 2)];
    var items := [Answer(2, 5), Answer(1, 5)];
    var ra, rb := JoinRow(5, qs[0]), JoinRow(5, qs[1]);
    TieRows(qs, items);
    InsertedRows(qs, [], 1, items);
    StableSort.SortTwo(rb, ra, Ascending);
    assert OrderedAnswerRows(qs, InsertDetails([], 1, items), 1) == [ra, rb];
    TwoRowTie(rb, ra, []);
    TwoRowTie(ra, rb, []);
  }
}
