/** The five tables as in-memory sequences of records, and the read queries the routes run
    on them. Each table keeps its rows in insertion order. */
module Store {
  import opened Wrappers
  import StableSort

  const UserRole := "user"
  const AdminRole := "admin"

  datatype User = User(id: int, fullname: string, email: string, role: string, createdAt: int)
  datatype Question = Question(id: int, giftCategory: string, questionText: string, questionOrder: int)
  datatype GiftDescription = GiftDescription(id: int, giftCategory: string, description: string)
  datatype QuizResponse = QuizResponse(id: int, userId: int, comments: Option<string>, createdAt: int)
  datatype ResponseDetail = ResponseDetail(id: int, responseId: int, questionId: int, answerValue: int)

  /** One row of `response_details rd JOIN questions q ON rd.question_id = q.id`, carrying every
      column any of the routes selects. */
  datatype AnswerRow = AnswerRow(answerValue: int, giftCategory: string, questionText: string,
                                 questionId: int, questionOrder: int)

  /** The id a SERIAL column hands out next, for tables whose rows are never deleted:
      one more than every id so far, and at least 1. */
  function NextId(ids: seq<int>): (r: int)
    ensures r >= 1 && forall k :: 0 <= k < |ids| ==> ids[k] < r
  {
    if ids == [] then 1
    else
      var m := NextId(ids[..|ids| - 1]);
      if ids[|ids| - 1] >= m then ids[|ids| - 1] + 1 else m
  }

  function UserIds(us: seq<User>): seq<int> { seq(|us|, k requires 0 <= k < |us| => us[k].id) }
  function QuestionIds(qs: seq<Question>): seq<int> { seq(|qs|, k requires 0 <= k < |qs| => qs[k].id) }
  function DescriptionIds(ds: seq<GiftDescription>): seq<int> { seq(|ds|, k requires 0 <= k < |ds| => ds[k].id) }
  function ResponseIds(rs: seq<QuizResponse>): seq<int> { seq(|rs|, k requires 0 <= k < |rs| => rs[k].id) }
  function DetailIds(ds: seq<ResponseDetail>): seq<int> { seq(|ds|, k requires 0 <= k < |ds| => ds[k].id) }

  class Database {
    var users: seq<User>
    var questions: seq<Question>
    var descriptions: seq<GiftDescription>
    var responses: seq<QuizResponse>
    var details: seq<ResponseDetail>

    /** Every response detail belongs to a stored quiz response (the foreign key
        response_details.response_id). */
    ghost predicate Valid()
      reads this
    {
      forall d :: d in details ==> exists r :: r in responses && r.id == d.responseId
    }

    constructor ()
      ensures users == [] && questions == [] && descriptions == [] && responses == [] && details == []
      ensures Valid()
    {
      users, questions, descriptions, responses, details := [], [], [], [], [];
    }
  }

  /** The row the join makes of an answer and the question it references. */
  function JoinRow(answerValue: int, q: Question): AnswerRow {
    AnswerRow(answerValue, q.giftCategory, q.questionText, q.id, q.questionOrder)
  }

  /** `row` is what the join makes of a detail of the response and the question it names. */
  ghost predicate Joined(questions: seq<Question>, details: seq<ResponseDetail>, responseId: int, row: AnswerRow) {
    exists d, q :: d in details && q in questions && d.responseId == responseId && q.id == d.questionId
                   && row == JoinRow(d.answerValue, q)
  }

  /** The join rows for one answer: one per question with the id it references. */
  function Matches(questions: seq<Question>, questionId: int, answerValue: int): seq<AnswerRow> {
    if questions == [] then []
    else
      var q := questions[|questions| - 1];
      Matches(questions[..|questions| - 1], questionId, answerValue)
      + (if q.id == questionId then [JoinRow(answerValue, q)] else [])
  }

  /** `SELECT ... FROM response_details rd JOIN questions q ON rd.question_id = q.id
      WHERE rd.response_id = ?`, in the order of the details table. */
  function AnswerRows(questions: seq<Question>, details: seq<ResponseDetail>, responseId: int): seq<AnswerRow> {
    if details == [] then []
    else
      var d := details[|details| - 1];
      AnswerRows(questions, details[..|details| - 1], responseId)
      + (if d.responseId == responseId then Matches(questions, d.questionId, d.answerValue) else [])
  }

  /** `row` is what the join makes of the answer and a question with the referenced id. */
  ghost predicate FromQuestion(questions: seq<Question>, questionId: int, answerValue: int, row: AnswerRow) {
    exists q :: q in questions && q.id == questionId && row == JoinRow(answerValue, q)
  }

  /** Each join row of one answer comes from a question with the referenced id. */
  lemma {:induction false} MatchesSound(questions: seq<Question>, questionId: int, answerValue: int)
    ensures forall k :: 0 <= k < |Matches(questions, questionId, answerValue)| ==>
              FromQuestion(questions, questionId, answerValue, Matches(questions, questionId, answerValue)[k])
  {
    if questions != [] {
      var n := |questions| - 1;
      MatchesSound(questions[..n], questionId, answerValue);
      var m := Matches(questions, questionId, answerValue);
      var front := Matches(questions[..n], questionId, answerValue);
      forall k | 0 <= k < |m| ensures FromQuestion(questions, questionId, answerValue, m[k]) {
        if k < |front| {
          assert FromQuestion(questions[..n], questionId, answerValue, front[k]);
          var q :| q in questions[..n] && q.id == questionId && front[k] == JoinRow(answerValue, q);
          assert q in questions && m[k] == front[k];
        } else {
          assert questions[n] in questions && m[k] == JoinRow(answerValue, questions[n]);
        }
      }
    }
  }

  /** Every join row comes from a detail of the response and the question it references. */
  lemma {:induction false} AnswerRowsSound(questions: seq<Question>, details: seq<ResponseDetail>, responseId: int)
    ensures forall k :: 0 <= k < |AnswerRows(questions, details, responseId)| ==>
              Joined(questions, details, responseId, AnswerRows(questions, details, responseId)[k])
  {
    if details != [] {
      var n := |details| - 1;
      var d := details[n];
      AnswerRowsSound(questions, details[..n], responseId);
      JoinedGrows(questions, details, responseId, AnswerRows(questions, details[..n], responseId));
      if d.responseId == responseId {
        var more := Matches(questions, d.questionId, d.answerValue);
        MatchesSound(questions, d.questionId, d.answerValue);
        assert d in details;
        forall k | 0 <= k < |more| ensures Joined(questions, details, responseId, more[k]) {
          assert FromQuestion(questions, d.questionId, d.answerValue, more[k]);
        }
      }
    }
  }

  lemma JoinedGrows(questions: seq<Question>, details: seq<ResponseDetail>, responseId: int, front: seq<AnswerRow>)
    requires details != []
    requires forall k :: 0 <= k < |front| ==> Joined(questions, details[..|details| - 1], responseId, front[k])
    ensures forall k :: 0 <= k < |front| ==> Joined(questions, details, responseId, front[k])
  {
    forall k | 0 <= k < |front| ensures Joined(questions, details, responseId, front[k]) {
      assert Joined(questions, details[..|details| - 1], responseId, front[k]);
      var d, q :| d in details[..|details| - 1] && q in questions && d.responseId == responseId
                  && q.id == d.questionId && front[k] == JoinRow(d.answerValue, q);
      assert d in details;
    }
  }

  /** Every question with the referenced id gives a row. */
  lemma {:induction false} MatchesComplete(questions: seq<Question>, q: Question, answerValue: int)
    requires q in questions
    ensures JoinRow(answerValue, q) in Matches(questions, q.id, answerValue)
  {
    var n := |questions| - 1;
    if questions[n] != q {
      assert q in questions[..n];
      MatchesComplete(questions[..n], q, answerValue);
    }
  }

  /** Every detail of the response, with every question it references, gives a join row. */
  lemma {:induction false} AnswerRowsComplete(questions: seq<Question>, details: seq<ResponseDetail>, responseId: int,
                                              d: ResponseDetail, q: Question)
    requires d in details && q in questions && d.responseId == responseId && q.id == d.questionId
    ensures JoinRow(d.answerValue, q) in AnswerRows(questions, details, responseId)
  {
    var n := |details| - 1;
    if details[n] == d {
      MatchesComplete(questions, q, d.answerValue);
    } else {
      assert d in details[..n];
      AnswerRowsComplete(questions, details[..n], responseId, d, q);
    }
  }

  function Ascending(r: AnswerRow): int { -r.questionOrder }

  /** The same rows with `ORDER BY q.question_order`: rearranged by ascending question order,
      nothing added or lost; rows with equal order keep table order. */
  function OrderedAnswerRows(questions: seq<Question>, details: seq<ResponseDetail>, responseId: int): (r: seq<AnswerRow>)
    ensures multiset(r) == multiset(AnswerRows(questions, details, responseId))
    ensures forall a, b :: 0 <= a < b < |r| ==> r[a].questionOrder <= r[b].questionOrder
  {
    var rows := AnswerRows(questions, details, responseId);
    StableSort.SortPermutes(rows, Ascending);
    StableSort.SortOrders(rows, Ascending);
    var o := StableSort.Sort(rows, Ascending);
    assert forall a, b :: 0 <= a < b < |o| ==> Ascending(o[a]) >= Ascending(o[b]);
    o
  }

  /** A response that no detail references has no join rows. */
  lemma {:induction false} AnswerRowsUnreferenced(questions: seq<Question>, ds: seq<ResponseDetail>, responseId: int)
    requires forall k :: 0 <= k < |ds| ==> ds[k].responseId != responseId
    ensures AnswerRows(questions, ds, responseId) == []
  {
    if ds != [] {
      AnswerRowsUnreferenced(questions, ds[..|ds| - 1], responseId);
    }
  }
}
