/** The admin routes: the results overview with its top three gifts and gift filter, one
    user's response, creating an admin account, and the user list with quiz counts. The SQL
    listing under the results overview (its search, DISTINCT and ordering) is an input. */
module Admin {
  import opened Wrappers
  import opened Text
  import opened Store
  import opened Scoring
  import Auth

  // ---------------------------------------------------------------------------------------
  // GET /results

  /** One row of the results listing: a user joined with one of their quiz responses. */
  datatype ResultRow = ResultRow(userId: int, fullname: string, email: string, responseId: int, createdAt: int)

  /** A listed row with the first gifts of its ranking. */
  datatype Enriched = Enriched(row: ResultRow, topGifts: seq<Gift>)

  /** `gifts.slice(0, 3)`. */
  function TopGifts(gifts: seq<Gift>): (r: seq<Gift>)
    ensures |r| <= 3 && (|r| == 3 || |r| == |gifts|)
    ensures forall k :: 0 <= k < |r| ==> k < |gifts| && r[k] == gifts[k]
  {
    gifts[..Min(3, |gifts|)]
  }

  /** The gifts `calculateGifts` gives for one stored response. */
  function GiftsOf(questions: seq<Question>, details: seq<ResponseDetail>, descriptions: seq<GiftDescription>, responseId: int): seq<Gift> {
    Gifts(AnswerRows(questions, details, responseId), descriptions)
  }

  /** The `some` test of the gift filter: a gift of that category, compared without regard to
      ASCII case, scoring at least 60 percent. */
  predicate HasGift(gifts: seq<Gift>, giftFilter: string) {
    exists k :: 0 <= k < |gifts| && ToLower(gifts[k].category) == ToLower(giftFilter) && gifts[k].percentage >= 60
  }

  /** The filter ignores ASCII case: two spellings that lower-case alike keep the same rows. */
  lemma GiftFilterIgnoresCase(gifts: seq<Gift>, f: string, g: string)
    requires ToLower(f) == ToLower(g)
    ensures HasGift(gifts, f) <==> HasGift(gifts, g)
  {
  }

  /** Whether a listed row survives: always without a filter, otherwise when it has the gift. */
  predicate Kept(gifts: seq<Gift>, giftFilter: string) {
    giftFilter == "" || HasGift(gifts, giftFilter)
  }

  function Enrich(questions: seq<Question>, details: seq<ResponseDetail>, descriptions: seq<GiftDescription>, row: ResultRow): Enriched {
    Enriched(row, TopGifts(GiftsOf(questions, details, descriptions, row.responseId)))
  }

  /** The answer of `/results`: the kept rows, each with its top gifts, in listing order. */
  function Listed(questions: seq<Question>, details: seq<ResponseDetail>, descriptions: seq<GiftDescription>,
                  results: seq<ResultRow>, giftFilter: string): seq<Enriched>
  {
    if results == [] then []
    else
      var row := results[|results| - 1];
      Listed(questions, details, descriptions, results[..|results| - 1], giftFilter)
      + (if Kept(GiftsOf(questions, details, descriptions, row.responseId), giftFilter)
         then [Enrich(questions, details, descriptions, row)] else [])
  }

  /** `GET /results` over the listed rows: scores every row's response and keeps the rows the
      filter lets through. The per-row queries run one after another here. */
  method ListResults(db: Database, results: seq<ResultRow>, giftFilter: string) returns (listed: seq<Enriched>)
    ensures listed == Listed(db.questions, db.details, db.descriptions, results, giftFilter)
  {
    listed := [];
    for i := 0 to |results|
      invariant listed == Listed(db.questions, db.details, db.descriptions, results[..i], giftFilter)
    {
      assert results[..i + 1][..i] == results[..i];
      var rows := AnswerRows(db.questions, db.details, results[i].responseId);
      var gifts := CalculateGifts(rows, db.descriptions);
      if giftFilter == "" || HasGift(gifts, giftFilter) {
        listed := listed + [Enriched(results[i], gifts[..Min(3, |gifts|)])];
      }
    }
    assert results[..|results|] == results;
  }

  /** Without a filter every listed row comes back, in order, with its top gifts. */
  lemma {:induction false} NoFilterKeepsAll(questions: seq<Question>, details: seq<ResponseDetail>,
                                            descriptions: seq<GiftDescription>, results: seq<ResultRow>)
    ensures |Listed(questions, details, descriptions, results, "")| == |results|
    ensures forall k :: 0 <= k < |results| ==>
              Listed(questions, details, descriptions, results, "")[k] == Enrich(questions, details, descriptions, results[k])
  {
    if results != [] {
      var front := results[..|results| - 1];
      NoFilterKeepsAll(questions, details, descriptions, front);
      var l := Listed(questions, details, descriptions, results, "");
      forall k | 0 <= k < |results| ensures l[k] == Enrich(questions, details, descriptions, results[k]) {
        if k < |front| {
          assert results[k] == front[k];
        }
      }
    }
  }

  /** A row is listed exactly when it passes the filter, and each listed entry carries its own
      row's top gifts. */
  lemma {:induction false} ListedAreKept(questions: seq<Question>, details: seq<ResponseDetail>,
                                         descriptions: seq<GiftDescription>, results: seq<ResultRow>, giftFilter: string)
    ensures forall e :: e in Listed(questions, details, descriptions, results, giftFilter) ==>
              e.row in results && Kept(GiftsOf(questions, details, descriptions, e.row.responseId), giftFilter)
              && e == Enrich(questions, details, descriptions, e.row)
    ensures forall i :: 0 <= i < |results| && Kept(GiftsOf(questions, details, descriptions, results[i].responseId), giftFilter) ==>
              Enrich(questions, details, descriptions, results[i]) in Listed(questions, details, descriptions, results, giftFilter)
  {
    if results != [] {
      var front := results[..|results| - 1];
      ListedAreKept(questions, details, descriptions, front, giftFilter);
      forall i | 0 <= i < |front| ensures front[i] == results[i] && results[i] in results {
      }
    }
  }

  /** The entries of `l` appear in the order of the rows of `rs` they come from. */
  ghost predicate InRowOrder(rs: seq<ResultRow>, l: seq<Enriched>) {
    forall a, b :: 0 <= a < b < |l| ==> RowsInOrder(rs, l[a], l[b])
  }

  /** The row of `x` comes before the row of `y` in `rs`. */
  ghost predicate RowsInOrder(rs: seq<ResultRow>, x: Enriched, y: Enriched) {
    exists i, j :: 0 <= i < j < |rs| && rs[i] == x.row && rs[j] == y.row
  }

  /** Listed entries keep the order of the rows they come from. */
  lemma {:induction false} ListedKeepsOrder(questions: seq<Question>, details: seq<ResponseDetail>,
                                            descriptions: seq<GiftDescription>, results: seq<ResultRow>, giftFilter: string)
    ensures InRowOrder(results, Listed(questions, details, descriptions, results, giftFilter))
  {
    if results != [] {
      var front := results[..|results| - 1];
      ListedKeepsOrder(questions, details, descriptions, front, giftFilter);
      ListedAreKept(questions, details, descriptions, front, giftFilter);
      var l0 := Listed(questions, details, descriptions, front, giftFilter);
      var l := Listed(questions, details, descriptions, results, giftFilter);
      var added := l[|l0|..];
      assert l == l0 + added;
      assert results == front + [results[|results| - 1]];
      OrderStep(front, results[|results| - 1], l0, added);
    }
  }

  /** Appending a row, and perhaps its entry, keeps the order of the entries. */
  lemma OrderStep(front: seq<ResultRow>, last: ResultRow, l0: seq<Enriched>, added: seq<Enriched>)
    requires added == [] || (|added| == 1 && added[0].row == last)
    requires forall e :: e in l0 ==> e.row in front
    requires InRowOrder(front, l0)
    ensures InRowOrder(front + [last], l0 + added)
  {
    var results, l := front + [last], l0 + added;
    forall a, b | 0 <= a < b < |l| ensures RowsInOrder(results, l[a], l[b]) {
      OrderPair(front, last, l0, added, a, b);
    }
  }

  lemma OrderPair(front: seq<ResultRow>, last: ResultRow, l0: seq<Enriched>, added: seq<Enriched>, a: int, b: int)
    requires added == [] || (|added| == 1 && added[0].row == last)
    requires forall e :: e in l0 ==> e.row in front
    requires InRowOrder(front, l0)
    requires 0 <= a < b < |l0 + added|
    ensures RowsInOrder(front + [last], (l0 + added)[a], (l0 + added)[b])
  {
    var results, l := front + [last], l0 + added;
    {
      assert l[a] == l0[a];
      if b < |l0| {
        assert l[b] == l0[b];
        assert RowsInOrder(front, l0[a], l0[b]);
        var i, j :| 0 <= i < j < |front| && front[i] == l0[a].row && front[j] == l0[b].row;
        assert results[i] == front[i] && results[j] == front[j];
      } else {
        assert l[b] == added[0];
        assert l0[a] in l0;
        var i :| 0 <= i < |front| && front[i] == l0[a].row;
        assert results[i] == front[i];
        assert results[|front|] == l[b].row;
        assert i < |front|;
      }
    }
  }

  /** The top gifts are the first min(3, n) of the ranking, and none of the gifts left out
      scores higher than any shown. */
  lemma TopGiftsDominate(rows: seq<AnswerRow>, descriptions: seq<GiftDescription>)
    ensures var gifts := Gifts(rows, descriptions);
      |TopGifts(gifts)| == Min(3, |gifts|) && TopGifts(gifts) == gifts[..|TopGifts(gifts)|]
      && forall a, b :: 0 <= a < |TopGifts(gifts)| <= b < |gifts| ==>
           TopGifts(gifts)[a].percentage >= gifts[b].percentage
  {
    GiftsRanked(rows, descriptions);
  }

  // ---------------------------------------------------------------------------------------
  // GET /user/:userId/response/:responseId

  function FindUser(users: seq<User>, userId: int): (r: Option<User>)
    ensures r.None? <==> forall k :: 0 <= k < |users| ==> users[k].id != userId
    ensures r.Some? ==> r.value in users && r.value.id == userId
  {
    if users == [] then None
    else if users[0].id == userId then Some(users[0])
    else
      assert forall k :: 0 < k < |users| ==> users[k] == users[1..][k - 1];
      FindUser(users[1..], userId)
  }

  /** `SELECT * FROM quiz_responses WHERE id = ? AND user_id = ?`. */
  function FindOwnedResponse(responses: seq<QuizResponse>, responseId: int, userId: int): (r: Option<QuizResponse>)
    ensures r.None? <==> forall k :: 0 <= k < |responses| ==> !(responses[k].id == responseId && responses[k].userId == userId)
    ensures r.Some? ==> r.value in responses && r.value.id == responseId && r.value.userId == userId
  {
    if responses == [] then None
    else if responses[0].id == responseId && responses[0].userId == userId then Some(responses[0])
    else
      assert forall k :: 0 < k < |responses| ==> responses[k] == responses[1..][k - 1];
      FindOwnedResponse(responses[1..], responseId, userId)
  }

  datatype UserSummary = UserSummary(id: int, fullname: string, email: string)
  datatype UserResponseView = UserResponseView(user: UserSummary, responseId: int, createdAt: int,
                                               gifts: seq<Gift>, responses: seq<AnswerRow>)

  /** One user's response: 404 when the user does not exist, 404 as well when the response is
      not theirs (or does not exist); otherwise the user, the response's time, the answers by
      question order and the gifts they score. */
  method UserResponse(db: Database, userId: int, responseId: int) returns (reply: Reply<UserResponseView>)
    ensures (forall k :: 0 <= k < |db.users| ==> db.users[k].id != userId) ==>
              reply == Fail(404, "No user found, please Sign up")
    ensures (exists k :: 0 <= k < |db.users| && db.users[k].id == userId)
            && (forall k :: 0 <= k < |db.responses| ==> !(db.responses[k].id == responseId && db.responses[k].userId == userId)) ==>
              reply == Fail(404, "Quiz response not found")
    ensures reply.Ok? ==>
      && reply.status == 200
      && (exists u :: u in db.users && u.id == userId && reply.body.user == UserSummary(u.id, u.fullname, u.email))
      && (exists r :: r in db.responses && r.id == responseId && r.userId == userId && r.createdAt == reply.body.createdAt)
      && reply.body.responseId == responseId
      && reply.body.responses == OrderedAnswerRows(db.questions, db.details, responseId)
      && reply.body.gifts == Gifts(reply.body.responses, db.descriptions)
    ensures (exists k :: 0 <= k < |db.users| && db.users[k].id == userId)
            && (exists k :: 0 <= k < |db.responses| && db.responses[k].id == responseId && db.responses[k].userId == userId) ==>
              reply.Ok?
  {
    var user := FindUser(db.users, userId);
    if user.None? {
      return Fail(404, "No user found, please Sign up");
    }
    var response := FindOwnedResponse(db.responses, responseId, userId);
    if response.None? {
      return Fail(404, "Quiz response not found");
    }
    var rows := OrderedAnswerRows(db.questions, db.details, responseId);
    var gifts := CalculateGifts(rows, db.descriptions);
    var u := user.value;
    reply := Ok(200, UserResponseView(UserSummary(u.id, u.fullname, u.email), responseId,
                                      response.value.createdAt, gifts, rows));
  }

  // ---------------------------------------------------------------------------------------
  // POST /create-admin

  /** `POST /create-admin`: the checks of signup, then one user inserted with role `admin`. */
  method CreateAdmin(db: Database, fullname: string, email: string, now: int) returns (reply: Reply<Auth.UserView>)
    modifies db
    ensures Auth.RegistrationError(old(db.users), fullname, email).Some? ==>
      reply == Fail(400, Auth.RegistrationError(old(db.users), fullname, email).value) && unchanged(db)
    ensures Auth.RegistrationError(old(db.users), fullname, email).None? ==>
      var id := NextId(UserIds(old(db.users)));
      && db.users == old(db.users) + [User(id, fullname, email, AdminRole, now)]
      && db.questions == old(db.questions) && db.descriptions == old(db.descriptions)
      && db.responses == old(db.responses) && db.details == old(db.details)
      && reply == Ok(201, Auth.UserView(id, fullname, email, AdminRole))
    ensures Auth.UniqueEmails(old(db.users)) ==> Auth.UniqueEmails(db.users)
  {
    reply := Auth.Register(db, fullname, email, AdminRole, now);
  }

  // ---------------------------------------------------------------------------------------
  // GET /users

  /** `SELECT COUNT(*) FROM quiz_responses WHERE user_id = ?`. */
  function QuizCount(responses: seq<QuizResponse>, userId: int): nat {
    if responses == [] then 0
    else
      QuizCount(responses[..|responses| - 1], userId)
      + (if responses[|responses| - 1].userId == userId then 1 else 0)
  }

  /** The count is the number of stored responses that belong to the user. */
  lemma {:induction false} QuizCountIsCardinality(responses: seq<QuizResponse>, userId: int)
    ensures QuizCount(responses, userId) == |set k | 0 <= k < |responses| && responses[k].userId == userId|
  {
    if responses != [] {
      var n := |responses| - 1;
      var front := responses[..n];
      QuizCountIsCardinality(front, userId);
      var before := set k | 0 <= k < n && front[k].userId == userId;
      var after := set k | 0 <= k < |responses| && responses[k].userId == userId;
      if responses[n].userId == userId {
        assert after == before + {n};
      } else {
        assert after == before;
      }
    }
  }

  datatype UserEntry = UserEntry(id: int, fullname: string, email: string, role: string, createdAt: int, quizCount: nat)
  datatype UserList = UserList(users: seq<UserEntry>, total: int)

  function Entry(u: User, responses: seq<QuizResponse>): UserEntry {
    UserEntry(u.id, u.fullname, u.email, u.role, u.createdAt, QuizCount(responses, u.id))
  }

  /** The role test of `/users`: every user without a filter, otherwise those with the role. */
  predicate Passes(u: User, role: string) {
    role == "" || u.role == role
  }

  /** The positions of the users that pass, ascending: exactly the passing positions, each
      once, in table order. */
  function Selected(users: seq<User>, role: string): (ix: seq<nat>)
    ensures forall k :: 0 <= k < |ix| ==> ix[k] < |users| && Passes(users[ix[k]], role)
    ensures forall k, l :: 0 <= k < l < |ix| ==> ix[k] < ix[l]
    ensures forall j :: 0 <= j < |users| && Passes(users[j], role) ==> j in ix
  {
    if users == [] then []
    else
      var n := |users| - 1;
      var front := Selected(users[..n], role);
      assert forall k :: 0 <= k < |front| ==> users[front[k]] == users[..n][front[k]];
      front + (if Passes(users[n], role) then [n] else [])
  }

  /** As many positions are selected as users pass the filter. */
  lemma {:induction false} SelectedCount(users: seq<User>, role: string)
    ensures |Selected(users, role)| == |PassingSet(users, role)|
  {
    if users != [] {
      SelectedCount(users[..|users| - 1], role);
      PassingSetStep(users, role);
    }
  }

  /** The positions of the passing users, as a set. */
  function PassingSet(users: seq<User>, role: string): set<int> {
    Positions(users, u => Passes(u, role))
  }

  function Positions<T>(xs: seq<T>, p: T -> bool): set<int> {
    set j | 0 <= j < |xs| && p(xs[j])
  }

  lemma PassingSetStep(users: seq<User>, role: string)
    requires users != []
    ensures |PassingSet(users, role)| == |PassingSet(users[..|users| - 1], role)| + (if Passes(users[|users| - 1], role) then 1 else 0)
  {
    PositionsStep(users, u => Passes(u, role));
  }

  lemma PositionsStep<T>(xs: seq<T>, p: T -> bool)
    requires xs != []
    ensures |Positions(xs, p)| == |Positions(xs[..|xs| - 1], p)| + (if p(xs[|xs| - 1]) then 1 else 0)
  {
    var n := |xs| - 1;
    var before := Positions(xs[..n], p);
    var after := Positions(xs, p);
    if p(xs[n]) {
      assert after == before + {n};
    } else {
      assert after == before;
    }
  }

  /** The user rows the role filter lets through (all of them without one), in table order,
      each with its quiz count: the k-th entry is the user at the k-th selected position. */
  function UserEntries(users: seq<User>, responses: seq<QuizResponse>, role: string): (r: seq<UserEntry>)
    ensures |r| == |Selected(users, role)|
    ensures forall k :: 0 <= k < |r| ==> r[k] == Entry(users[Selected(users, role)[k]], responses)
  {
    if users == [] then []
    else
      var n := |users| - 1;
      var rest := UserEntries(users[..n], responses, role);
      var r := rest + (if Passes(users[n], role) then [Entry(users[n], responses)] else []);
      EntriesStep(users, responses, role, rest, r);
      r
  }

  lemma EntriesStep(users: seq<User>, responses: seq<QuizResponse>, role: string, rest: seq<UserEntry>, r: seq<UserEntry>)
    requires users != []
    requires |rest| == |Selected(users[..|users| - 1], role)|
    requires forall k :: 0 <= k < |rest| ==> rest[k] == Entry(users[..|users| - 1][Selected(users[..|users| - 1], role)[k]], responses)
    requires r == rest + (if Passes(users[|users| - 1], role) then [Entry(users[|users| - 1], responses)] else [])
    ensures |r| == |Selected(users, role)|
    ensures forall k :: 0 <= k < |r| ==> r[k] == Entry(users[Selected(users, role)[k]], responses)
  {
    var n := |users| - 1;
    var ix := Selected(users[..n], role);
    var all := Selected(users, role);
    assert all == ix + (if Passes(users[n], role) then [n] else []);
    forall k | 0 <= k < |r| ensures r[k] == Entry(users[all[k]], responses) {
      if k < |rest| {
        assert all[k] == ix[k] && ix[k] < n;
        assert users[..n][ix[k]] == users[ix[k]];
      }
    }
  }

  /** `GET /users`: one entry per user passing the role filter, in table order; `total` is
      the number of those users; each quiz count is the number of the user's responses. */
  function ListUsers(users: seq<User>, responses: seq<QuizResponse>, role: string): (r: UserList)
    ensures r.total == |r.users| == |Selected(users, role)|
    ensures r.total == |PassingSet(users, role)|
    ensures forall k :: 0 <= k < |r.users| ==> r.users[k] == Entry(users[Selected(users, role)[k]], responses)
    ensures role != "" ==> forall k :: 0 <= k < |r.users| ==> r.users[k].role == role
    ensures forall k :: 0 <= k < |r.users| ==>
              r.users[k].quizCount == |set j | 0 <= j < |responses| && responses[j].userId == r.users[k].id|
    ensures forall u :: u in users && Passes(u, role) ==> Entry(u, responses) in r.users
  {
    var entries := UserEntries(users, responses, role);
    var ix := Selected(users, role);
    SelectedCount(users, role);
    forall k | 0 <= k < |entries|
      ensures entries[k].quizCount == |set j | 0 <= j < |responses| && responses[j].userId == entries[k].id|
    {
      QuizCountIsCardinality(responses, entries[k].id);
    }
    forall u | u in users && Passes(u, role) ensures Entry(u, responses) in entries {
      var j :| 0 <= j < |users| && users[j] == u;
      var k :| 0 <= k < |ix| && ix[k] == j;
      assert entries[k] == Entry(u, responses);
    }
    UserList(entries, |entries|)
  }
}
