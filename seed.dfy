/** The seed data and the start-up seeding: the question bank shuffled once with Fisher-Yates
    and numbered, the gift descriptions, and the default admin account, each inserted only
    while its table (or, for the admin, the admin role) is still empty. Randomness enters as
    the caller's choice of swap partner per step. */
module Seed {
  import opened Store

  datatype SeedQuestion = SeedQuestion(giftCategory: string, questionText: string)
  datatype SeedDescription = SeedDescription(giftCategory: string, description: string)
  datatype OrderedQuestion = OrderedQuestion(giftCategory: string, questionText: string, questionOrder: int)

  /** The question bank, five statements for each of six gifts. */
  function Questions(): seq<SeedQuestion> {
    [
    SeedQuestion("Teaching",
                 "I am disciplined and willing to study hard, sacrifice personal time and spend hours in preparing for speaking sessions."),
    SeedQuestion("Teaching",
                 "God enables me to accurately interpret, clearly explain and apply His Word."),
    SeedQuestion("Teaching",
                 "When someone asks a question about the Bible, I enjoy researching it and responding thoughtfully."),
    SeedQuestion("Teaching",
                 "Other people often come to me asking \"can you explain that passage?\""),
    SeedQuestion("Teaching",
                 "I can easily organize my thoughts, structure my sharing and communicate clearly when I teach."),
    SeedQuestion("Exhorting",
                 "I easily notice when someone is discouraged and feel naturally moved to encourage them."),
    SeedQuestion("Exhorting",
                 "When people share their burdens, I feel motivated to walk alongside them and uplift them."),
    SeedQuestion("Exhorting",
                 "My teaching is more devotional in nature and focused on the doing aspect rather than revealing in-depth truths from God's Word."),
    SeedQuestion("Exhorting",
                 "People often say they feel encouraged or motivated after I speak or teach."),
    SeedQuestion("Exhorting",
                 "I enjoy mentoring, discipling, or counselling others personally."),
    SeedQuestion("Prophesying",
                 "I have a strong hatred for sin and a deep passion for holiness, and I feel called to confront and address these matters in the church."),
    SeedQuestion("Prophesying",
                 "I have a strong desire to help others grow spiritually and live according to God's Word."),
    SeedQuestion("Prophesying",
                 "When I speak or teach, I do so with urgency and conviction, wanting people to respond."),
    SeedQuestion("Prophesying",
                 "I'm willing to confront issues of moral compromise in the church as the Spirit leads."),
    SeedQuestion("Prophesying",
                 "I feel a strong burden for the church to be pure, truthful, and spiritually active rather than passive and comfortable."),
    SeedQuestion("Word of Knowledge",
                 "I often see connections, themes, and patterns in Scripture that others might overlook."),
    SeedQuestion("Word of Knowledge",
                 "When I speak from God's Word, it is usually rich in factual, historical, and contextual insights."),
    SeedQuestion("Word of Knowledge",
                 "I believe God has equipped me to help people understand biblical truths in-depth than just teaching the practical applications."),
    SeedQuestion("Word of Knowledge",
                 "I make good use of various study tools and resources to find accurate biblical information."),
    SeedQuestion("Word of Knowledge",
                 "I often explain ideas in an academic way by connecting different Bible passages to show one unified truth."),
    SeedQuestion("Word of Wisdom",
                 "I may not remember many facts or historical details, but applying Scripture to real life comes naturally to me."),
    SeedQuestion("Word of Wisdom",
                 "I can easily recognise how a biblical principle should be lived out in a specific circumstance."),
    SeedQuestion("Word of Wisdom",
                 "I can sense when a decision isn't spiritually wise, even if it seems acceptable for others, and help others think it through."),
    SeedQuestion("Word of Wisdom",
                 "In preparing to teach, I focus on practical wisdom rather than theoretical knowledge."),
    SeedQuestion("Word of Wisdom",
                 "When I speak from God's Word, I focus on finding practical lessons and applications."),
    SeedQuestion("Evangelism",
                 "I have a strong desire to share my faith with unbelievers."),
    SeedQuestion("Evangelism",
                 "I find it easy to initiate spiritual conversations with strangers, friends and unbelievers."),
    SeedQuestion("Evangelism",
                 "I'm not discouraged by rejection or tough questions when sharing my faith\U{00E2}\U{20AC}\U{201D}I see them as part of evangelism."),
    SeedQuestion("Evangelism",
                 "I am aware of people in my circle (work, college, community) who do not know about Jesus and feel a personal burden to reach them."),
    SeedQuestion("Evangelism",
                 "I am comfortable asking someone, \"have you heard about Jesus?\" or \"have you thought about life after death?\"")
    ]
  }

  /** One description per gift of the bank. */
  const GiftDescriptions: seq<SeedDescription> := [
    SeedDescription("Teaching",
                    "The Spirit-given ability to deeply study, accurately interpret, clearly explain, and faithfully apply God's Word so that others grow toward spiritual maturity in Christ."),
    SeedDescription("Exhorting",
                    "The Spirit-given ability to encourage, comfort, and urge others toward obedience, faithfulness, and spiritual growth through words of counsel, comfort, or challenge."),
    SeedDescription("Prophesying",
                    "The Spirit-enabled ability to boldly proclaim God's written Word with passion, clarity and conviction, exposing sin, calling for repentance, and building up the church in holiness."),
    SeedDescription("Word of Knowledge",
                    "The Spirit-given ability to deeply understand, analyze, and articulate biblical truths and doctrinal insights with intellectual clarity and precision."),
    SeedDescription("Word of Wisdom",
                    "The Spirit-given ability to apply biblical truths and spiritual principles wisely to life situations, guiding others in godly and practical decision-making."),
    SeedDescription("Evangelism",
                    "The Spirit-given ability to effectively share the gospel with unbelievers and lead them to faith in Jesus Christ with clarity and conviction.")
  ]

  const DefaultAdminName := "Admin User"
  const DefaultAdminEmail := "admin@spiritualgifts.com"

  // ---------------------------------------------------------------------------------------
  // shuffleArray

  /** `choices[i]` stands for `Math.floor(Math.random() * (i + 1))`, the partner drawn for
      position `i`; each is in `0..i`. */
  predicate ValidChoices(choices: seq<int>, n: int) {
    |choices| == n && forall i :: 0 <= i < n ==> 0 <= choices[i] <= i
  }

  function Swap<T>(s: seq<T>, i: int, j: int): seq<T>
    requires 0 <= i < |s| && 0 <= j < |s|
  {
    s[i := s[j]][j := s[i]]
  }

  /** The rest of the shuffle once positions above `i` are done: swap position `i` with its
      partner, then go on with `i - 1`, down to position 1. */
  function ShuffleFrom<T>(s: seq<T>, choices: seq<int>, i: int): seq<T>
    requires ValidChoices(choices, |s|) && -1 <= i < |s|
    decreases i
  {
    if i <= 0 then s else ShuffleFrom(Swap(s, i, choices[i]), choices, i - 1)
  }

  /** What `shuffleArray` returns for the given draws. */
  function Shuffled<T>(s: seq<T>, choices: seq<int>): (r: seq<T>)
    requires ValidChoices(choices, |s|)
    ensures |r| == |s| && multiset(r) == multiset(s)
  {
    ShuffleFromPermutes(s, choices, |s| - 1);
    ShuffleFrom(s, choices, |s| - 1)
  }

  lemma SwapPermutes<T>(s: seq<T>, i: int, j: int)
    requires 0 <= i < |s| && 0 <= j < |s|
    ensures multiset(Swap(s, i, j)) == multiset(s)
  {
    var t := s[i := s[j]];
    assert multiset(t) == multiset(s) - multiset{s[i]} + multiset{s[j]};
    assert multiset(t[j := s[i]]) == multiset(t) - multiset{t[j]} + multiset{s[i]};
  }

  /** The shuffle only rearranges: the result holds the same elements, as often. */
  lemma {:induction false} ShuffleFromPermutes<T>(s: seq<T>, choices: seq<int>, i: int)
    requires ValidChoices(choices, |s|) && -1 <= i < |s|
    ensures |ShuffleFrom(s, choices, i)| == |s|
    ensures multiset(ShuffleFrom(s, choices, i)) == multiset(s)
    decreases i
  {
    if i > 0 {
      SwapPermutes(s, i, choices[i]);
      ShuffleFromPermutes(Swap(s, i, choices[i]), choices, i - 1);
    }
  }

  /** Once the step for position `i` is over, the positions above it are never written again. */
  lemma {:induction false} ShuffleFromFreezesSuffix<T>(s: seq<T>, choices: seq<int>, i: int)
    requires ValidChoices(choices, |s|) && -1 <= i < |s|
    ensures |ShuffleFrom(s, choices, i)| == |s|
    ensures ShuffleFrom(s, choices, i)[i + 1..] == s[i + 1..]
    decreases i
  {
    ShuffleFromPermutes(s, choices, i);
    if i > 0 {
      var t := Swap(s, i, choices[i]);
      ShuffleFromFreezesSuffix(t, choices, i - 1);
      assert t[i + 1..] == s[i + 1..];
      assert ShuffleFrom(s, choices, i)[i + 1..] == ShuffleFrom(t, choices, i - 1)[i..][1..];
    }
  }

  /** `shuffleArray`: copies the array, then for `i` from the last index down to 1 swaps
      position `i` with its drawn partner. The input array is left as it was. */
  method ShuffleArray<T>(input: array<T>, choices: seq<int>) returns (shuffled: array<T>)
    requires ValidChoices(choices, input.Length)
    ensures fresh(shuffled)
    ensures shuffled[..] == Shuffled(input[..], choices)
    ensures input[..] == old(input[..])
  {
    shuffled := new T[input.Length](k reads input requires 0 <= k < input.Length => input[k]);
    assert shuffled[..] == input[..];
    ShuffleFromPermutes(input[..], choices, input.Length - 1);
    var i := shuffled.Length - 1;
    while i > 0
      invariant -1 <= i < shuffled.Length
      invariant ValidChoices(choices, shuffled.Length)
      invariant ShuffleFrom(shuffled[..], choices, i) == Shuffled(input[..], choices)
      invariant shuffled[i + 1..] == Shuffled(input[..], choices)[i + 1..]
      decreases i
    {
      var j := choices[i];
      ghost var before := shuffled[..];
      shuffled[i], shuffled[j] := shuffled[j], shuffled[i];
      assert shuffled[..] == Swap(before, i, j);
      ShuffleFromFreezesSuffix(shuffled[..], choices, i - 1);
      i := i - 1;
    }
    assert ShuffleFrom(shuffled[..], choices, i) == shuffled[..];
  }

  /** The question bank in shuffled order, numbered from 1 (`shuffledQuestions`). */
  function WithOrder(qs: seq<SeedQuestion>): seq<OrderedQuestion> {
    seq(|qs|, k requires 0 <= k < |qs| => OrderedQuestion(qs[k].giftCategory, qs[k].questionText, k + 1))
  }

  /** The numbers run 1..n in list order: strictly increasing, hence distinct, and every
      number of 1..n is used. */
  lemma OrdersAreOneToN(qs: seq<SeedQuestion>)
    ensures forall a, b :: 0 <= a < b < |WithOrder(qs)| ==> WithOrder(qs)[a].questionOrder < WithOrder(qs)[b].questionOrder
    ensures forall n :: 1 <= n <= |qs| ==> n in Orders(WithOrder(qs))
    ensures forall k :: 0 <= k < |WithOrder(qs)| ==> 1 <= WithOrder(qs)[k].questionOrder <= |qs|
  {
    var r := WithOrder(qs);
    forall n | 1 <= n <= |qs| ensures n in Orders(r) {
      assert r[n - 1].questionOrder == n;
    }
  }

  /** The numbers handed out. */
  function Orders(r: seq<OrderedQuestion>): set<int> {
    set k | 0 <= k < |r| :: r[k].questionOrder
  }

  /** `shuffleArray(bank).map((q, index) => ...)`. */
  method ShuffleAndNumber(bank: seq<SeedQuestion>, choices: seq<int>) returns (ordered: seq<OrderedQuestion>)
    requires ValidChoices(choices, |bank|)
    ensures ordered == WithOrder(Shuffled(bank, choices))
  {
    var a := new SeedQuestion[|bank|](k requires 0 <= k < |bank| => bank[k]);
    assert a[..] == bank;
    var shuffled := ShuffleArray(a, choices);
    ordered := WithOrder(shuffled[..]);
  }

  /** `shuffledQuestions`: the bank shuffled once and numbered. */
  method ShuffledQuestions(choices: seq<int>) returns (ordered: seq<OrderedQuestion>)
    requires ValidChoices(choices, |Questions()|)
    ensures ordered == WithOrder(Shuffled(Questions(), choices))
  {
    ordered := ShuffleAndNumber(Questions(), choices);
  }

  // ---------------------------------------------------------------------------------------
  // seedQuestions, seedGiftDescriptions, seedDefaultAdmin

  /** The questions table after one insert per row, each taking the next SERIAL id. */
  function InsertQuestions(table: seq<Question>, rows: seq<OrderedQuestion>): seq<Question> {
    if rows == [] then table
    else
      var before := InsertQuestions(table, rows[..|rows| - 1]);
      var q := rows[|rows| - 1];
      before + [Question(NextId(QuestionIds(before)), q.giftCategory, q.questionText, q.questionOrder)]
  }

  /** The inserts add one row per entry, in order and with the entry's columns. */
  lemma {:induction false} InsertQuestionsShape(table: seq<Question>, rows: seq<OrderedQuestion>)
    ensures |InsertQuestions(table, rows)| == |table| + |rows|
    ensures InsertQuestions(table, rows)[..|table|] == table
    ensures forall j :: |table| <= j < |InsertQuestions(table, rows)| ==>
      && InsertQuestions(table, rows)[j].giftCategory == rows[j - |table|].giftCategory
      && InsertQuestions(table, rows)[j].questionText == rows[j - |table|].questionText
      && InsertQuestions(table, rows)[j].questionOrder == rows[j - |table|].questionOrder
  {
    if rows != [] {
      var front := rows[..|rows| - 1];
      InsertQuestionsShape(table, front);
      var before := InsertQuestions(table, front);
      var qs := InsertQuestions(table, rows);
      forall j | |table| <= j < |qs|
        ensures qs[j].giftCategory == rows[j - |table|].giftCategory
        ensures qs[j].questionText == rows[j - |table|].questionText
        ensures qs[j].questionOrder == rows[j - |table|].questionOrder
      {
        if j < |before| {
          assert qs[j] == before[j];
          assert front[j - |table|] == rows[j - |table|];
        }
      }
      assert qs[..|table|] == before[..|table|];
    }
  }

  /** `seedQuestions`: nothing when the table has rows, otherwise every entry inserted. */
  function SeededQuestions(table: seq<Question>, rows: seq<OrderedQuestion>): seq<Question> {
    if |table| > 0 then table else InsertQuestions(table, rows)
  }

  /** Seeding the questions a second time changes nothing. */
  lemma SeedQuestionsIdempotent(table: seq<Question>, rows: seq<OrderedQuestion>)
    ensures SeededQuestions(SeededQuestions(table, rows), rows) == SeededQuestions(table, rows)
  {
    InsertQuestionsShape(table, rows);
  }

  /** Into an empty table the seeding puts the shuffled bank, numbered from 1 in order. */
  lemma SeededBank(bank: seq<SeedQuestion>, choices: seq<int>)
    requires ValidChoices(choices, |bank|)
    ensures var qs, sh := SeededQuestions([], WithOrder(Shuffled(bank, choices))), Shuffled(bank, choices);
      && |qs| == |bank| == |sh|
      && forall k :: 0 <= k < |qs| ==>
           && qs[k].giftCategory == sh[k].giftCategory
           && qs[k].questionText == sh[k].questionText
           && qs[k].questionOrder == k + 1
  {
    ShuffleFromPermutes(bank, choices, |bank| - 1);
    InsertQuestionsShape([], WithOrder(Shuffled(bank, choices)));
  }

  method SeedQuestions(db: Database, rows: seq<OrderedQuestion>)
    modifies db
    ensures db.questions == SeededQuestions(old(db.questions), rows)
    ensures db.users == old(db.users) && db.descriptions == old(db.descriptions)
    ensures db.responses == old(db.responses) && db.details == old(db.details)
  {
    if |db.questions| > 0 {
      return;
    }
    ghost var table := db.questions;
    for k := 0 to |rows|
      invariant db.questions == InsertQuestions(table, rows[..k])
      invariant db.users == old(db.users) && db.descriptions == old(db.descriptions)
      invariant db.responses == old(db.responses) && db.details == old(db.details)
    {
      assert rows[..k + 1][..k] == rows[..k];
      var q := rows[k];
      db.questions := db.questions + [Question(NextId(QuestionIds(db.questions)), q.giftCategory, q.questionText, q.questionOrder)];
    }
    assert rows[..|rows|] == rows;
  }

  /** The descriptions table after one insert per entry. */
  function InsertDescriptions(table: seq<GiftDescription>, rows: seq<SeedDescription>): seq<GiftDescription> {
    if rows == [] then table
    else
      var before := InsertDescriptions(table, rows[..|rows| - 1]);
      var d := rows[|rows| - 1];
      before + [GiftDescription(NextId(DescriptionIds(before)), d.giftCategory, d.description)]
  }

  lemma {:induction false} InsertDescriptionsShape(table: seq<GiftDescription>, rows: seq<SeedDescription>)
    ensures |InsertDescriptions(table, rows)| == |table| + |rows|
    ensures InsertDescriptions(table, rows)[..|table|] == table
    ensures forall j :: |table| <= j < |InsertDescriptions(table, rows)| ==>
      && InsertDescriptions(table, rows)[j].giftCategory == rows[j - |table|].giftCategory
      && InsertDescriptions(table, rows)[j].description == rows[j - |table|].description
  {
    if rows != [] {
      var front := rows[..|rows| - 1];
      InsertDescriptionsShape(table, front);
      var before := InsertDescriptions(table, front);
      var ds := InsertDescriptions(table, rows);
      forall j | |table| <= j < |ds|
        ensures ds[j].giftCategory == rows[j - |table|].giftCategory
        ensures ds[j].description == rows[j - |table|].description
      {
        if j < |before| {
          assert ds[j] == before[j];
          assert front[j - |table|] == rows[j - |table|];
        }
      }
      assert ds[..|table|] == before[..|table|];
    }
  }

  /** `seedGiftDescriptions` over the entries `rows`: nothing when the table has rows,
      otherwise every entry. */
  function SeededDescriptions(table: seq<GiftDescription>, rows: seq<SeedDescription>): seq<GiftDescription> {
    if |table| > 0 then table else InsertDescriptions(table, rows)
  }

  /** Seeding the descriptions a second time changes nothing; into an empty table it puts
      the entries in order. */
  lemma SeedDescriptionsIdempotent(table: seq<GiftDescription>, rows: seq<SeedDescription>)
    ensures SeededDescriptions(SeededDescriptions(table, rows), rows) == SeededDescriptions(table, rows)
    ensures table == [] ==> |SeededDescriptions(table, rows)| == |rows|
    ensures table == [] ==> forall k :: 0 <= k < |rows| ==>
      SeededDescriptions(table, rows)[k].giftCategory == rows[k].giftCategory
      && SeededDescriptions(table, rows)[k].description == rows[k].description
  {
    InsertDescriptionsShape(table, rows);
  }

  /** `seedGiftDescriptions` with the six descriptions. */
  method SeedGiftDescriptions(db: Database)
    modifies db
    ensures db.descriptions == SeededDescriptions(old(db.descriptions), GiftDescriptions)
    ensures db.users == old(db.users) && db.questions == old(db.questions)
    ensures db.responses == old(db.responses) && db.details == old(db.details)
  {
    SeedDescriptionRows(db, GiftDescriptions);
  }

  method SeedDescriptionRows(db: Database, rows: seq<SeedDescription>)
    modifies db
    ensures db.descriptions == SeededDescriptions(old(db.descriptions), rows)
    ensures db.users == old(db.users) && db.questions == old(db.questions)
    ensures db.responses == old(db.responses) && db.details == old(db.details)
  {
    if |db.descriptions| > 0 {
      return;
    }
    ghost var table := db.descriptions;
    for k := 0 to |rows|
      invariant db.descriptions == InsertDescriptions(table, rows[..k])
      invariant db.users == old(db.users) && db.questions == old(db.questions)
      invariant db.responses == old(db.responses) && db.details == old(db.details)
    {
      assert rows[..k + 1][..k] == rows[..k];
      var d := rows[k];
      db.descriptions := db.descriptions + [GiftDescription(NextId(DescriptionIds(db.descriptions)), d.giftCategory, d.description)];
    }
    assert rows[..|rows|] == rows;
  }

  /** `SELECT * FROM users WHERE role = 'admin'` finds a row. */
  predicate HasAdmin(users: seq<User>) {
    exists k :: 0 <= k < |users| && users[k].role == AdminRole
  }

  /** `seedDefaultAdmin`: nothing when some user is an admin, otherwise the default admin. */
  function SeededAdmin(users: seq<User>, now: int): seq<User> {
    if HasAdmin(users) then users
    else users + [User(NextId(UserIds(users)), DefaultAdminName, DefaultAdminEmail, AdminRole, now)]
  }

  /** After seeding some user is an admin, the users before are kept, and seeding again
      (at any time) changes nothing. */
  lemma SeedAdminIdempotent(users: seq<User>, now: int, later: int)
    ensures HasAdmin(SeededAdmin(users, now))
    ensures SeededAdmin(users, now)[..|users|] == users
    ensures SeededAdmin(SeededAdmin(users, now), later) == SeededAdmin(users, now)
  {
    if !HasAdmin(users) {
      assert SeededAdmin(users, now)[|users|].role == AdminRole;
    }
  }

  method SeedDefaultAdmin(db: Database, now: int)
    modifies db
    ensures db.users == SeededAdmin(old(db.users), now)
    ensures db.questions == old(db.questions) && db.descriptions == old(db.descriptions)
    ensures db.responses == old(db.responses) && db.details == old(db.details)
  {
    if HasAdmin(db.users) {
      return;
    }
    db.users := db.users + [User(NextId(UserIds(db.users)), DefaultAdminName, DefaultAdminEmail, AdminRole, now)];
  }
}
