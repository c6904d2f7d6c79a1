# Spiritual gifts backend — a Dafny model

The backend serves a spiritual-gifts questionnaire. Users sign up and log in with an e-mail
address. They answer thirty statements on a 1–5 scale and get back a ranking of six gifts.
Each gift has a score, a maximum, a percentage and a description. Administrators list the
results, filter them by gift, look at single responses, create further administrators and
list the users. On start-up the database is seeded: the shuffled question bank, the gift
descriptions and a default administrator. Two reporting scripts post-process fetched
results. One drops duplicate e-mail addresses and keeps the most recent entry. The other
turns each result into a spreadsheet row.

The model, module by module:

- `Wrappers`: `Option` and `Reply`. A `Reply` is an HTTP answer, either a status with a body or a status with an error message.
- `Text`: the JavaScript string operations the code relies on: `trim()` with the full ECMAScript white-space set, an ASCII `toLowerCase()` and decimal printing of integers.
- `StableSort`: `Array.prototype.sort` with a comparator that orders by a key, descending. It is defined as a stable insertion sort and proved to be a sorted, stable permutation. An in-place array version is proved equal to it.
- `Store`: the five tables as sequences of records inside a `Database` class. SERIAL ids are one more than the largest id so far. This module also holds the answer/question join that the routes run.
- `Scoring`: `calculateGifts`. The accumulation loop, the description map and the complete pipeline are methods. Each method is proved equal to a reference function, and the promised properties are lemmas about those functions. routes/quiz.js and routes/admin.js hold identical copies, and both are modelled by this one module.
- `Quiz`, `Auth`, `Admin`: the route handlers as methods on the `Database` or functions over its tables. The caller's id and role are inputs, and so is the current time.
- `Seed`: the Fisher–Yates shuffle on an array, driven by a supplied sequence of draws; the numbering of the shuffled bank; the three guarded seeding steps.
- `Excel`: `transformUserData`, the headers and the data rows of the spreadsheet export.
- `Dedup`: the e-mail de-duplication and the newest-first sort of the results fetch.

## Model

| member | source | states |
|---|---|---|
| Text.TrimStart | scripts/fetch-all-results.js:87 | the result is a suffix of the input, everything removed is white space, and the result does not start with white space |
| Text.TrimEnd | scripts/fetch-all-results.js:87 | the result is a prefix of the input, everything removed is white space, and the result does not end with white space |
| Text.Trim | scripts/fetch-all-results.js:87 | `trim()` is a middle slice of its input with only white space cut off before and after it; a non-empty result starts and ends with a non-space; the result is empty exactly when the input is all white space |
| Text.TrimOfTrimmed | scripts/fetch-all-results.js:87 | a string that neither starts nor ends with white space is its own trim |
| Text.ToLower | scripts/fetch-all-results.js:87 | `toLowerCase()` keeps the length, turns each ASCII capital into its small letter, keeps every other character, and leaves no capital |
| Text.TrimKeepsLower | scripts/fetch-all-results.js:87 | trimming a string with no capitals leaves none |
| Text.NatToString | scripts/create-excel-correct.js:45 | the printed form of a number is one or more decimal digits without a leading zero |
| Text.NatToStringRoundTrip | scripts/create-excel-correct.js:45 | reading the printed digits back gives the number |
| Text.IntToString | scripts/create-excel-correct.js:45 | a printed integer is a minus sign exactly when it is negative, then decimal digits, and reading it back gives the integer |
| Text.NatToStringShort | scripts/create-excel-correct.js:45 | a number below 1000 prints as one to three digits |
| StableSort.SortPermutes | routes/quiz.js:58 | sorting keeps every element, as often as it occurs |
| StableSort.SortOrders | routes/quiz.js:58 | sorted by `b.key - a.key`, the keys are non-increasing |
| StableSort.SortIsStable | routes/quiz.js:58 | two elements with equal keys keep their relative input order |
| StableSort.PermutationKeepsDistinct | scripts/fetch-all-results.js:104-106 | rearranging a sequence whose elements differ under a key leaves them different under it |
| StableSort.SortInPlace | routes/quiz.js:58 | sorting an array in place leaves in it the sorted sequence of its old contents |
| StableSort.SortOfSorted | routes/quiz.js:58 | sorting a sequence already in non-increasing key order leaves it unchanged |
| StableSort.StrictOrderUnique | routes/quiz.js:58 | with no key repeated, a collection has only one non-increasing arrangement: any such permutation of a strictly decreasing sequence equals it |
| StableSort.SameElementsSameMultiset | scripts/fetch-all-results.js:104-106 | two sequences without repeats that hold the same elements are permutations of each other |
| Store.NextId | routes/auth.js:40 | the id a SERIAL column assigns is at least 1 and larger than every id in the table |
| Store.MatchesSound | routes/quiz.js:119-122 | the join rows of one answer each come from a question with the referenced id |
| Store.MatchesComplete | routes/quiz.js:119-122 | every question with the referenced id gives a join row |
| Store.AnswerRows | routes/quiz.js:119-122 | reference definition of `response_details JOIN questions ... WHERE response_id = ?` in details-table order; Store.AnswerRowsSound and Store.AnswerRowsComplete state what it holds |
| Store.AnswerRowsSound | routes/quiz.js:119-122 | every join row comes from a detail of that response and the question it references |
| Store.AnswerRowsComplete | routes/quiz.js:119-122 | every detail of the response, with every question it references, gives a row |
| Store.OrderedAnswerRows | routes/quiz.js:190-196 | with `ORDER BY q.question_order` the rows are the join rows rearranged, nothing added or lost, by ascending question order |
| Scoring.Percentage | routes/quiz.js:53 | `Math.round(score / maxScore * 100)` is the integer nearest to 100·score/maxScore, with halves rounded up |
| Scoring.Accumulate | routes/quiz.js:34-46 | the `giftScores` loop keys one accumulator per category, in first-seen order; each holds the category's answer sum, five points per answer and the answer count |
| Scoring.BuildDescriptionMap | routes/quiz.js:67-71 | the `descMap` loop yields the category-to-description map, with a later row overriding an earlier one |
| Scoring.CalculateGifts | routes/quiz.js:31-81 | the engine returns exactly the reference gift list for the answer rows and the description table; the identical copy at routes/admin.js:12-62 is the same member, so both compute the same function |
| Scoring.CategoriesAreThoseAnswered | routes/quiz.js:34-46 | a category is listed if and only if some answer row carries it |
| Scoring.CategoriesDistinct | routes/quiz.js:35-42 | no category is listed twice |
| Scoring.CategoriesAreCounted | routes/quiz.js:43-45 | every listed category has at least one answer |
| Scoring.TotalOnScale | routes/quiz.js:43-44 | on the 1–5 scale a category's total lies between its answer count and five times that count |
| Scoring.DescriptionMissing | routes/quiz.js:76 | a category with no description row gets the empty string |
| Scoring.DescriptionIsLastRow | routes/quiz.js:68-71 | otherwise it gets the description of the last row with that category |
| Scoring.PercentageOnScale | routes/quiz.js:53 | when the score lies between count and 5·count, the percentage lies between 20 and 100 |
| Scoring.RankedEntries | routes/quiz.js:49-58 | each ranked entry is the score record of a listed, answered category |
| Scoring.RankedIsPermutation | routes/quiz.js:58 | the ranking is a rearrangement of the per-category scores, one per category |
| Scoring.CategoryHasGift | routes/quiz.js:34-55 | every category the answers mention has a gift |
| Scoring.GiftHasCategory | routes/quiz.js:34-55 | every gift's category is one the answers mention |
| Scoring.GiftsDistinct | routes/quiz.js:34-55 | no two gifts share a category |
| Scoring.GiftsMatchCategories | routes/quiz.js:34-55 | one gift per distinct answered category and no other, none repeated; no answers give no gifts |
| Scoring.GiftScoresAreSums | routes/quiz.js:34-77 | a gift's score is its category's answer sum, its maximum is 5 × its answer count, its percentage is the rounded ratio, and its description comes from the lookup |
| Scoring.GiftsRanked | routes/quiz.js:58 | the gifts come out by non-increasing percentage |
| Scoring.GiftsTiesKeepFirstSeenOrder | routes/quiz.js:58 | gifts with equal percentages keep the order in which their categories were first answered |
| Scoring.TallyAppend | routes/quiz.js:43-45 | a category's score and answer count over two runs of rows are the sums over each run |
| Scoring.TallyPermutation | routes/quiz.js:43-45 | a category's score and answer count do not depend on the order of the rows |
| Scoring.GiftIsSum | routes/quiz.js:34-77 | each gift is fixed by its category: that category's sum, five times its count, the rounded percentage and its description |
| Scoring.GiftsIncluded | routes/quiz.js:34-77 | every gift computed from some rows is also computed from any rearrangement of them |
| Scoring.GiftsPermutationInvariant | routes/quiz.js:34-77 | rearranging the answer rows leaves the set of gifts as it is, each once; only the ranking of tied percentages can move |
| Scoring.GiftsOnScale | routes/quiz.js:17-53 | with every answer on the advertised 1–5 scale, no gift scores over its maximum and every percentage lies in 20..100 |
| Quiz.ScaleIsOneToFive | routes/quiz.js:17-23 | the scale offers exactly the values 1 to 5 |
| Quiz.ListQuestions | routes/quiz.js:8-28 | the page holds every stored question, ordered by `question_order`, and carries the five-entry scale with its labels (values 1..5, see Quiz.ScaleIsOneToFive) and the tip |
| Quiz.InsertDetailsShape | routes/quiz.js:106-110 | one detail row is appended per submitted answer, in order, for the new response, and the old rows are kept |
| Quiz.InsertedRows | routes/quiz.js:118-123 | the join for a new response sees exactly the submitted answers |
| Quiz.FreshResponseUnreferenced | routes/quiz.js:95-103 | no stored detail refers to the id the new response receives |
| Quiz.ValidAfterSubmit | routes/quiz.js:95-110 | after the inserts every detail still belongs to a stored response |
| Quiz.Acceptable | routes/quiz.js:88 | the submission passes the guard exactly when `responses` is present, an array and not empty |
| Quiz.Submit | routes/quiz.js:84-146 | a missing, non-array or empty `responses` gives 400 and changes nothing; otherwise one response and one detail per answer are inserted, nothing else changes, and 201 carries the new id and the gifts of those answers |
| Quiz.FindVisible | routes/quiz.js:177-180 | a response is found if and only if one with that id belongs to the caller or the caller is `admin`, and what is found satisfies that condition |
| Quiz.GetResult | routes/quiz.js:172-219 | the result is returned if and only if the response exists and is the caller's or the caller is admin; otherwise 404 "Quiz result not found"; the answer carries the user and time of a response the caller may see, the rows ordered by question and their gifts |
| Quiz.ResultRowsAreIntended | routes/quiz.js:190-196 | the ordered join `/result/:id` reads for the response just submitted is the submitted answers' join sorted by question order |
| Quiz.InOrderIsIntended | routes/quiz.js:195 | answer rows already in question order come out of `ORDER BY q.question_order` unchanged |
| Quiz.UntiedGiftsAgree | routes/quiz.js:58 | when no two gifts tie on percentage, any rearrangement of the rows gives the same ranked gifts |
| Quiz.SubmitThenResult | routes/quiz.js:117-122 | `/result/:id` for the response `/submit` has just created shows the same gifts `/submit` answered with, each once; the two lists are equal when the answers were sent in question order or no two percentages tie |
| Quiz.TwoRowTally | routes/quiz.js:34-45 | two answers in two categories list those categories in row order, each with its own answer as sum and a count of one |
| Quiz.TwoRowTie | routes/quiz.js:58 | two equal answers in two categories tie, and the first row's category is ranked first |
| Quiz.TieRows | routes/quiz.js:117-122 | the unordered join meets the answers in the order they were sent |
| Quiz.SubmitResultTieCounterexample | routes/quiz.js:117-122 | with two tied categories sent against question order, `/submit` ranks B first and `/result/:id` ranks A first |
| Quiz.IntendedSubmitThenResult | routes/quiz.js:117-122 | scored from its join ordered by question, `/submit` answers with exactly the gifts `/result/:id` then shows, ties included |
| Auth.EmailCheckIsPattern | routes/auth.js:16-19 | the structural check accepts exactly the strings matching `^[^\s@]+@[^\s@]+\.[^\s@]+$` |
| Auth.FindByEmail | routes/auth.js:22 | the lookup finds nothing if and only if no user has the e-mail; what it finds is a user with it |
| Auth.RegistrationError | routes/auth.js:11-29 | the checks pass if and only if both fields are present, the e-mail matches the pattern and is not taken; otherwise they give the three messages, in order |
| Auth.AppendKeepsEmailsUnique | routes/auth.js:27-34 | adding a user with a new e-mail keeps e-mails unique |
| Auth.Register | routes/auth.js:8-55 | on a failed check 400 with that message and nothing changes; otherwise exactly one user is appended with the next id, the given role and the time, and returned; e-mail uniqueness is preserved |
| Auth.Signup | routes/auth.js:8-55 | as Register, with role `user`, answering 201 |
| Auth.Login | routes/auth.js:58-93 | no e-mail gives 400, an unknown one 404 "No user found, please Sign up"; an existing one gives 200 with the id, name, e-mail and role of the first stored user holding it |
| Auth.LoginFindsTheUser | routes/auth.js:66-91 | when e-mails are unique, login returns exactly the user holding the e-mail |
| Auth.SignupThenLogin | routes/auth.js:32-91 | signing up and then logging in with the same e-mail returns the account just created |
| Admin.ListResults | routes/admin.js:90-181 | the handler's answer is the reference listing: the rows kept by the filter, in order, each with its top gifts |
| Admin.NoFilterKeepsAll | routes/admin.js:96-132 | without a filter every listed row is returned, in input order, with the first min(3, n) gifts of its ranking |
| Admin.ListedAreKept | routes/admin.js:133-178 | with a filter a row is returned if and only if some gift of its category (compared case-insensitively) reaches 60%, and each entry carries its own top gifts |
| Admin.ListedKeepsOrder | routes/admin.js:171-174 | the returned entries keep the relative order of their rows |
| Admin.TopGifts | routes/admin.js:116 | `gifts.slice(0, 3)` is the first gifts in order: three of them, or all when there are fewer |
| Admin.HasGift | routes/admin.js:151-154 | reference definition of the `some` test: a gift whose lower-cased category equals the lower-cased filter and whose percentage is at least 60 |
| Admin.GiftFilterIgnoresCase | routes/admin.js:151-154 | the gift filter compares `toLowerCase()` of both sides, so two spellings of a filter that lower-case alike keep the same rows |
| Admin.TopGiftsDominate | routes/admin.js:116 | `topGifts` is the first min(3, n) gifts, and no gift left out has a higher percentage than a kept one |
| Admin.FindUser | routes/admin.js:188-195 | the user is found if and only if one has that id |
| Admin.FindOwnedResponse | routes/admin.js:198-208 | the response is found if and only if one has that id and belongs to that user |
| Admin.UserResponse | routes/admin.js:184-247 | 404 "No user found, please Sign up" when the user is absent, 404 "Quiz response not found" when the response is not that user's; otherwise the user, the response time, the ordered rows and their gifts |
| Admin.CreateAdmin | routes/admin.js:282-328 | the same checks as signup; a rejected request changes nothing, an accepted one appends one user with role `admin` |
| Admin.QuizCountIsCardinality | routes/admin.js:359-370 | `quiz_count` is the number of stored responses with that user id |
| Admin.Selected | routes/admin.js:338-341 | the positions of the rows `AND role = ?` keeps are exactly the users with that role (all users without a filter), each once, ascending |
| Admin.SelectedCount | routes/admin.js:338-341 | as many positions are selected as users pass the filter |
| Admin.UserEntries | routes/admin.js:351-374 | the k-th entry is the k-th passing user, in table order, with its quiz count: one entry per passing user, no repeats |
| Admin.ListUsers | routes/admin.js:331-387 | `users` holds one entry per user passing the role filter, in table order; `total` is their number; with a role filter every entry has that role; every quiz count is the number of the user's responses |
| Seed.SwapPermutes | database/seed.js:48 | a swap keeps the elements |
| Seed.ShuffleFromPermutes | database/seed.js:44-51 | the shuffle returns a permutation of its input |
| Seed.ShuffleFromFreezesSuffix | database/seed.js:46-49 | once the step for index `i` is done, positions above `i` are never written again |
| Seed.Shuffled | database/seed.js:44-51 | the shuffled list has the input's length and the same elements, as often |
| Seed.ShuffleArray | database/seed.js:44-51 | the shuffle on a fresh copy yields the reference shuffle for the given draws, and the argument array is left unchanged |
| Seed.OrdersAreOneToN | database/seed.js:54-57 | the assigned orders are strictly increasing in list order, all lie in 1..n, and each of 1..n is used |
| Seed.ShuffleAndNumber | database/seed.js:54-57 | the numbered list is the shuffled list with orders index+1 |
| Seed.ShuffledQuestions | database/seed.js:54-57 | the same for the thirty-question bank |
| Seed.InsertQuestionsShape | database/seed.js:75-79 | one question row is appended per entry, in order, with its columns, and the old rows are kept |
| Seed.SeedQuestionsIdempotent | database/seed.js:68-79 | seeding the questions twice equals seeding them once |
| Seed.SeededBank | database/seed.js:54-79 | seeded into an empty table, the questions are the shuffled bank with orders 1..n |
| Seed.SeedQuestions | database/seed.js:59-91 | a non-empty questions table is left as it is, an empty one receives every entry; other tables are unchanged |
| Seed.InsertDescriptionsShape | database/seed.js:136-140 | one description row is appended per entry, in order, and the old rows are kept |
| Seed.SeedDescriptionsIdempotent | database/seed.js:129-140 | seeding the descriptions twice equals seeding them once; an empty table receives every entry |
| Seed.SeedDescriptionRows | database/seed.js:120-152 | a non-empty descriptions table is left as it is, an empty one receives every entry; other tables are unchanged |
| Seed.SeedGiftDescriptions | database/seed.js:120-152 | the same with the six gift descriptions |
| Seed.SeedAdminIdempotent | database/seed.js:157-178 | after seeding some user is an admin, earlier users are kept, and seeding again changes nothing |
| Seed.SeedDefaultAdmin | database/seed.js:154-191 | the users table becomes the seeded one (the default admin appended only when no admin exists); other tables are unchanged |
| Excel.GiftColumnsFacts | scripts/create-excel-correct.js:10-25 | there are fourteen gift columns, none called `Name` |
| Excel.Transform | scripts/create-excel-correct.js:30-51 | both loops together build the reference row: `Name` holds the name, and every gift column holds its cell |
| Excel.FillTopGifts | scripts/create-excel-correct.js:41-48 | the second loop turns the all-`NA` row into the reference row |
| Excel.TransformUserData | scripts/create-excel-correct.js:30-51 | the same over the sheet's fourteen columns |
| Excel.AbsentIsMissing | scripts/create-excel-correct.js:36-38 | a category no top gift names stays `NA` |
| Excel.PresentIsLast | scripts/create-excel-correct.js:41-48 | a named category shows the percentage of its last top gift, followed by `%` |
| Excel.UnknownGiftIgnored | scripts/create-excel-correct.js:44 | a top gift outside the gift columns changes nothing |
| Excel.GiftCellNotEmpty | scripts/create-excel-correct.js:61 | a gift cell is never empty, so the `NA` fallback of the data row keeps it |
| Excel.GiftColumnCell | scripts/create-excel-correct.js:59-62 | a data row has 1 + (number of columns) cells, and the cell after the name under a gift column is that column's cell |
| Excel.NameCell | scripts/create-excel-correct.js:59-62 | the first cell is the name, or `NA` when the name is empty |
| Excel.AbsentGiftCell | scripts/create-excel-correct.js:36-38 | in the data row a gift column no top gift names is `NA` |
| Excel.PresentGiftCell | scripts/create-excel-correct.js:41-48 | in the data row a named gift column shows the last matching percentage |
| Excel.DataRow | scripts/create-excel-correct.js:59-61 | one cell per header; a header whose value in the row is present and non-empty shows that value, and every other cell is the `'NA'` fallback, so no cell is empty |
| Excel.DataRows | scripts/create-excel-correct.js:54-62 | one data row per fetched result, each as wide as the headers |
| Excel.CellsLookLikePercentages | scripts/create-excel-correct.js:45 | with percentages in 0..999 every gift cell is `NA` or one to three digits and `%` |
| Excel.GiftCellsLookLikePercentages | scripts/create-excel-correct.js:45 | the same for the gift cells of a data row |
| Dedup.Key | scripts/fetch-all-results.js:87 | the key `email.toLowerCase().trim()` is no longer than the address, holds no capital and neither starts nor ends with white space |
| Dedup.KeyIsNormalForm | scripts/fetch-all-results.js:87 | normalising a key again gives the same key |
| Dedup.Find | scripts/fetch-all-results.js:89-92 | `has`/`get`: the position of the entry with the key, or -1 exactly when no entry has it |
| Dedup.Absorb | scripts/fetch-all-results.js:86-101 | one pass of the loop keeps the map and its key order in step with the reference kept entries |
| Dedup.RemoveDuplicates | scripts/fetch-all-results.js:84-108 | the cleaned list is the kept entries sorted newest first, and `duplicatesRemoved` is input length minus output length |
| Dedup.KeptShape | scripts/fetch-all-results.js:84-101 | the map holds no more entries than the input, one per key, each taken from the input |
| Dedup.KeptCovers | scripts/fetch-all-results.js:86-90 | every key of the input has an entry in the map |
| Dedup.KeptIsLatest | scripts/fetch-all-results.js:92-99 | the kept entry of a key is at least as recent as every input entry with that key |
| Dedup.KeptIsFirstSeen | scripts/fetch-all-results.js:97 | the kept entry comes before every input entry with its key that is as recent |
| Dedup.CleanedUnique | scripts/fetch-all-results.js:84-106 | after de-duplication no two entries share a lower-cased, trimmed e-mail |
| Dedup.CleanedFromInput | scripts/fetch-all-results.js:104-106 | every output entry is an input entry |
| Dedup.CleanedCovers | scripts/fetch-all-results.js:86-106 | every normalised e-mail of the input appears in the output |
| Dedup.CleanedKeepsFirstLatest | scripts/fetch-all-results.js:89-99 | the kept entry has the latest `created_at` of its e-mail, and on a tie it is the first one seen |
| Dedup.CleanedNewestFirst | scripts/fetch-all-results.js:104-106 | the output is non-increasing in `created_at` |
| Dedup.DuplicatesRemovedNonNegative | scripts/fetch-all-results.js:108 | `duplicatesRemoved` is never negative |

## Left out

- Express routing, the middleware and the lazy database initialisation in server.js: the caller's id and role are inputs to the route models.
- JWT signing in `/signup` and `/login` (routes/auth.js:41-45, routes/auth.js:76-80): the token comes from a foreign library and is not part of any reply model.
- Database errors and every 500 answer: the model's tables cannot fail.
- The SQL dialect: the routes are modelled with SQLite's semantics, the engine their `db.get`, `db.run` and `this.lastID` calls address. In `? = "admin"` the double-quoted word is read as a string, as SQLite does when no column has that name. The PostgreSQL DDL of database/init.js, where it would name a column, is not what the model follows.
- The row order of the answer joins (routes/quiz.js:118-122, routes/admin.js:99-105): their SQL has no ORDER BY, and the model takes the order of the details table, that is insertion order. That order decides how gifts with equal percentages are ranked (Scoring.GiftsTiesKeepFirstSeenOrder). Because of it, `/submit` and `/result/:id` can rank tied gifts differently (see "## Findings").
- The SQL engine: `LIKE` search in `/results` and `/users`, `ORDER BY created_at`, `DISTINCT` and collation. The `/results` listing (routes/admin.js:68-88) and the `/users` row order are inputs; `LIKE` search on `/users` is not modelled.
- The `GROUP BY` count of `/history` (routes/quiz.js:149-169) and the gift-categories and gift-descriptions routes (routes/admin.js:250-279): plain SQL reads with no logic of their own.
- The DDL in database/init.js. This includes the UNIQUE e-mail constraint, so an insert that would violate it (the default admin's e-mail already taken by a non-admin user) still succeeds in the model.
- Transactions and `db.serialize`: no all-or-nothing claim is made. The `Promise.all` fan-outs in routes/admin.js are modelled as sequential maps.
- Scoring.Percentage: exact integer round-half-up of 100·score/maxScore; the floating-point quotient of `Math.round` can fall on the other side of an exact .5.
- `averageScore` with `toFixed(2)`: floating-point formatting.
- `Date` parsing: `created_at` is an integer, and an unparsable date (compared as `NaN` in the script) is not modelled.
- `Math.random`: the draws of the shuffle are the supplied sequence `choices`, with `0 <= choices[i] <= i`.
- Unicode case mapping: `toLowerCase` (Text.LowerChar) maps only ASCII letters. White space for `\s` and `trim()` is the complete ECMAScript set.
- Body fields of `/signup`, `/login` and `/create-admin` (routes/auth.js, routes/admin.js): every field is a string, and an absent, `null` or empty field is the empty string. A truthy non-string such as `email: 123`, which `emailRegex.test` would coerce to `"123"`, is not modelled.
- The `responseId` echoed by `/result/:responseId` (routes/quiz.js:173, routes/quiz.js:208) and by the admin response route is the path-parameter string in the source and an integer in the model. The lookup is unaffected, since SQLite's integer affinity compares `"5"` as 5; only the JSON type of the echoed field differs.
- Quiz.Submit: answer items are well-formed pairs of integers, and a non-integer or missing `question_id` or `answer_value` is not modelled. `comments` is never stored, as in the code.
- The columns of the join rows: Store.AnswerRow carries the answer, category, question text, question id and question order, the columns the admin response route selects (routes/admin.js:212). `/result/:id` selects no `question_order` (routes/quiz.js:191), and the submit and scoring joins select fewer columns still (routes/quiz.js:119, routes/admin.js:101). Scoring reads only the answer and the category, so the one visible difference is that the model's `/result/:id` rows (Quiz.ResultView) also carry `questionOrder`.
- JavaScript object keys: `giftScores` and `descMap` are modelled as maps with insertion order. A category such as `"__proto__"` or an integer-like name (which JavaScript would enumerate first) is not treated specially.
- The fetch loop, the pagination with `setTimeout`, the spreadsheet and file I/O of the scripts, the print scripts and the HTTP test clients.

## Findings

| source | as written | input that shows it | evidently intended | confidence | as-written member | corrected member |
|---|---|---|---|---|---|---|
| routes/quiz.js:117-122 | `/submit` scores its join without `ORDER BY`, so gifts with equal percentages are ranked in the order the answers were sent; `/result/:id` (routes/quiz.js:190-196) scores the same answers ordered by `question_order`, so the two can list the same gifts in different orders | question 1 (category A, order 1) and question 2 (category B, order 2), answers `[{question_id: 2, answer_value: 5}, {question_id: 1, answer_value: 5}]`: `/submit` ranks B first, `/result/:id` of the new response ranks A first | the result shown right after submitting equals the one read back later | medium, not executed | Quiz.SubmitResultTieCounterexample | Quiz.IntendedSubmitThenResult |

Quiz.Submit itself keeps the route as written. Quiz.SubmitThenResult proves what the code does guarantee: the same gifts, and the same order unless a tie meets answers sent out of question order. Quiz.IntendedSubmitRows scores the submitted answers joined in question order. Quiz.IntendedSubmitThenResult proves that these gifts equal what `/result/:id` shows, ties included.
