/** The row transformation of the spreadsheet export: each fetched result becomes a name and
    one cell per gift column, holding the gift's percentage when it is among the result's top
    gifts and "NA" otherwise. Reading the JSON file and writing the workbook are left out.
    The definitions take the column list as a parameter; the export uses GiftColumns. */
module Excel {
  import opened Wrappers
  import opened Text

  /** One of a result's top gifts, as stored in the fetched JSON. */
  datatype TopGift = TopGift(category: string, percentage: int)

  /** One fetched result; a missing name is the empty string and missing top gifts the empty
      list. */
  datatype ResultEntry = ResultEntry(fullname: string, topGifts: seq<TopGift>)

  /** The gift columns, in sheet order. */
  const GiftColumns: seq<string> := [
    "Teaching", "Exhorting", "Prophesying", "Word of Wisdom", "Word of Knowledge", "Evangelism",
    "Service", "Help", "Leadership", "Administration", "Mercy", "Faith", "Giving", "Hospitality"
  ]

  const NameColumn := "Name"
  const Missing := "NA"

  /** The sheet has fourteen gift columns, none of them called `Name`. */
  lemma GiftColumnsFacts()
    ensures |GiftColumns| == 14 && NameColumn !in GiftColumns
  {
  }

  /** `['Name', ...giftColumns]`. */
  function Headers(columns: seq<string>): seq<string> {
    [NameColumn] + columns
  }

  /** `${percentage}%`. */
  function PercentCell(p: int): string {
    IntToString(p) + "%"
  }

  /** The percentage of the last top gift in category `c`: later entries overwrite earlier. */
  function LastPercentage(tops: seq<TopGift>, c: string): Option<int> {
    if tops == [] then None
    else if tops[|tops| - 1].category == c then Some(tops[|tops| - 1].percentage)
    else LastPercentage(tops[..|tops| - 1], c)
  }

  function GiftCell(tops: seq<TopGift>, c: string): string {
    match LastPercentage(tops, c)
    case None => Missing
    case Some(p) => PercentCell(p)
  }

  /** The object `transformUserData` builds: a key per header, a gift column holding that
      gift's cell and `Name` the name. */
  function Row(columns: seq<string>, entry: ResultEntry): map<string, string> {
    map c | c in Headers(columns) :: if c in columns then GiftCell(entry.topGifts, c) else entry.fullname
  }

  /** `transformUserData(user)` over the given columns: `Name` first, every gift column set to
      "NA", then each top gift of a known category overwriting its column. */
  method Transform(columns: seq<string>, entry: ResultEntry) returns (row: map<string, string>)
    ensures row == Row(columns, entry)
  {
    row := map[NameColumn := entry.fullname];
    for i := 0 to |columns|
      invariant forall c :: c in row <==> c == NameColumn || c in columns[..i]
      invariant forall c :: c in columns[..i] ==> row[c] == Missing
      invariant NameColumn !in columns[..i] ==> row[NameColumn] == entry.fullname
    {
      assert columns[..i + 1] == columns[..i] + [columns[i]];
      row := row[columns[i] := Missing];
    }
    assert columns[..|columns|] == columns;
    row := FillTopGifts(columns, entry, row);
  }

  /** The second loop of `transformUserData`. */
  method FillTopGifts(columns: seq<string>, entry: ResultEntry, initial: map<string, string>) returns (row: map<string, string>)
    requires forall c :: c in initial <==> c == NameColumn || c in columns
    requires forall c :: c in columns ==> initial[c] == Missing
    requires NameColumn !in columns ==> initial[NameColumn] == entry.fullname
    ensures row == Row(columns, entry)
  {
    row := initial;
    var tops := entry.topGifts;
    for k := 0 to |tops|
      invariant forall c :: c in row <==> c == NameColumn || c in columns
      invariant NameColumn !in columns ==> row[NameColumn] == entry.fullname
      invariant forall c :: c in columns ==> row[c] == GiftCell(tops[..k], c)
    {
      GiftCellStep(tops, k);
      var category := tops[k].category;
      if category in columns {
        row := row[category := PercentCell(tops[k].percentage)];
      }
    }
    assert tops[..|tops|] == tops;
    RowIs(columns, entry, row);
  }

  /** How the cells change as one more top gift is taken in. */
  lemma GiftCellStep(tops: seq<TopGift>, k: int)
    requires 0 <= k < |tops|
    ensures forall c :: GiftCell(tops[..k + 1], c)
                        == (if tops[k].category == c then PercentCell(tops[k].percentage) else GiftCell(tops[..k], c))
  {
    var t := tops[..k + 1];
    assert t[|t| - 1] == tops[k];
    assert t[..|t| - 1] == tops[..k];
    forall c ensures GiftCell(t, c) == (if tops[k].category == c then PercentCell(tops[k].percentage) else GiftCell(tops[..k], c)) {
      assert LastPercentage(t, c) == if tops[k].category == c then Some(tops[k].percentage) else LastPercentage(tops[..k], c);
    }
  }

  lemma RowIs(columns: seq<string>, entry: ResultEntry, row: map<string, string>)
    requires forall c :: c in row <==> c == NameColumn || c in columns
    requires NameColumn !in columns ==> row[NameColumn] == entry.fullname
    requires forall c :: c in columns ==> row[c] == GiftCell(entry.topGifts, c)
    ensures row == Row(columns, entry)
  {
    var r := Row(columns, entry);
    assert forall c :: c in Headers(columns) <==> c == NameColumn || c in columns;
    assert row.Keys == r.Keys;
  }

  /** `transformUserData(user)` with the sheet's gift columns. */
  method TransformUserData(entry: ResultEntry) returns (row: map<string, string>)
    ensures row == Row(GiftColumns, entry)
  {
    row := Transform(GiftColumns, entry);
  }

  /** `headers.map(header => row[header] || 'NA')`: a missing or empty value becomes "NA". */
  function DataRow(columns: seq<string>, row: map<string, string>): (r: seq<string>)
    ensures |r| == |Headers(columns)|
    ensures forall k :: 0 <= k < |r| ==> r[k] != ""
    ensures forall k :: 0 <= k < |r| ==>
              r[k] == Missing || (Headers(columns)[k] in row && r[k] == row[Headers(columns)[k]])
    ensures forall k :: 0 <= k < |r| && Headers(columns)[k] in row && row[Headers(columns)[k]] != "" ==>
              r[k] == row[Headers(columns)[k]]
  {
    var headers := Headers(columns);
    seq(|headers|, k requires 0 <= k < |headers| =>
      if headers[k] in row && row[headers[k]] != "" then row[headers[k]] else Missing)
  }

  /** The sheet body: one data row per fetched result, in order, each as wide as the header. */
  function DataRows(columns: seq<string>, entries: seq<ResultEntry>): (r: seq<seq<string>>)
    ensures |r| == |entries|
    ensures forall k :: 0 <= k < |r| ==> |r[k]| == |Headers(columns)|
  {
    seq(|entries|, k requires 0 <= k < |entries| => DataRow(columns, Row(columns, entries[k])))
  }

  // ---------------------------------------------------------------------------------------

  /** A category absent from the top gifts leaves its column "NA". */
  lemma {:induction false} AbsentIsMissing(tops: seq<TopGift>, c: string)
    requires forall k :: 0 <= k < |tops| ==> tops[k].category != c
    ensures GiftCell(tops, c) == Missing
  {
    if tops != [] {
      AbsentIsMissing(tops[..|tops| - 1], c);
    }
  }

  /** A category among the top gifts gets the percentage of its last occurrence. */
  lemma {:induction false} PresentIsLast(tops: seq<TopGift>, c: string, k: int)
    requires 0 <= k < |tops| && tops[k].category == c
    requires forall k' :: k < k' < |tops| ==> tops[k'].category != c
    ensures GiftCell(tops, c) == PercentCell(tops[k].percentage)
  {
    if k < |tops| - 1 {
      PresentIsLast(tops[..|tops| - 1], c, k);
    }
  }

  /** A top gift outside the gift columns changes nothing. */
  lemma UnknownGiftIgnored(columns: seq<string>, entry: ResultEntry, g: TopGift)
    requires g.category !in columns
    ensures Row(columns, ResultEntry(entry.fullname, entry.topGifts + [g])) == Row(columns, entry)
  {
    var tops := entry.topGifts + [g];
    assert tops[..|tops| - 1] == entry.topGifts;
    forall c | c in columns ensures GiftCell(tops, c) == GiftCell(entry.topGifts, c) {
    }
  }

  /** A gift cell is never empty, so `|| 'NA'` leaves it as it is. */
  lemma GiftCellNotEmpty(tops: seq<TopGift>, c: string)
    ensures GiftCell(tops, c) != ""
  {
  }

  /** The data row shows, under each gift column, that gift's cell. */
  lemma GiftColumnCell(columns: seq<string>, entry: ResultEntry, i: int)
    requires 0 <= i < |columns|
    ensures |DataRow(columns, Row(columns, entry))| == 1 + |columns|
    ensures DataRow(columns, Row(columns, entry))[i + 1] == GiftCell(entry.topGifts, columns[i])
  {
    assert Headers(columns)[i + 1] == columns[i];
    GiftCellNotEmpty(entry.topGifts, columns[i]);
  }

  /** Each data row has the name cell and one cell per gift column, in header order; the name
      cell is "NA" for an empty name. */
  lemma NameCell(columns: seq<string>, entry: ResultEntry)
    requires NameColumn !in columns
    ensures |DataRow(columns, Row(columns, entry))| == 1 + |columns|
    ensures DataRow(columns, Row(columns, entry))[0] == if entry.fullname == "" then Missing else entry.fullname
  {
    assert Headers(columns)[0] == NameColumn;
  }

  /** A gift column is "NA" when no top gift names it. */
  lemma AbsentGiftCell(columns: seq<string>, entry: ResultEntry, i: int)
    requires 0 <= i < |columns|
    requires forall k :: 0 <= k < |entry.topGifts| ==> entry.topGifts[k].category != columns[i]
    ensures DataRow(columns, Row(columns, entry))[i + 1] == Missing
  {
    GiftColumnCell(columns, entry, i);
    AbsentIsMissing(entry.topGifts, columns[i]);
  }

  /** Otherwise it shows the percentage of the last top gift that names it. */
  lemma PresentGiftCell(columns: seq<string>, entry: ResultEntry, i: int, k: int)
    requires 0 <= i < |columns| && 0 <= k < |entry.topGifts| && entry.topGifts[k].category == columns[i]
    requires forall k' :: k < k' < |entry.topGifts| ==> entry.topGifts[k'].category != columns[i]
    ensures DataRow(columns, Row(columns, entry))[i + 1] == PercentCell(entry.topGifts[k].percentage)
  {
    GiftColumnCell(columns, entry, i);
    PresentIsLast(entry.topGifts, columns[i], k);
  }

  /** `^\d{1,3}%$`. */
  predicate LooksLikePercent(s: string) {
    2 <= |s| <= 4 && s[|s| - 1] == '%' && forall k :: 0 <= k < |s| - 1 ==> IsDigit(s[k])
  }

  /** When every top gift's percentage lies in 0..999, every gift cell is "NA" or one to three
      digits followed by a percent sign. */
  lemma {:induction false} CellsLookLikePercentages(tops: seq<TopGift>, c: string)
    requires forall k :: 0 <= k < |tops| ==> 0 <= tops[k].percentage <= 999
    ensures GiftCell(tops, c) == Missing || LooksLikePercent(GiftCell(tops, c))
  {
    if tops != [] {
      var last := tops[|tops| - 1];
      if last.category == c {
        NatToStringShort(last.percentage);
        var s := PercentCell(last.percentage);
        assert s[..|s| - 1] == NatToString(last.percentage);
        forall k | 0 <= k < |s| - 1 ensures IsDigit(s[k]) {
          assert s[k] == NatToString(last.percentage)[k];
        }
      } else {
        CellsLookLikePercentages(tops[..|tops| - 1], c);
      }
    }
  }

  /** The same for the cells of a data row past the name. */
  lemma GiftCellsLookLikePercentages(columns: seq<string>, entry: ResultEntry, i: int)
    requires forall k :: 0 <= k < |entry.topGifts| ==> 0 <= entry.topGifts[k].percentage <= 999
    requires 0 <= i < |columns|
    ensures DataRow(columns, Row(columns, entry))[i + 1] == Missing
         || LooksLikePercent(DataRow(columns, Row(columns, entry))[i + 1])
  {
    GiftColumnCell(columns, entry, i);
    CellsLookLikePercentages(entry.topGifts, columns[i]);
  }
}
