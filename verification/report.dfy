/** Report preparation (advanced_export_professional.js): the de-duplication of plate
    sightings into one row per plate per day, and the report number. */
module Report {
  import opened Values
  import opened Seqs
  import opened Grouping

  /** `${item.plateNumber}_${date}`, where `day` gives the UTC calendar day
      (`toISOString().split('T')[0]`) of each item's timestamp. */
  function SightingKey(day: Fields -> string): Fields -> string
  {
    item => KeyOf(Get(item, "plateNumber")) + "_" + day(item)
  }

  /** `item.fileName || ''`. */
  function FileNameOf(item: Fields): Value
  {
    OrElse(Get(item, "fileName"), Str(""))
  }

  /** One row of the report: the first sighting's fields (the spread), how many images
      were merged into it, their file names and the sightings themselves. */
  datatype Row = Row(fields: Fields, imageCount: nat, images: seq<Value>, allData: seq<Fields>)

  /** The row a group of sightings becomes. */
  function ToRow(g: Group<string, Fields>): (r: Row)
    requires g.count == |g.members| >= 1
    ensures r.imageCount == |r.allData| == |r.images| == g.count && r.allData == g.members
    ensures r.fields == g.members[0]
    ensures forall j :: 0 <= j < |r.images| ==> r.images[j] == FileNameOf(r.allData[j])
  {
    Row(g.members[0], g.count, seq(|g.members|, j requires 0 <= j < |g.members| => FileNameOf(g.members[j])), g.members)
  }

  /** Total number of images over the rows. */
  function TotalImages(rows: seq<Row>): nat
  {
    if rows == [] then 0 else rows[0].imageCount + TotalImages(rows[1..])
  }

  /** groupByPlateAndDate: one row per distinct key, in order of first occurrence; each
      row holds, in input order, exactly the sightings with its key.

      The object the code accumulates into lists its keys in insertion order because a
      key ending in a calendar day ("YYYY-MM-DD") is neither an array index nor the
      name of an Object.prototype member; the requires says the days have that shape. */
  function GroupByPlateAndDate(data: seq<Fields>, day: Fields -> string): (r: seq<Row>)
    requires forall i :: 0 <= i < |data| ==> '-' in day(data[i])
    ensures |r| == |DistinctKeys(data, SightingKey(day))| <= |data|
    ensures forall i :: 0 <= i < |r| ==>
              r[i].allData == WithKey(data, SightingKey(day), DistinctKeys(data, SightingKey(day))[i])
    ensures forall i :: 0 <= i < |r| ==>
              r[i].imageCount == |r[i].allData| == |r[i].images| >= 1 && r[i].fields == r[i].allData[0]
    ensures forall i, j :: 0 <= i < |r| && 0 <= j < |r[i].images| ==> r[i].images[j] == FileNameOf(r[i].allData[j])
  {
    var key := SightingKey(day);
    var gs := GroupBy(data, key);
    GroupsNonEmpty(data, key);
    Rows(gs)
  }

  lemma GroupsNonEmpty(data: seq<Fields>, key: Fields -> string)
    ensures forall i :: 0 <= i < |GroupBy(data, key)| ==> GroupBy(data, key)[i].count >= 1
  {
    forall i | 0 <= i < |GroupBy(data, key)|
      ensures GroupBy(data, key)[i].count >= 1
    {
      GroupByNonEmpty(data, key, i);
    }
  }

  /** The rows of a list of groups, one for one. */
  function Rows(gs: seq<Group<string, Fields>>): (r: seq<Row>)
    requires forall i :: 0 <= i < |gs| ==> gs[i].count == |gs[i].members| >= 1
    ensures |r| == |gs|
    ensures forall i :: 0 <= i < |r| ==> r[i].allData == gs[i].members && r[i].imageCount == gs[i].count
    ensures forall i :: 0 <= i < |r| ==>
              r[i].imageCount == |r[i].allData| == |r[i].images| >= 1 && r[i].fields == r[i].allData[0]
    ensures forall i, j :: 0 <= i < |r| && 0 <= j < |r[i].images| ==> r[i].images[j] == FileNameOf(r[i].allData[j])
  {
    seq(|gs|, i requires 0 <= i < |gs| => ToRow(gs[i]))
  }

  /** The image counts add up to the number of sightings: each is in exactly one row. */
  lemma ImagesAddUp(data: seq<Fields>, day: Fields -> string)
    requires forall i :: 0 <= i < |data| ==> '-' in day(data[i])
    ensures TotalImages(GroupByPlateAndDate(data, day)) == |data|
  {
    var key := SightingKey(day);
    var gs := GroupBy(data, key);
    var rows := GroupByPlateAndDate(data, day);
    GroupByCountsSum(data, key);
    TotalMatchesCounts(rows, gs);
  }

  lemma {:induction false} TotalMatchesCounts(rows: seq<Row>, gs: seq<Group<string, Fields>>)
    requires |rows| == |gs|
    requires forall i :: 0 <= i < |rows| ==> rows[i].imageCount == gs[i].count
    ensures TotalImages(rows) == SumCounts(gs)
    decreases |rows|
  {
    if rows != [] {
      TotalMatchesCounts(rows[1..], gs[1..]);
    }
  }

  /** Rows come in order of their key's first sighting. */
  lemma RowsInFirstSightingOrder(data: seq<Fields>, day: Fields -> string)
    requires forall i :: 0 <= i < |data| ==> '-' in day(data[i])
    ensures var rows := GroupByPlateAndDate(data, day);
            var key := SightingKey(day);
            forall i, j :: 0 <= i < j < |rows| ==>
              FirstIndex(data, key, key(rows[i].fields)) < FirstIndex(data, key, key(rows[j].fields))
  {
    var rows := GroupByPlateAndDate(data, day);
    var key := SightingKey(day);
    DistinctKeysOrdered(data, key);
    RowKeys(data, day);
  }

  /** A row's key is the key of its first sighting. */
  lemma RowKeys(data: seq<Fields>, day: Fields -> string)
    requires forall i :: 0 <= i < |data| ==> '-' in day(data[i])
    ensures var rows := GroupByPlateAndDate(data, day);
            forall i :: 0 <= i < |rows| ==> SightingKey(day)(rows[i].fields) == DistinctKeys(data, SightingKey(day))[i]
  {
    var rows := GroupByPlateAndDate(data, day);
    var key := SightingKey(day);
    var ks := DistinctKeys(data, key);
    forall i | 0 <= i < |rows|
      ensures key(rows[i].fields) == ks[i]
    {
      assert rows[i].allData[0] in WithKey(data, key, ks[i]);
    }
  }

  /** Every sighting lands in some row. */
  lemma EverySightingHasRow(data: seq<Fields>, day: Fields -> string)
    requires forall i :: 0 <= i < |data| ==> '-' in day(data[i])
    ensures var rows := GroupByPlateAndDate(data, day);
            forall n :: 0 <= n < |data| ==> exists i :: 0 <= i < |rows| && data[n] in rows[i].allData
  {
    var rows := GroupByPlateAndDate(data, day);
    forall n | 0 <= n < |data|
      ensures exists i :: 0 <= i < |rows| && data[n] in rows[i].allData
    {
      var i := SightingRow(data, day, n);
    }
  }

  /** The row sighting n lands in. */
  lemma SightingRow(data: seq<Fields>, day: Fields -> string, n: int) returns (i: int)
    requires forall i :: 0 <= i < |data| ==> '-' in day(data[i])
    requires 0 <= n < |data|
    ensures 0 <= i < |GroupByPlateAndDate(data, day)| && data[n] in GroupByPlateAndDate(data, day)[i].allData
  {
    var key := SightingKey(day);
    var ks := DistinctKeys(data, key);
    i :| 0 <= i < |ks| && ks[i] == key(data[n]);
    assert data[n] in WithKey(data, key, ks[i]);
  }

  /** The plates shown in the summary: `new Set(groupedData.map(d => d.plateNumber))`. */
  function DistinctPlates(rows: seq<Row>): set<Option<Value>>
  {
    set i | 0 <= i < |rows| :: Get(rows[i].fields, "plateNumber")
  }

  /** There are never more distinct plates than rows. */
  lemma {:induction false} PlatesAtMostRows(rows: seq<Row>)
    ensures |DistinctPlates(rows)| <= |rows|
    decreases |rows|
  {
    if rows != [] {
      var init := rows[..|rows| - 1];
      PlatesAtMostRows(init);
      assert DistinctPlates(rows) == DistinctPlates(init) + {Get(rows[|rows| - 1].fields, "plateNumber")} by {
        assert forall i :: 0 <= i < |init| ==> init[i] == rows[i];
      }
    }
  }

  // ---------------------------------------------------------------- report number

  /** `String(n).padStart(width, '0')`. */
  function Padded(n: nat, width: nat): string
  {
    PadStart(NatToString(n), width, '0')
  }

  predicate AllDigits(s: string)
  {
    forall i :: 0 <= i < |s| ==> '0' <= s[i] <= '9'
  }

  /** A number below 100 (below 1000) padded to two (three) places has exactly that many
      digits and reads back to itself. */
  lemma PaddedFacts(n: nat, width: nat)
    requires (width == 2 && n < 100) || (width == 3 && n < 1000)
    ensures |Padded(n, width)| == width && AllDigits(Padded(n, width))
    ensures DigitsValue(Padded(n, width)) == n
  {
    NatToStringLength(n);
    if n >= 10 {
      if n >= 100 {
        assert DigitCount(n / 100) == 1;
      }
      assert DigitCount(n / 10) <= 2;
    }
    DigitsValueOfPadded(n, width);
  }

  /** A year from 1000 to 9999 is written with four digits and reads back to itself. */
  lemma FourDigitYear(year: int)
    ensures 1000 <= year <= 9999 ==>
              |IntToString(year)| == 4 && AllDigits(IntToString(year)) && DigitsValue(IntToString(year)) == year
  {
    if 1000 <= year <= 9999 {
      NatToStringLength(year);
      var a := year / 10;
      var b := a / 10;
      var c := b / 10;
      assert 1 <= c <= 9;
      assert DigitCount(c) == 1 && DigitCount(b) == 2 && DigitCount(a) == 3;
      DigitsValueOfNatToString(year);
    }
  }

  /** generateReportNumber: "TR-", the year, the zero-padded month and day, "-", and the
      random draw `Math.floor(Math.random() * 1000)` padded to three digits. */
  function ReportNumber(year: int, month: int, day: int, draw: int): (r: string)
    requires 1 <= month <= 12 && 1 <= day <= 31 && 0 <= draw < 1000
    ensures |r| >= 12 && r[..3] == "TR-" && r[|r| - 4] == '-'
    ensures 1000 <= year <= 9999 ==> |r| == 15
  {
    var y := IntToString(year);
    FourDigitYear(year);
    PaddedFacts(month, 2);
    PaddedFacts(day, 2);
    PaddedFacts(draw, 3);
    var tail := y + Padded(month, 2) + Padded(day, 2) + "-" + Padded(draw, 3);
    assert |IntToString(year)| >= 1;
    assert tail[|tail| - 4] == '-';
    "TR-" + tail
  }

  /** Reads a report number back into year, month, day and draw. */
  function ParseReportNumber(s: string): (r: Option<(int, int, int, int)>)
    ensures r.Some? ==> |s| == 15 && s[..3] == "TR-" && s[11] == '-'
  {
    if |s| == 15 && s[..3] == "TR-" && s[11] == '-' && AllDigits(s[3..11]) && AllDigits(s[12..]) then
      assert AllDigits(s[3..7]) && AllDigits(s[7..9]) && AllDigits(s[9..11]) by {
        assert forall i :: 3 <= i < 11 ==> s[i] == s[3..11][i - 3];
      }
      Some((DigitsValue(s[3..7]), DigitsValue(s[7..9]), DigitsValue(s[9..11]), DigitsValue(s[12..])))
    else None
  }

  /** The fields of a report number sit at fixed places. */
  lemma Layout(y: string, m: string, d: string, n: string)
    requires |y| == 4 && |m| == 2 && |d| == 2 && |n| == 3
    ensures var r := "TR-" + (y + m + d + "-" + n);
            |r| == 15 && r[..3] == "TR-" && r[11] == '-' &&
            r[3..7] == y && r[7..9] == m && r[9..11] == d && r[12..] == n && r[3..11] == y + m + d
  {
  }

  lemma AllDigitsJoin(a: string, b: string)
    requires AllDigits(a) && AllDigits(b)
    ensures AllDigits(a + b)
  {
    ConcatIndex(a, b);
  }

  lemma ParseLayout(y: string, m: string, d: string, n: string)
    requires |y| == 4 && |m| == 2 && |d| == 2 && |n| == 3
    requires AllDigits(y) && AllDigits(m) && AllDigits(d) && AllDigits(n)
    ensures ParseReportNumber("TR-" + (y + m + d + "-" + n)) ==
            Some((DigitsValue(y), DigitsValue(m), DigitsValue(d), DigitsValue(n)))
  {
    Layout(y, m, d, n);
    AllDigitsJoin(y, m);
    AllDigitsJoin(y + m, d);
  }

  /** For a four-digit year the report number reads back to the date and the draw. */
  lemma ReportNumberRoundTrip(year: int, month: int, day: int, draw: int)
    requires 1000 <= year <= 9999 && 1 <= month <= 12 && 1 <= day <= 31 && 0 <= draw < 1000
    ensures ParseReportNumber(ReportNumber(year, month, day, draw)) == Some((year, month, day, draw))
  {
    FourDigitYear(year);
    PaddedFacts(month, 2);
    PaddedFacts(day, 2);
    PaddedFacts(draw, 3);
    ParseLayout(IntToString(year), Padded(month, 2), Padded(day, 2), Padded(draw, 3));
  }

  /** Two report numbers of four-digit years are equal only for the same date and draw. */
  lemma ReportNumberInjective(y1: int, m1: int, d1: int, n1: int, y2: int, m2: int, d2: int, n2: int)
    requires 1000 <= y1 <= 9999 && 1 <= m1 <= 12 && 1 <= d1 <= 31 && 0 <= n1 < 1000
    requires 1000 <= y2 <= 9999 && 1 <= m2 <= 12 && 1 <= d2 <= 31 && 0 <= n2 < 1000
    requires ReportNumber(y1, m1, d1, n1) == ReportNumber(y2, m2, d2, n2)
    ensures y1 == y2 && m1 == m2 && d1 == d2 && n1 == n2
  {
    ReportNumberRoundTrip(y1, m1, d1, n1);
    ReportNumberRoundTrip(y2, m2, d2, n2);
  }
}
