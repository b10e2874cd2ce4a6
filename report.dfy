/**
 * `generate_and_send_report`: the whole table grouped by `profile_name`
 * (pandas `groupby(...).agg(...)`, whose groups come out sorted by key), one
 * summary line per group, and the one message sent to the admin.
 */
module Report {
  import opened Wrappers
  import opened Text
  import opened Store

  /** The separator of the `dates` and `videos` cells. */
  const Separator: string := " | "

  /** One row of the exported table: profile_name, total_participations, dates, videos. */
  datatype Row = Row(profileName: string, participations: nat, dates: string, titles: string)

  /** One line "*name*: n participações" of the summary message. */
  datatype SummaryLine = SummaryLine(profileName: string, participations: nat)

  /** What the admin is sent: the "no records" notice or the summary with the spreadsheet link. */
  datatype Notice = NoRecordsNotice | SummaryNotice(lines: seq<SummaryLine>)

  /** The outcome of one report run: the table written to both export files, if any, and the messages sent. */
  datatype ReportRun = ReportRun(exported: Option<seq<Row>>, sent: seq<Notice>)

  /** The records of one `profile_name` group, in table order. */
  function Group(rs: seq<Record>, name: string): (g: seq<Record>)
    ensures |g| <= |rs|
    ensures forall i | 0 <= i < |g| :: g[i].profileName == name
  {
    if rs == [] then []
    else
      var last := rs[|rs| - 1];
      Group(rs[..|rs| - 1], name) + (if last.profileName == name then [last] else [])
  }

  /** A group holds exactly the records with that profile name. */
  lemma {:induction false} GroupMembers(rs: seq<Record>, name: string)
    ensures forall x :: x in Group(rs, name) <==> x in rs && x.profileName == name
  {
    if rs != [] {
      var init, last := rs[..|rs| - 1], rs[|rs| - 1];
      GroupMembers(init, name);
      assert rs == init + [last];
    }
  }

  /** A group lists its records in table order, so its dates come out in that order. */
  lemma {:induction false} GroupChronological(rs: seq<Record>, name: string)
    requires Chronological(rs)
    ensures Chronological(Group(rs, name))
  {
    if rs != [] {
      var init := rs[..|rs| - 1];
      GroupChronological(init, name);
      GroupMembers(init, name);
      forall x | x in Group(init, name)
        ensures x.timestamp < rs[|rs| - 1].timestamp && x.id < rs[|rs| - 1].id
      {
        var i :| 0 <= i < |init| && init[i] == x;
      }
    }
  }

  /** The formatted participation dates of a group. */
  function Dates(g: seq<Record>, format: nat -> string): (ds: seq<string>)
    ensures |ds| == |g|
    ensures forall i | 0 <= i < |g| :: ds[i] == format(g[i].timestamp)
  {
    seq(|g|, i requires 0 <= i < |g| => format(g[i].timestamp))
  }

  /** `x.dropna()` on the video titles: the titles that are not NULL, in order. */
  function Titles(g: seq<Record>): (ts: seq<string>)
    ensures |ts| <= |g|
    ensures |g| == 1 ==> ts == if g[0].title.Some? then [g[0].title.value] else []
    ensures forall i | 0 <= i < |g| && g[i].title.Some? :: g[i].title.value in ts
    ensures forall t | t in ts :: exists i :: 0 <= i < |g| && g[i].title == Some(t)
  {
    if g == [] then []
    else
      var rest := Titles(g[1..]);
      assert forall i | 1 <= i < |g| :: g[i] == g[1..][i - 1];
      match g[0].title
      case None => rest
      case Some(t) => [t] + rest
  }

  /** `dropna()` works record by record: the titles of two runs of records are those of the first, then those of the second. */
  lemma {:induction false} TitlesAppend(a: seq<Record>, b: seq<Record>)
    ensures Titles(a + b) == Titles(a) + Titles(b)
  {
    if a == [] {
      assert a + b == b;
    } else {
      assert (a + b)[1..] == a[1..] + b;
      TitlesAppend(a[1..], b);
    }
  }

  /** One row of the table: the group's name, its size, its dates and its titles, each joined with " | ". */
  function MakeRow(rs: seq<Record>, name: string, format: nat -> string): (row: Row)
    ensures row.profileName == name
    ensures row.participations == |Group(rs, name)| == |Dates(Group(rs, name), format)|
    ensures |Titles(Group(rs, name))| <= row.participations
    ensures row.dates == Join(Separator, Dates(Group(rs, name), format))
    ensures row.titles == Join(Separator, Titles(Group(rs, name)))
  {
    var g := Group(rs, name);
    Row(name, |g|, Join(Separator, Dates(g, format)), Join(Separator, Titles(g)))
  }

  predicate StrictlySorted(keys: seq<string>) {
    forall i, j | 0 <= i < j < |keys| :: LexLess(keys[i], keys[j])
  }

  /** Inserts `x` into a sorted list of distinct keys, keeping it sorted and distinct. */
  function Insert(x: string, keys: seq<string>): (r: seq<string>)
    requires StrictlySorted(keys)
    ensures StrictlySorted(r)
    ensures forall y :: y in r <==> y == x || y in keys
  {
    if keys == [] then [x]
    else if x == keys[0] then keys
    else if LexLess(x, keys[0]) then
      assert forall j | 0 <= j < |keys| :: LexLess(x, keys[j]) by {
        forall j | 0 < j < |keys| ensures LexLess(x, keys[j]) {
          LexLessTransitive(x, keys[0], keys[j]);
        }
      }
      [x] + keys
    else
      LexLessTotal(x, keys[0]);
      var tail := Insert(x, keys[1..]);
      assert forall y | y in keys[1..] :: LexLess(keys[0], y) by {
        forall y | y in keys[1..] ensures LexLess(keys[0], y) {
          var j :| 0 <= j < |keys[1..]| && keys[1..][j] == y;
          assert keys[j + 1] == y;
        }
      }
      assert forall y | y in tail :: LexLess(keys[0], y);
      assert keys == [keys[0]] + keys[1..];
      [keys[0]] + tail
  }

  /** The distinct profile names of the table. */
  function ProfileNames(rs: seq<Record>): set<string> {
    set x | x in rs :: x.profileName
  }

  /** The group keys in the order the groupby produces them: distinct and sorted. */
  function GroupKeys(rs: seq<Record>): (keys: seq<string>)
    ensures StrictlySorted(keys)
    ensures forall y :: y in keys <==> y in ProfileNames(rs)
  {
    if rs == [] then []
    else
      var init, last := rs[..|rs| - 1], rs[|rs| - 1];
      assert rs == init + [last];
      assert ProfileNames(rs) == ProfileNames(init) + {last.profileName};
      Insert(last.profileName, GroupKeys(init))
  }

  function Rows(rs: seq<Record>, keys: seq<string>, format: nat -> string): (rows: seq<Row>)
    ensures |rows| == |keys|
    ensures forall j | 0 <= j < |keys| :: rows[j] == MakeRow(rs, keys[j], format)
  {
    if keys == [] then [] else [MakeRow(rs, keys[0], format)] + Rows(rs, keys[1..], format)
  }

  /** The `report_summary` table: one row per profile name, in key order. */
  function Aggregate(rs: seq<Record>, format: nat -> string): (rows: seq<Row>)
    ensures |rows| == |GroupKeys(rs)|
    ensures forall j | 0 <= j < |rows| ::
      rows[j].profileName in ProfileNames(rs) && rows[j] == MakeRow(rs, rows[j].profileName, format)
  {
    var keys := GroupKeys(rs);
    var rows := Rows(rs, keys, format);
    assert forall j | 0 <= j < |rows| :: rows[j].profileName == keys[j] && keys[j] in keys;
    rows
  }

  function TotalParticipations(rows: seq<Row>): nat {
    if rows == [] then 0 else rows[0].participations + TotalParticipations(rows[1..])
  }

  /** The number of records in the groups of `keys`. */
  function GroupSizes(rs: seq<Record>, keys: seq<string>): nat {
    if keys == [] then 0 else |Group(rs, keys[0])| + GroupSizes(rs, keys[1..])
  }

  function Occurrences(keys: seq<string>, y: string): nat {
    if keys == [] then 0 else (if keys[0] == y then 1 else 0) + Occurrences(keys[1..], y)
  }

  lemma {:induction false} RowsTotal(rs: seq<Record>, keys: seq<string>, format: nat -> string)
    ensures TotalParticipations(Rows(rs, keys, format)) == GroupSizes(rs, keys)
  {
    if keys != [] {
      RowsTotal(rs, keys[1..], format);
      assert Rows(rs, keys, format)[1..] == Rows(rs, keys[1..], format);
    }
  }

  lemma {:induction false} GroupSizesOfEmpty(keys: seq<string>)
    ensures GroupSizes([], keys) == 0
  {
    if keys != [] { GroupSizesOfEmpty(keys[1..]); }
  }

  /** Appending a record adds one to the group sizes once for each key equal to its name. */
  lemma {:induction false} GroupSizesAppend(rs: seq<Record>, x: Record, keys: seq<string>)
    ensures GroupSizes(rs + [x], keys) == GroupSizes(rs, keys) + Occurrences(keys, x.profileName)
  {
    if keys != [] {
      GroupSizesAppend(rs, x, keys[1..]);
      assert (rs + [x])[..|rs|] == rs;
    }
  }

  lemma {:induction false} OccurrencesOfDistinct(keys: seq<string>, y: string)
    requires StrictlySorted(keys)
    ensures Occurrences(keys, y) == if y in keys then 1 else 0
  {
    if keys != [] {
      OccurrencesOfDistinct(keys[1..], y);
      if keys[0] == y {
        forall j | 0 <= j < |keys[1..]| ensures keys[1..][j] != y {
          assert LexLess(keys[0], keys[j + 1]);
          LexLessIrreflexive(y);
        }
      }
      assert keys == [keys[0]] + keys[1..];
    }
  }

  /** With distinct keys covering every profile name, the group sizes add up to the table size. */
  lemma {:induction false} GroupSizesCover(rs: seq<Record>, keys: seq<string>)
    requires StrictlySorted(keys)
    requires forall x | x in rs :: x.profileName in keys
    ensures GroupSizes(rs, keys) == |rs|
  {
    if rs == [] {
      GroupSizesOfEmpty(keys);
    } else {
      var init, last := rs[..|rs| - 1], rs[|rs| - 1];
      assert rs == init + [last];
      GroupSizesCover(init, keys);
      GroupSizesAppend(init, last, keys);
      OccurrencesOfDistinct(keys, last.profileName);
    }
  }

  /** Rows come in strictly increasing key order, so no profile name has two rows. */
  lemma AggregateSortedDistinct(rs: seq<Record>, format: nat -> string)
    ensures var rows := Aggregate(rs, format);
      (forall i, j | 0 <= i < j < |rows| :: LexLess(rows[i].profileName, rows[j].profileName)) &&
      (forall i, j | 0 <= i < j < |rows| :: rows[i].profileName != rows[j].profileName)
  {
    var keys := GroupKeys(rs);
    var rows := Aggregate(rs, format);
    forall i, j | 0 <= i < j < |rows|
      ensures LexLess(rows[i].profileName, rows[j].profileName)
      ensures rows[i].profileName != rows[j].profileName
    {
      assert rows[i].profileName == keys[i] && rows[j].profileName == keys[j];
      LexLessIrreflexive(keys[i]);
    }
  }

  /** Every record falls in the group of the row that carries its profile name. */
  lemma AggregateCoversRecords(rs: seq<Record>, format: nat -> string)
    ensures var rows := Aggregate(rs, format);
      forall x | x in rs :: exists j :: 0 <= j < |rows| && rows[j].profileName == x.profileName && x in Group(rs, rows[j].profileName)
  {
    var keys := GroupKeys(rs);
    var rows := Aggregate(rs, format);
    forall x | x in rs
      ensures exists j :: 0 <= j < |rows| && rows[j].profileName == x.profileName && x in Group(rs, rows[j].profileName)
    {
      assert x.profileName in ProfileNames(rs);
      var j :| 0 <= j < |keys| && keys[j] == x.profileName;
      GroupMembers(rs, x.profileName);
      assert rows[j].profileName == x.profileName;
    }
  }

  /** Every row counts the records of its group, and no group is empty. */
  lemma AggregateCounts(rs: seq<Record>, format: nat -> string)
    ensures var rows := Aggregate(rs, format);
      forall j | 0 <= j < |rows| :: rows[j].participations == |Group(rs, rows[j].profileName)| >= 1
  {
    var keys := GroupKeys(rs);
    var rows := Aggregate(rs, format);
    forall j | 0 <= j < |rows| ensures rows[j].participations == |Group(rs, rows[j].profileName)| >= 1 {
      var name := keys[j];
      assert rows[j] == MakeRow(rs, name, format);
      assert name in ProfileNames(rs);
      var x :| x in rs && x.profileName == name;
      GroupMembers(rs, name);
      assert x in Group(rs, name);
    }
  }

  /** The counts of all rows add up to the number of records. */
  lemma AggregateTotal(rs: seq<Record>, format: nat -> string)
    ensures TotalParticipations(Aggregate(rs, format)) == |rs|
  {
    var keys := GroupKeys(rs);
    forall x | x in rs ensures x.profileName in keys {
      assert x.profileName in ProfileNames(rs);
    }
    RowsTotal(rs, keys, format);
    GroupSizesCover(rs, keys);
  }

  /**
   * Each row's `dates` cell joins one formatted date per record of the group,
   * in table order, which is the order of strictly increasing dates.
   */
  lemma RowDatesFollowRecords(rs: seq<Record>, name: string, format: nat -> string)
    requires Chronological(rs)
    ensures var g := Group(rs, name);
      var ds := Dates(g, format);
      MakeRow(rs, name, format).dates == Join(Separator, ds) &&
      |ds| == MakeRow(rs, name, format).participations &&
      (forall i | 0 <= i < |g| :: ds[i] == format(g[i].timestamp) && g[i] in rs && g[i].profileName == name) &&
      (forall i, j | 0 <= i < j < |g| :: g[i].timestamp < g[j].timestamp)
  {
    GroupChronological(rs, name);
    GroupMembers(rs, name);
    var g := Group(rs, name);
    assert forall i | 0 <= i < |g| :: g[i] in g;
  }

  /** A record appended to the table joins the end of its own group and no other. */
  lemma GroupAppend(rs: seq<Record>, x: Record, name: string)
    ensures Group(rs + [x], name) == Group(rs, name) + (if x.profileName == name then [x] else [])
  {
    assert (rs + [x])[..|rs|] == rs;
  }

  lemma DatesAppend(g: seq<Record>, x: Record, format: nat -> string)
    ensures Dates(g + [x], format) == Dates(g, format) + [format(x.timestamp)]
  {
  }

  /** A record appended to the table adds its date at the end of its row's `dates` cell. */
  lemma RowDatesAppend(rs: seq<Record>, x: Record, format: nat -> string)
    requires Group(rs, x.profileName) != []
    ensures MakeRow(rs + [x], x.profileName, format).dates ==
      MakeRow(rs, x.profileName, format).dates + Separator + format(x.timestamp)
  {
    var g := Group(rs, x.profileName);
    GroupAppend(rs, x, x.profileName);
    DatesAppend(g, x, format);
    JoinAppend(Separator, Dates(g, format), [format(x.timestamp)]);
  }

  /** A record appended to the table adds its title, if it has one, at the end of its group's titles. */
  lemma GroupTitlesAppend(rs: seq<Record>, x: Record, name: string)
    ensures Titles(Group(rs + [x], name)) ==
      Titles(Group(rs, name)) + (if x.profileName == name && x.title.Some? then [x.title.value] else [])
  {
    GroupAppend(rs, x, name);
    if x.profileName == name {
      TitlesAppend(Group(rs, name), [x]);
    } else {
      assert Group(rs, name) + [] == Group(rs, name);
    }
  }

  /** A record with a title appended to the table adds that title at the end of its row's `videos` cell. */
  lemma RowTitlesAppend(rs: seq<Record>, x: Record, format: nat -> string)
    requires Titles(Group(rs, x.profileName)) != [] && x.title.Some?
    ensures MakeRow(rs + [x], x.profileName, format).titles ==
      MakeRow(rs, x.profileName, format).titles + Separator + x.title.value
  {
    GroupTitlesAppend(rs, x, x.profileName);
    JoinAppend(Separator, Titles(Group(rs, x.profileName)), [x.title.value]);
  }

  /** A record appended to the table leaves every other profile's row as it was. */
  lemma OtherRowsUnchanged(rs: seq<Record>, x: Record, name: string, format: nat -> string)
    requires x.profileName != name
    ensures MakeRow(rs + [x], name, format) == MakeRow(rs, name, format)
  {
    GroupAppend(rs, x, name);
    assert Group(rs, name) + [] == Group(rs, name);
  }

  /** The summary message lists each row's name and count, in row order. */
  function SummaryOf(rows: seq<Row>): (lines: seq<SummaryLine>)
    ensures |lines| == |rows|
  {
    seq(|rows|, i requires 0 <= i < |rows| => SummaryLine(rows[i].profileName, rows[i].participations))
  }

  /** The sum of the counts a summary message lists. */
  function SummaryTotal(lines: seq<SummaryLine>): nat {
    if lines == [] then 0 else lines[0].participations + SummaryTotal(lines[1..])
  }

  /** The summary message lists the same counts as the table, so they add up to the same total. */
  lemma {:induction false} SummaryOfTotal(rows: seq<Row>)
    ensures SummaryTotal(SummaryOf(rows)) == TotalParticipations(rows)
  {
    if rows != [] {
      SummaryOfTotal(rows[1..]);
      assert SummaryOf(rows)[1..] == SummaryOf(rows[1..]);
    }
  }

  /**
   * What one run produces from the table (`None` when the table is missing):
   * nothing exported, and one notice only on demand, when there are no
   * records; otherwise the aggregated table and one summary message.
   */
  function ReportOutcome(table: Option<seq<Record>>, onDemand: bool, format: nat -> string): (run: ReportRun)
    ensures run.exported.None? <==> table.GetOr([]) == []
    ensures |run.sent| <= 1
    ensures run.sent == [] <==> table.GetOr([]) == [] && !onDemand
    ensures run.exported.Some? ==> run.sent == [SummaryNotice(SummaryOf(run.exported.value))]
  {
    var rs := table.GetOr([]);
    if rs == [] then
      ReportRun(None, if onDemand then [NoRecordsNotice] else [])
    else
      var rows := Aggregate(rs, format);
      ReportRun(Some(rows), [SummaryNotice(SummaryOf(rows))])
  }

  /** An empty or missing table: on demand exactly one "no records" notice, on schedule nothing; no export either way. */
  lemma EmptyTableReport(table: Option<seq<Record>>, format: nat -> string)
    requires table.GetOr([]) == []
    ensures ReportOutcome(table, true, format) == ReportRun(None, [NoRecordsNotice])
    ensures ReportOutcome(table, false, format) == ReportRun(None, [])
  {
  }

  /** Each line of the summary counts its profile's records, and the counts add up to the table size. */
  lemma SummaryCountsGroups(rs: seq<Record>, format: nat -> string)
    ensures var lines := SummaryOf(Aggregate(rs, format));
      (forall k | 0 <= k < |lines| :: lines[k].participations == |Group(rs, lines[k].profileName)| >= 1) &&
      SummaryTotal(lines) == |rs|
  {
    AggregateCounts(rs, format);
    AggregateTotal(rs, format);
    var rows := Aggregate(rs, format);
    var lines := SummaryOf(rows);
    SummaryOfTotal(rows);
    forall k | 0 <= k < |lines| ensures lines[k].participations == |Group(rs, lines[k].profileName)| >= 1 {
      assert lines[k].profileName == rows[k].profileName && lines[k].participations == rows[k].participations;
    }
  }

  /** The summary names every profile of the table, and none twice. */
  lemma SummaryNamesProfiles(rs: seq<Record>, format: nat -> string)
    ensures var lines := SummaryOf(Aggregate(rs, format));
      (forall x | x in rs :: exists k :: 0 <= k < |lines| && lines[k].profileName == x.profileName) &&
      (forall k, l | 0 <= k < l < |lines| :: lines[k].profileName != lines[l].profileName)
  {
    AggregateSortedDistinct(rs, format);
    AggregateCoversRecords(rs, format);
    var rows := Aggregate(rs, format);
    var lines := SummaryOf(rows);
    forall x | x in rs ensures exists k :: 0 <= k < |lines| && lines[k].profileName == x.profileName {
      var j :| 0 <= j < |rows| && rows[j].profileName == x.profileName && x in Group(rs, rows[j].profileName);
      assert lines[j].profileName == x.profileName;
    }
    forall k, l | 0 <= k < l < |lines| ensures lines[k].profileName != lines[l].profileName {
      assert lines[k].profileName == rows[k].profileName;
    }
  }

  /**
   * A non-empty table: one export and one summary message, whether on demand
   * or on schedule; the summary names every profile once and its counts add
   * up to the number of records.
   */
  lemma NonEmptyTableReport(rs: seq<Record>, onDemand: bool, format: nat -> string)
    requires rs != []
    ensures var run := ReportOutcome(Some(rs), onDemand, format);
      run.exported == Some(Aggregate(rs, format)) && |run.sent| == 1 && run.sent[0].SummaryNotice? &&
      (forall x | x in rs :: exists k :: 0 <= k < |run.sent[0].lines| && run.sent[0].lines[k].profileName == x.profileName) &&
      (forall k, l | 0 <= k < l < |run.sent[0].lines| :: run.sent[0].lines[k].profileName != run.sent[0].lines[l].profileName) &&
      TotalParticipations(run.exported.value) == |rs| &&
      (forall k | 0 <= k < |run.sent[0].lines| ::
        run.sent[0].lines[k].participations == |Group(rs, run.sent[0].lines[k].profileName)| >= 1) &&
      SummaryTotal(run.sent[0].lines) == |rs|
  {
    AggregateTotal(rs, format);
    SummaryNamesProfiles(rs, format);
    SummaryCountsGroups(rs, format);
  }

  /** The loop that appends one summary line per row of the report table. */
  method Summarize(rows: seq<Row>) returns (lines: seq<SummaryLine>)
    ensures lines == SummaryOf(rows)
  {
    lines := [];
    for i := 0 to |rows|
      invariant |lines| == i
      invariant forall k | 0 <= k < i :: lines[k] == SummaryLine(rows[k].profileName, rows[k].participations)
    {
      lines := lines + [SummaryLine(rows[i].profileName, rows[i].participations)];
    }
  }

  /** `generate_and_send_report(on_demand)` over the ledger: reads every row, aggregates, summarises. */
  method GenerateAndSendReport(ledger: Ledger, onDemand: bool, format: nat -> string) returns (run: ReportRun)
    requires ledger.Valid()
    ensures run == ReportOutcome(if ledger.hasTable then Some(ledger.records) else None, onDemand, format)
  {
    var table := if ledger.hasTable then ledger.records else [];
    if table == [] {
      run := ReportRun(None, if onDemand then [NoRecordsNotice] else []);
      return;
    }
    var rows := Aggregate(table, format);
    var lines := Summarize(rows);
    run := ReportRun(Some(rows), [SummaryNotice(lines)]);
  }
}
