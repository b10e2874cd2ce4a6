# Participation bot — a verified model

The bot receives WhatsApp messages through a webhook. Members record their
participation in a recording session ("Participei: título do vídeo"), ask for
their history and ask for help. The admin asks for the report on demand, lists
the ten newest records and undoes their own last record. Twice a month, and
on demand, the bot groups every participation by profile name into a
report and sends the admin a summary.

This project models three parts:

- **The ledger** (`Store`). The `participations` table is the class `Store.Ledger`:
  - a sequence of records in insertion order;
  - the AUTOINCREMENT counter `nextId`;
  - the clock `clock`, the latest timestamp handed out;
  - whether `init_db` has created the table.

  `add_participation` and `delete_last_user_record` are methods that change the table in place. The two queries are functions over it. The pure functions `History`, `Recent` and `RemoveNewest` specify them, and lemmas state what they promise: the sender's records, newest first, and exactly one record removed.
- **Command recognition and the webhook** (`Text`, `Commands`, `Webhook`):
  - `Commands.Classify` maps a message body, sender and admin number to one command. It follows the order of the `if`/`elif` chain of `whatsapp_webhook`, on the stripped, lower-cased text.
  - `Webhook.Handle` runs the command against the ledger and builds the reply. The reply lines come from the loops of the source.
  - `Webhook.Respond` is the pure function that specifies `Handle`. Its lemmas cover: silence on unrecognised text, other numbers only appending their own record, and record-then-undo giving the table back.
- **The report** (`Report`). The pandas `groupby("profile_name").agg(...)` is a pure function that yields one row per distinct profile name, in sorted key order. Lemmas prove that the rows are distinct, cover every record, and have counts that add up to the table size. `Report.GenerateAndSendReport` reads the ledger and builds the summary in a loop.

Python's `str.strip()`, `str.split()`, `str.lower()`, the `in` test and `split(':', 1)`, and its string order, are modelled in `Text` on `seq<char>`.

## Model

| member | source | states |
|---|---|---|
| Store.Ledger.Open | app.py:30 | a database file without the table: no rows, the id counter at 1 |
| Store.Ledger.InitDb | app.py:34-48 | CREATE TABLE IF NOT EXISTS: afterwards the table exists and existing rows are kept |
| Store.Ledger.AddParticipation | app.py:50-59 | appends exactly one row with a fresh id never issued before, the sender, the profile name, the current time and the title; nothing else changes and the ids and timestamps stay increasing |
| Store.Ledger.UserHistory | app.py:61-72 | exactly the sender's rows, newest first; empty exactly when the sender has no rows |
| Store.Ledger.LastRecords | app.py:74-82 | min(10, table size) rows of the table, newest first, and every row left out is older than every row returned |
| Store.Ledger.DeleteLastUserRecord | app.py:84-100 | returns True exactly when the sender has a row, and the table becomes the table without the sender's newest row |
| Store.BySender | app.py:64-68 | "WHERE whatsapp_number = ?": only the sender's rows, never more rows than the table |
| Store.History | app.py:61-72 | the rows `get_user_history` returns: one per row of the sender, and only the sender's |
| Store.Recent | app.py:74-82 | the rows `get_last_10_records` returns: min(n, table size) rows, the i-th being the i-th from the end of the table |
| Store.RemoveNewest | app.py:84-100 | the table after undo: one row shorter when the sender has a row, unchanged otherwise |
| Store.NewestIndex | app.py:88-93 | the row "ORDER BY participation_date DESC LIMIT 1" finds: none exactly when the sender has no row, otherwise a row of the sender with no later row of the sender |
| Store.HistoryIsSendersRecordsNewestFirst | app.py:61-72 | the history holds exactly the sender's rows, newest first, one entry per row |
| Store.RecentAreTheNewest | app.py:74-82 | the recent rows number min(n, size), come newest first, are the last rows of the table, and are newer than every row left out |
| Store.BySenderChronological | app.py:64-68 | filtering by sender keeps the table's order of ids and dates |
| Store.BySenderEmpty | app.py:92-100 | a sender's filtered rows are empty exactly when the sender has no row |
| Store.HistoryAfterAppend | app.py:50-72 | a row just added heads its sender's history and the rest of the history is unchanged |
| Store.UndoAfterAppend | app.py:50-100 | undo right after adding a row gives back the table as it was |
| Store.RemoveNewestDropsSendersLast | app.py:84-100 | undo takes exactly the last of the sender's rows off the sender's rows |
| Store.RemoveNewestKeepsOthers | app.py:84-100 | undo leaves every other sender's rows as they were |
| Store.UndoRemovesHeadOfHistory | app.py:84-100 | undo removes the head of the sender's history and shrinks the table by one |
| Store.RemoveNewestDeletesOneRow | app.py:94-100 | undo deletes one whole row when the sender has any and nothing otherwise; the rows that remain are unmodified rows of the old table |
| Store.RemoveAtChronological | app.py:95 | deleting a row by position keeps the remaining rows in order and keeps only old rows; with distinct ids this is the row "DELETE ... WHERE id = ?" removes |
| Text.IsSpace | app.py:177 | the whitespace set of `str.isspace()` that `strip()` and `split()` use: space, tab, newline and carriage return are in it, and no printable ASCII character is |
| Text.Trim | app.py:177 | `strip()`: the result has no surrounding whitespace, sits at the first non-space character, and only whitespace was removed |
| Text.TrimIdempotent | app.py:177 | stripping twice is stripping once |
| Text.TrimEmptyIffAllSpace | app.py:177 | a body strips to "" exactly when it is all whitespace |
| Text.Lower | app.py:180 | `lower()` keeps the length and maps capitals to small letters |
| Text.LowerIdempotent | app.py:180 | lower-casing twice is lower-casing once |
| Text.IndexOf | app.py:187-188 | the first position of a character; none exactly when the character is absent |
| Text.Words | app.py:232 | `split()`: every item is a non-empty run without whitespace, and there is none exactly when the text is all whitespace |
| Text.WordsConcat | app.py:232 | the items of `split()`, put back together, are the text with its whitespace removed: nothing but whitespace is dropped, and nothing is reordered |
| Text.WordsOfSpacesWordThen | app.py:232 | leading whitespace, then a maximal run without whitespace, splits into that run followed by the split of the rest; with the all-whitespace case this fixes every split |
| Text.WordsOfTwo | app.py:232 | two words separated by exactly one whitespace character split into exactly those two words |
| Text.Join | app.py:131-132 | joining with the separator: empty for no items, the item itself for one item, otherwise starts with the first item and has the summed length plus one separator between items |
| Text.JoinAppend | app.py:131-132 | joining two non-empty runs of items is joining each and putting one separator between them |
| Text.LexLess | app.py:129 | Python's `<` on `str`, the key order of `groupby`: a proper prefix is less, and no string is less than one of its prefixes |
| Text.LexLessTransitive | app.py:129 | the string order the groupby sorts by is transitive |
| Text.LexLessTotal | app.py:129 | the string order is total |
| Text.LexLessIrreflexive | app.py:129 | no string is less than itself |
| Commands.StartsWithAny | app.py:185 | `startswith((...))`: true exactly when the text begins with one of the prefixes |
| Commands.TitleOf | app.py:186-188 | the title is absent exactly when there is no ':', and otherwise is the stripped text after the first ':' |
| Commands.Classify | app.py:177-247 | a participation exactly when the stripped, lower-cased text starts with a record keyword; an admin command only from the admin's number |
| Commands.ClassifyMemberPhrases | app.py:192-203 | history and help are answered exactly when the stripped, lower-cased text is that phrase, from any number |
| Commands.ClassifyAdminPhrases | app.py:212-241 | the report, the last records, the undo and the unimplemented undo each come exactly from the admin's number with that phrase; undo has at most two words, the unimplemented undo more |
| Commands.ClassifyUnrecognized | app.py:177-247 | a text is unrecognised exactly when no rule of the chain applies to it |
| Commands.MemberCommandsIgnoreAdmin | app.py:185-209 | member commands are matched before the admin check, so who the admin is does not change them |
| Commands.AdminPhrasesFromOthersUnrecognized | app.py:212-247 | the admin phrases from any other number are unrecognised |
| Commands.UndoPrefixIsDistinct | app.py:185-230 | text starting with "/corrigir ultimo" matches no member command and no other admin phrase |
| Commands.UndoPhraseAlone | app.py:230-241 | "/corrigir ultimo" alone from the admin, in any case and with any surrounding whitespace, is the undo of the admin's own last row |
| Commands.UndoPrefixThenMore | app.py:230-232 | "/corrigir ultimo", whitespace and any rest split into the phrase's two words followed by the words of the rest |
| Commands.UndoPhraseWithNumber | app.py:230-235 | from the admin, "/corrigir ultimo" followed by whitespace and any text that is not all whitespace has a third word: recognised and does nothing |
| Commands.ParticipationTitle | app.py:185-188 | a participation with ':' carries the stripped original-case text after the first ':' |
| Commands.ParticipationWithoutTitle | app.py:185-188 | a participation without ':' carries no title |
| Report.Group | app.py:129 | a group has only rows of its profile name and never more rows than the table |
| Report.GroupMembers | app.py:129 | a group holds exactly the rows with its profile name |
| Report.GroupChronological | app.py:129-131 | a group keeps the table order, so its dates are joined in that order |
| Report.Dates | app.py:126-131 | the group's formatted `participation_date` values: one per record, the i-th the formatted date of the i-th record |
| Report.Titles | app.py:132 | `dropna()`: every non-NULL title of the group and nothing else, never more titles than rows; one row gives its title or nothing |
| Report.TitlesAppend | app.py:132 | `dropna()` works row by row: the titles of two runs of rows are those of the first followed by those of the second |
| Report.MakeRow | app.py:129-133 | one row of the table: its profile name; a count equal to its group size and to its number of dates, never fewer than its titles; the `dates` cell joins the group's formatted dates and the `videos` cell its non-NULL titles, each with the separator |
| Report.Insert | app.py:129 | inserting a key keeps the keys sorted and distinct and adds exactly that key |
| Report.GroupKeys | app.py:129 | the group keys are sorted, distinct, and exactly the profile names of the table |
| Report.Aggregate | app.py:129-133 | one row per group key, each the aggregate of its own profile name, which is a profile name of the table |
| Report.Rows | app.py:129-133 | one row per key, each aggregating that key's group |
| Report.AggregateSortedDistinct | app.py:129-133 | the report rows come in increasing name order, with no name twice |
| Report.AggregateCoversRecords | app.py:129-133 | every record falls in the group of the row carrying its profile name |
| Report.AggregateCounts | app.py:130 | each row's count is its group size, and no group is empty |
| Report.AggregateTotal | app.py:130 | the counts add up to the number of records |
| Report.RowsTotal | app.py:130 | the counts of the rows add up to the sizes of their groups added together |
| Report.GroupSizesCover | app.py:129-130 | groups under distinct keys that cover every profile name hold all records |
| Report.OccurrencesOfDistinct | app.py:129 | a key occurs once among distinct keys, or not at all |
| Report.RowDatesFollowRecords | app.py:126-131 | a row's `dates` cell joins with the separator one formatted date per record of its profile, in table order, whose dates strictly increase |
| Report.GroupAppend | app.py:129 | a record appended to the table joins the end of its own group and no other |
| Report.RowDatesAppend | app.py:126-131 | a record appended to the table adds the separator and its formatted date at the end of its row's `dates` cell |
| Report.GroupTitlesAppend | app.py:132 | a record appended to the table adds its title, if it has one, at the end of its group's non-NULL titles |
| Report.RowTitlesAppend | app.py:132 | a record with a title appended to the table adds the separator and that title at the end of a non-empty `videos` cell of its row |
| Report.OtherRowsUnchanged | app.py:129-133 | a record appended to the table leaves every other profile's row unchanged |
| Report.SummaryOf | app.py:146-148 | one summary line per row |
| Report.SummaryOfTotal | app.py:146-148 | the counts of the summary lines add up to the counts of the table rows |
| Report.SummaryCountsGroups | app.py:129-148 | each summary line counts the records of its profile, at least one, and the lines add up to the number of records |
| Report.SummaryNamesProfiles | app.py:129-148 | the summary names every profile of the table, none twice |
| Report.ReportOutcome | app.py:116-162 | no export exactly when the table is empty or missing; at most one message; no message exactly for an empty table on schedule; with records, the message is the summary of the export |
| Report.EmptyTableReport | app.py:116-123 | with an empty or missing table, exactly one "no records" notice on demand, nothing on schedule, and no export |
| Report.NonEmptyTableReport | app.py:124-162 | with records, one export and one summary message that names every profile once; each line's count is the number of records of its profile, and the counts add up to the table size |
| Report.Summarize | app.py:146-148 | the loop produces the summary lines of the rows, in row order |
| Report.GenerateAndSendReport | app.py:104-162 | one run over the ledger yields the report outcome for the table as it is, or for a missing table |
| Webhook.BodyOf | app.py:177 | the `Body` field, or "" when it is absent |
| Webhook.SenderOf | app.py:178 | the `From` field, or "" when it is absent |
| Webhook.NameOf | app.py:179 | the profile name, or the sender's number when the field is absent |
| Webhook.ShownTitle | app.py:200 | a title is shown exactly when it is present and not empty |
| Webhook.HistoryLines | app.py:198-201 | the loop yields one line per history row, in order |
| Webhook.RecentLines | app.py:224-227 | the loop yields one line per recent row, in order |
| Webhook.Respond | app.py:177-247 | one message leaves the table as it was, removes the sender's newest row, or appends one row with the sender, name, time and title; a message to the admin goes out only when the table is unchanged |
| Webhook.Handle | app.py:175-247 | one message changes the ledger and answers exactly as `Respond` says for the table before the call; the id counter advances by one and the clock moves to the call's time exactly for a participation, and no issued id is forgotten |
| Webhook.IgnoredChangesNothing | app.py:228-247 | unrecognised text and the unimplemented undo change nothing, send nothing and get the empty answer |
| Webhook.RecordAppendsOneRow | app.py:185-190 | a participation keyword appends exactly one row with the sender, the profile name, the time and the title, and is answered with the name |
| Webhook.SilentReplies | app.py:214-247 | the empty 204 answer comes exactly for the on-demand report, the unimplemented undo and unrecognised text |
| Webhook.OthersOnlyAppendTheirOwn | app.py:185-247 | a number other than the admin's sends nothing to the admin and can only append one row of its own |
| Webhook.OnlyAdminTriggersReports | app.py:212-216 | a message to the admin is sent only on the admin's own request, and it is the on-demand report |
| Webhook.HistoryReplyCountsRecords | app.py:192-201 | "no history" exactly when the sender has no row; otherwise the count is the sender's number of rows and the dates are newest first |
| Webhook.RecordThenHistory | app.py:185-201 | a participation just recorded heads the sender's history with the call's time and the profile name |
| Webhook.RecordThenUndo | app.py:185-241 | for the admin, undo right after a participation gives back the table as it was and answers "corrected" |

## Left out

- Twilio: the reply is a tag (`Webhook.Reply`) and the admin's messages are `Report.Notice` values. Their Portuguese wording, emoji, TwiML wrapping and the download link are not modelled.
- Flask routing, `request.host_url` and the `/reports/<filename>` route are not modelled: they are transport and file serving.
- The APScheduler cron job is not modelled. A scheduled run is `Report.GenerateAndSendReport` with `onDemand` false.
- SQLite is not modelled: connections, SQL text and commits are replaced by the in-memory table of `Store.Ledger`.
- Atomicity of undo under concurrent requests is not modelled. The model is sequential.
- The CSV and XLSX exports and the `reports` directory are not modelled. A run records the exported table as `ReportRun.exported`.
- Dates: `datetime.now()` is the parameter `now`, and the clock is assumed strictly increasing, so "newest" is "appended last". `strftime` is the parameter `format` in the report. The history and last-records replies carry the raw timestamp. The replies at app.py:199 and app.py:225 parse the stored date with the format '%Y-%m-%d %H:%M:%S.%f'; SQLite's date adapter writes no fraction when the microsecond is 0, so such a row makes `strptime` raise ValueError and the request fail with HTTP 500; the same stored strings, some with a fraction and some without, also reach `pd.to_datetime` at app.py:126, which in pandas 2.x infers one format from the first value and may then raise on the others, depending on the pandas version. The model always answers and always reports, and captures neither failure.
- Text.Lower: covers ASCII and Latin-1 capitals only. Python's full Unicode case mapping is not modelled.
- Store.Ledger.Valid: the ghost set `issued` records every id ever assigned, so ids are never reused. SQLite's AUTOINCREMENT gives the same guarantee through `sqlite_sequence`. A ledger without the table holds no rows.
- `init_db` runs at start-up before any request. `Webhook.Handle` therefore requires the table to exist. A report on a missing table falls into the empty-table branch, as `pd.read_sql_query` raises there.
