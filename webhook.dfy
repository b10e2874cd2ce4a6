/**
 * `whatsapp_webhook`: one inbound message is read from the request, classified,
 * and answered; recording and undo change the ledger, the on-demand report
 * sends its notices to the admin, and every other command only reads.
 */
module Webhook {
  import opened Wrappers
  import Text
  import opened Store
  import opened Report
  import opened Commands

  /** The form fields of an inbound message; each may be absent. */
  datatype Request = Request(body: Option<string>, from: Option<string>, profileName: Option<string>)

  /** `request.values.get('Body', '')`; stripping happens in `Classify`. */
  function BodyOf(req: Request): (body: string)
    ensures req.body.Some? ==> body == req.body.value
    ensures req.body.None? ==> body == ""
  {
    req.body.GetOr("")
  }

  /** `request.values.get('From', '')`. */
  function SenderOf(req: Request): (sender: string)
    ensures req.from.Some? ==> sender == req.from.value
    ensures req.from.None? ==> sender == ""
  {
    req.from.GetOr("")
  }

  /** `request.values.get('ProfileName', from_number)`: the number stands in only for an absent name. */
  function NameOf(req: Request): (name: string)
    ensures req.profileName.Some? ==> name == req.profileName.value
    ensures req.profileName.None? ==> name == SenderOf(req)
  {
    req.profileName.GetOr(SenderOf(req))
  }

  /** One line of the history reply: the date and, when there is one, the title. */
  datatype HistoryLine = HistoryLine(timestamp: nat, title: Option<string>)

  /** One line of the last-records reply: who, when and, when there is one, the title. */
  datatype RecentLine = RecentLine(profileName: string, timestamp: nat, title: Option<string>)

  /** The reply the webhook sends back; `NoContent` is the empty 204 answer. */
  datatype Reply =
    | NoContent
    | Registered(name: string)
    | NoHistory
    | HistoryList(name: string, count: nat, dates: seq<HistoryLine>)
    | Usage
    | NoneFound
    | RecentList(entries: seq<RecentLine>)
    | Corrected
    | NothingToCorrect

  /** What handling one message produces: the reply, the messages sent to the admin, and the new table. */
  datatype Effect = Effect(reply: Reply, sent: seq<Notice>, records: seq<Record>)

  /** A title is shown only when it is truthy: present and not empty. */
  function ShownTitle(title: Option<string>): (shown: Option<string>)
    ensures shown.Some? <==> title.Some? && title.value != ""
    ensures shown.Some? ==> shown == title
  {
    if title.Some? && title.value != "" then title else None
  }

  function HistoryLinesOf(hs: seq<Record>): (lines: seq<HistoryLine>)
    ensures |lines| == |hs|
  {
    seq(|hs|, k requires 0 <= k < |hs| => HistoryLine(hs[k].timestamp, ShownTitle(hs[k].title)))
  }

  function RecentLinesOf(rs: seq<Record>): (lines: seq<RecentLine>)
    ensures |lines| == |rs|
  {
    seq(|rs|, k requires 0 <= k < |rs| => RecentLine(rs[k].profileName, rs[k].timestamp, ShownTitle(rs[k].title)))
  }

  /**
   * The outcome of one message against the table `rs`, whose next id is
   * `nextId`, at time `now`.
   */
  function Respond(rs: seq<Record>, nextId: nat, admin: Option<string>, req: Request, now: nat, format: nat -> string): (e: Effect)
    ensures e.records == rs || e.records == RemoveNewest(rs, SenderOf(req)) ||
      e.records == rs + [Record(nextId, SenderOf(req), NameOf(req), now, TitleOf(Text.Trim(BodyOf(req))))]
    ensures e.records != rs ==> e.sent == []
  {
    var sender := SenderOf(req);
    var name := NameOf(req);
    match Classify(BodyOf(req), sender, admin)
    case RecordParticipation(title) =>
      Effect(Registered(name), [], rs + [Record(nextId, sender, name, now, title)])
    case ShowMyHistory =>
      var hs := History(rs, sender);
      Effect(if hs == [] then NoHistory else HistoryList(name, |hs|, HistoryLinesOf(hs)), [], rs)
    case ShowHelp =>
      Effect(Usage, [], rs)
    case RunReportNow =>
      Effect(NoContent, ReportOutcome(Some(rs), true, format).sent, rs)
    case ShowLastRecords =>
      var recent := Recent(rs, RecentLimit);
      Effect(if recent == [] then NoneFound else RecentList(RecentLinesOf(recent)), [], rs)
    case UndoLast =>
      Effect(if HasRecords(rs, sender) then Corrected else NothingToCorrect, [], RemoveNewest(rs, sender))
    case UndoOtherUnimplemented =>
      Effect(NoContent, [], rs)
    case Unrecognized =>
      Effect(NoContent, [], rs)
  }

  /** The loop that appends one line per history record. */
  method HistoryLines(hs: seq<Record>) returns (lines: seq<HistoryLine>)
    ensures lines == HistoryLinesOf(hs)
  {
    lines := [];
    for i := 0 to |hs|
      invariant |lines| == i
      invariant forall k | 0 <= k < i :: lines[k] == HistoryLine(hs[k].timestamp, ShownTitle(hs[k].title))
    {
      lines := lines + [HistoryLine(hs[i].timestamp, ShownTitle(hs[i].title))];
    }
  }

  /** The loop that appends one line per recent record. */
  method RecentLines(rs: seq<Record>) returns (lines: seq<RecentLine>)
    ensures lines == RecentLinesOf(rs)
  {
    lines := [];
    for i := 0 to |rs|
      invariant |lines| == i
      invariant forall k | 0 <= k < i :: lines[k] == RecentLine(rs[k].profileName, rs[k].timestamp, ShownTitle(rs[k].title))
    {
      lines := lines + [RecentLine(rs[i].profileName, rs[i].timestamp, ShownTitle(rs[i].title))];
    }
  }

  /** `whatsapp_webhook` over the ledger: the outcome is `Respond` applied to the table before the call. */
  method Handle(ledger: Ledger, admin: Option<string>, req: Request, now: nat, format: nat -> string)
    returns (reply: Reply, sent: seq<Notice>)
    requires ledger.Valid() && ledger.hasTable && ledger.clock < now
    modifies ledger
    ensures ledger.Valid() && ledger.hasTable
    ensures Effect(reply, sent, ledger.records) == Respond(old(ledger.records), old(ledger.nextId), admin, req, now, format)
    ensures Classify(BodyOf(req), SenderOf(req), admin).RecordParticipation? ==>
      ledger.nextId == old(ledger.nextId) + 1 && ledger.clock == now
    ensures !Classify(BodyOf(req), SenderOf(req), admin).RecordParticipation? ==>
      ledger.nextId == old(ledger.nextId) && ledger.clock == old(ledger.clock)
    ensures old(ledger.issued) <= ledger.issued
  {
    var sender := SenderOf(req);
    var name := NameOf(req);
    sent := [];
    var cmd := Classify(BodyOf(req), sender, admin);
    match cmd
    case RecordParticipation(title) =>
      ledger.AddParticipation(sender, name, title, now);
      reply := Registered(name);
    case ShowMyHistory =>
      var hs := ledger.UserHistory(sender);
      if hs == [] {
        reply := NoHistory;
      } else {
        var lines := HistoryLines(hs);
        reply := HistoryList(name, |hs|, lines);
      }
    case ShowHelp =>
      reply := Usage;
    case RunReportNow =>
      var run := GenerateAndSendReport(ledger, true, format);
      sent := run.sent;
      reply := NoContent;
    case ShowLastRecords =>
      var recent := ledger.LastRecords();
      if recent == [] {
        reply := NoneFound;
      } else {
        var lines := RecentLines(recent);
        reply := RecentList(lines);
      }
    case UndoLast =>
      var deleted := ledger.DeleteLastUserRecord(sender);
      reply := if deleted then Corrected else NothingToCorrect;
    case UndoOtherUnimplemented =>
      reply := NoContent;
    case Unrecognized =>
      reply := NoContent;
  }

  // Properties of one message.

  /**
   * A text that starts with a participation keyword appends exactly one row:
   * the sender, the profile name, the time of the call and the title.
   */
  lemma RecordAppendsOneRow(rs: seq<Record>, nextId: nat, admin: Option<string>, req: Request, now: nat, format: nat -> string)
    requires StartsWithAny(Text.Lower(Text.Trim(BodyOf(req))), RecordPrefixes)
    ensures var e := Respond(rs, nextId, admin, req, now, format);
      e.records == rs + [Record(nextId, SenderOf(req), NameOf(req), now, TitleOf(Text.Trim(BodyOf(req))))] &&
      e.reply == Registered(NameOf(req)) && e.sent == []
  {
  }

  /** The webhook answers with an empty 204 exactly for the on-demand report, the unimplemented undo and anything unrecognised. */
  lemma SilentReplies(rs: seq<Record>, nextId: nat, admin: Option<string>, req: Request, now: nat, format: nat -> string)
    ensures var cmd := Classify(BodyOf(req), SenderOf(req), admin);
      Respond(rs, nextId, admin, req, now, format).reply == NoContent <==>
        cmd == RunReportNow || cmd == UndoOtherUnimplemented || cmd == Unrecognized
  {
  }

  /** Unrecognised text and the unimplemented undo change nothing, send nothing and get the empty answer. */
  lemma IgnoredChangesNothing(rs: seq<Record>, nextId: nat, admin: Option<string>, req: Request, now: nat, format: nat -> string)
    ensures var cmd := Classify(BodyOf(req), SenderOf(req), admin);
      cmd == Unrecognized || cmd == UndoOtherUnimplemented ==>
        Respond(rs, nextId, admin, req, now, format) == Effect(NoContent, [], rs)
  {
  }

  /**
   * A number other than the admin's can only add its own record: nothing is
   * sent to the admin and no existing record changes.
   */
  lemma OthersOnlyAppendTheirOwn(rs: seq<Record>, nextId: nat, admin: Option<string>, req: Request, now: nat, format: nat -> string)
    requires admin != Some(SenderOf(req))
    ensures var e := Respond(rs, nextId, admin, req, now, format);
      e.sent == [] &&
      (e.records == rs ||
       (|e.records| == |rs| + 1 && e.records[..|rs|] == rs && e.records[|rs|].sender == SenderOf(req)))
  {
    var e := Respond(rs, nextId, admin, req, now, format);
    if e.records != rs {
      assert Classify(BodyOf(req), SenderOf(req), admin).RecordParticipation?;
      assert e.records[..|rs|] == rs;
    }
  }

  /** Only the admin's number ever causes a message to the admin. */
  lemma OnlyAdminTriggersReports(rs: seq<Record>, nextId: nat, admin: Option<string>, req: Request, now: nat, format: nat -> string)
    ensures var sent := Respond(rs, nextId, admin, req, now, format).sent;
      sent != [] ==> admin == Some(SenderOf(req)) && sent == ReportOutcome(Some(rs), true, format).sent
  {
    var cmd := Classify(BodyOf(req), SenderOf(req), admin);
    assert Respond(rs, nextId, admin, req, now, format).sent != [] ==> cmd == RunReportNow;
  }

  /** The history reply's count is the sender's number of records, and its lines follow them newest first. */
  lemma HistoryReplyCountsRecords(rs: seq<Record>, nextId: nat, admin: Option<string>, req: Request, now: nat, format: nat -> string)
    requires Chronological(rs)
    requires Classify(BodyOf(req), SenderOf(req), admin) == ShowMyHistory
    ensures var reply := Respond(rs, nextId, admin, req, now, format).reply;
      (reply == NoHistory <==> !HasRecords(rs, SenderOf(req))) &&
      (reply.HistoryList? ==>
        reply.count == |BySender(rs, SenderOf(req))| && |reply.dates| == reply.count &&
        forall i, j | 0 <= i < j < |reply.dates| :: reply.dates[i].timestamp > reply.dates[j].timestamp)
  {
    var hs := History(rs, SenderOf(req));
    HistoryIsSendersRecordsNewestFirst(rs, SenderOf(req));
    BySenderEmpty(rs, SenderOf(req));
    assert hs == [] <==> BySender(rs, SenderOf(req)) == [];
  }

  // Properties of two messages in a row.

  /** A participation just recorded heads the sender's history. */
  lemma RecordThenHistory(rs: seq<Record>, nextId: nat, admin: Option<string>, req: Request, now: nat, format: nat -> string)
    requires Classify(BodyOf(req), SenderOf(req), admin).RecordParticipation?
    ensures var after := Respond(rs, nextId, admin, req, now, format).records;
      History(after, SenderOf(req)) == [after[|rs|]] + History(rs, SenderOf(req)) &&
      after[|rs|].timestamp == now && after[|rs|].profileName == NameOf(req)
  {
    var after := Respond(rs, nextId, admin, req, now, format).records;
    HistoryAfterAppend(rs, after[|rs|]);
  }

  /** For the admin, "/corrigir ultimo" right after a participation gives back the table as it was. */
  lemma RecordThenUndo(rs: seq<Record>, nextId: nat, admin: string, req: Request, undo: Request, now: nat, later: nat, format: nat -> string)
    requires SenderOf(req) == admin && SenderOf(undo) == admin
    requires Classify(BodyOf(req), admin, Some(admin)).RecordParticipation?
    requires Classify(BodyOf(undo), admin, Some(admin)) == UndoLast
    ensures var after := Respond(rs, nextId, Some(admin), req, now, format).records;
      Respond(after, nextId + 1, Some(admin), undo, later, format) == Effect(Corrected, [], rs)
  {
    var after := Respond(rs, nextId, Some(admin), req, now, format).records;
    var x := after[|rs|];
    UndoAfterAppend(rs, x);
    assert HasRecords(after, admin) by {
      assert after[|rs|].sender == admin;
    }
  }
}
