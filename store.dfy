/**
 * The `participations` table and the five functions of app.py that use it:
 * `init_db`, `add_participation`, `get_user_history`, `get_last_10_records`
 * and `delete_last_user_record`.
 *
 * The table is a sequence of records in insertion order. Ids come from an
 * AUTOINCREMENT counter and timestamps from a clock that is strictly
 * increasing, so "ORDER BY participation_date DESC" is the reverse of the
 * insertion order.
 */
module Store {
  import opened Wrappers

  /** One row: id, whatsapp_number, profile_name, participation_date, video_title. */
  datatype Record = Record(id: nat, sender: string, profileName: string, timestamp: nat, title: Option<string>)

  /** Number of rows `get_last_10_records` returns at most. */
  const RecentLimit: nat := 10

  /** Ids and timestamps both increase along the insertion order. */
  predicate Chronological(rs: seq<Record>) {
    forall i, j | 0 <= i < j < |rs| :: rs[i].id < rs[j].id && rs[i].timestamp < rs[j].timestamp
  }

  /** The order of "ORDER BY participation_date DESC". */
  predicate NewestFirst(rs: seq<Record>) {
    forall i, j | 0 <= i < j < |rs| :: rs[i].timestamp > rs[j].timestamp
  }

  function Reverse(rs: seq<Record>): (r: seq<Record>)
    ensures |r| == |rs|
    ensures forall i | 0 <= i < |rs| :: r[i] == rs[|rs| - 1 - i]
  {
    if rs == [] then [] else [rs[|rs| - 1]] + Reverse(rs[..|rs| - 1])
  }

  /** "WHERE whatsapp_number = ?", keeping the table's order. */
  function BySender(rs: seq<Record>, sender: string): (r: seq<Record>)
    ensures |r| <= |rs|
    ensures forall i | 0 <= i < |r| :: r[i].sender == sender
  {
    if rs == [] then []
    else
      var last := rs[|rs| - 1];
      BySender(rs[..|rs| - 1], sender) + (if last.sender == sender then [last] else [])
  }

  /** Whether the sender has at least one row in the table. */
  predicate HasRecords(rs: seq<Record>, sender: string) {
    exists j | 0 <= j < |rs| :: rs[j].sender == sender
  }

  /** The rows `get_user_history` returns. */
  function History(rs: seq<Record>, sender: string): (h: seq<Record>)
    ensures |h| == |BySender(rs, sender)| <= |rs|
    ensures forall i | 0 <= i < |h| :: h[i].sender == sender
  {
    Reverse(BySender(rs, sender))
  }

  /** The rows `get_last_10_records` returns: at most `n` rows, newest first. */
  function Recent(rs: seq<Record>, n: nat): (r: seq<Record>)
    ensures |r| == if |rs| < n then |rs| else n
    ensures forall i | 0 <= i < |r| :: r[i] == rs[|rs| - 1 - i]
  {
    var k := if |rs| < n then |rs| else n;
    Reverse(rs)[..k]
  }

  /** The row "SELECT id ... WHERE whatsapp_number = ? ORDER BY participation_date DESC LIMIT 1" finds. */
  function NewestIndex(rs: seq<Record>, sender: string): (r: Option<nat>)
    ensures r.None? <==> !HasRecords(rs, sender)
    ensures r.Some? ==> r.value < |rs| && rs[r.value].sender == sender
    ensures r.Some? ==> forall j | r.value < j < |rs| :: rs[j].sender != sender
  {
    if rs == [] then None
    else if rs[|rs| - 1].sender == sender then Some(|rs| - 1)
    else NewestIndex(rs[..|rs| - 1], sender)
  }

  function RemoveAt(rs: seq<Record>, i: nat): seq<Record>
    requires i < |rs|
  {
    rs[..i] + rs[i + 1..]
  }

  /** The table after `delete_last_user_record(sender)`. */
  function RemoveNewest(rs: seq<Record>, sender: string): (r: seq<Record>)
    ensures |r| == if HasRecords(rs, sender) then |rs| - 1 else |rs|
    ensures !HasRecords(rs, sender) ==> r == rs
  {
    match NewestIndex(rs, sender)
    case None => rs
    case Some(i) => RemoveAt(rs, i)
  }

  /** The sender's rows are exactly the rows with that sender. */
  lemma {:induction false} BySenderMembers(rs: seq<Record>, sender: string)
    ensures forall x :: x in BySender(rs, sender) <==> x in rs && x.sender == sender
  {
    if rs != [] {
      var init, last := rs[..|rs| - 1], rs[|rs| - 1];
      BySenderMembers(init, sender);
      assert rs == init + [last];
    }
  }

  lemma BySenderEmpty(rs: seq<Record>, sender: string)
    ensures BySender(rs, sender) == [] <==> !HasRecords(rs, sender)
  {
    BySenderMembers(rs, sender);
    var b := BySender(rs, sender);
    if b != [] {
      assert b[0] in rs;
    }
    if HasRecords(rs, sender) {
      var j :| 0 <= j < |rs| && rs[j].sender == sender;
      assert rs[j] in b;
    }
  }

  /** A sender's records keep the table's chronological order. */
  lemma {:induction false} BySenderChronological(rs: seq<Record>, sender: string)
    requires Chronological(rs)
    ensures Chronological(BySender(rs, sender))
  {
    if rs != [] {
      var init := rs[..|rs| - 1];
      BySenderChronological(init, sender);
      BySenderMembers(init, sender);
      var b := BySender(init, sender);
      forall x | x in b ensures x.timestamp < rs[|rs| - 1].timestamp && x.id < rs[|rs| - 1].id {
        var i :| 0 <= i < |init| && init[i] == x;
      }
    }
  }

  lemma ReverseNewestFirst(rs: seq<Record>)
    requires Chronological(rs)
    ensures NewestFirst(Reverse(rs))
  {
  }

  /**
   * `get_user_history` returns exactly the sender's records, each once, newest
   * first; so the count the reply states is the sender's number of records.
   */
  lemma HistoryIsSendersRecordsNewestFirst(rs: seq<Record>, sender: string)
    requires Chronological(rs)
    ensures NewestFirst(History(rs, sender))
    ensures forall x :: x in History(rs, sender) <==> x in rs && x.sender == sender
    ensures |History(rs, sender)| == |BySender(rs, sender)|
  {
    BySenderChronological(rs, sender);
    BySenderMembers(rs, sender);
    ReverseNewestFirst(BySender(rs, sender));
    var h := History(rs, sender);
    forall x ensures x in h <==> x in BySender(rs, sender) {
      var b := BySender(rs, sender);
      if x in b {
        var i :| 0 <= i < |b| && b[i] == x;
        assert h[|b| - 1 - i] == x;
      }
    }
  }

  /** `get_last_10_records`: the newest `n` records across all senders, newest first. */
  lemma RecentAreTheNewest(rs: seq<Record>, n: nat)
    requires Chronological(rs)
    ensures |Recent(rs, n)| == if |rs| < n then |rs| else n
    ensures NewestFirst(Recent(rs, n))
    ensures forall x :: x in Recent(rs, n) <==> x in rs[|rs| - |Recent(rs, n)|..]
    ensures forall i, j | 0 <= i < |rs| - |Recent(rs, n)| && 0 <= j < |Recent(rs, n)| ::
      rs[i].timestamp < Recent(rs, n)[j].timestamp
  {
    RecentMembers(rs, n);
    RecentOmitsOlder(rs, n);
  }

  lemma RecentMembers(rs: seq<Record>, n: nat)
    ensures forall x :: x in Recent(rs, n) <==> x in rs[|rs| - |Recent(rs, n)|..]
  {
    var r := Recent(rs, n);
    var k := |r|;
    var tail := rs[|rs| - k..];
    forall x ensures x in r <==> x in tail {
      if x in tail {
        var i :| 0 <= i < k && tail[i] == x;
        assert r[k - 1 - i] == x;
      }
    }
  }

  lemma RecentOmitsOlder(rs: seq<Record>, n: nat)
    requires Chronological(rs)
    ensures forall i, j | 0 <= i < |rs| - |Recent(rs, n)| && 0 <= j < |Recent(rs, n)| ::
      rs[i].timestamp < Recent(rs, n)[j].timestamp
  {
    var r := Recent(rs, n);
    var k := |r|;
    forall i, j | 0 <= i < |rs| - k && 0 <= j < k
      ensures rs[i].timestamp < r[j].timestamp
    {
      assert r[j] == rs[|rs| - 1 - j];
    }
  }

  /** A new record is the first one of its sender's history. */
  lemma {:induction false} HistoryAfterAppend(rs: seq<Record>, x: Record)
    ensures History(rs + [x], x.sender) == [x] + History(rs, x.sender)
  {
    assert (rs + [x])[..|rs|] == rs;
  }

  /** Undoing right after recording gives back the table as it was. */
  lemma {:induction false} UndoAfterAppend(rs: seq<Record>, x: Record)
    ensures RemoveNewest(rs + [x], x.sender) == rs
  {
    assert (rs + [x])[..|rs|] == rs;
  }

  /** Filtering by sender distributes over concatenation. */
  lemma {:induction false} BySenderConcat(a: seq<Record>, b: seq<Record>, sender: string)
    ensures BySender(a + b, sender) == BySender(a, sender) + BySender(b, sender)
  {
    if b != [] {
      var b', last := b[..|b| - 1], b[|b| - 1];
      var tail := if last.sender == sender then [last] else [];
      assert (a + b)[..|a + b| - 1] == a + b' && (a + b)[|a + b| - 1] == last;
      assert BySender(a + b, sender) == BySender(a + b', sender) + tail;
      BySenderConcat(a, b', sender);
      assert BySender(b, sender) == BySender(b', sender) + tail;
      assert BySender(a, sender) + BySender(b', sender) + tail
        == BySender(a, sender) + (BySender(b', sender) + tail);
    } else {
      assert a + b == a;
    }
  }

  /**
   * Undo removes the newest record of `sender` and nothing else: the sender's
   * records lose their last element, every other sender's records are untouched.
   */
  lemma {:induction false} RemoveNewestDropsSendersLast(rs: seq<Record>, sender: string)
    ensures var b := BySender(rs, sender);
      BySender(RemoveNewest(rs, sender), sender) == if b == [] then [] else b[..|b| - 1]
  {
    match NewestIndex(rs, sender)
    case None =>
      BySenderEmpty(rs, sender);
    case Some(i) =>
      var pre, x, post := rs[..i], rs[i], rs[i + 1..];
      assert rs == (pre + [x]) + post;
      BySenderEmpty(post, sender);
      assert !HasRecords(post, sender) by {
        forall j | 0 <= j < |post| ensures post[j].sender != sender {
          assert post[j] == rs[i + 1 + j];
        }
      }
      BySenderConcat(pre + [x], post, sender);
      BySenderConcat(pre, post, sender);
      assert BySender(pre + [x], sender) == BySender(pre, sender) + [x] by {
        assert (pre + [x])[..|pre|] == pre;
      }
      var b := BySender(rs, sender);
      assert b == BySender(pre, sender) + [x];
      assert b[..|b| - 1] == BySender(pre, sender);
  }

  lemma {:induction false} RemoveNewestKeepsOthers(rs: seq<Record>, sender: string, other: string)
    requires other != sender
    ensures BySender(RemoveNewest(rs, sender), other) == BySender(rs, other)
  {
    match NewestIndex(rs, sender)
    case None =>
    case Some(i) =>
      var pre, x, post := rs[..i], rs[i], rs[i + 1..];
      assert rs == (pre + [x]) + post;
      BySenderConcat(pre + [x], post, other);
      BySenderConcat(pre, post, other);
      assert BySender(pre + [x], other) == BySender(pre, other) by {
        assert (pre + [x])[..|pre|] == pre;
      }
  }

  /** The newest record of the sender heads its history; undo drops exactly that one. */
  lemma UndoRemovesHeadOfHistory(rs: seq<Record>, sender: string)
    requires History(rs, sender) != []
    ensures History(RemoveNewest(rs, sender), sender) == History(rs, sender)[1..]
    ensures |RemoveNewest(rs, sender)| == |rs| - 1
  {
    RemoveNewestDropsSendersLast(rs, sender);
    BySenderEmpty(rs, sender);
    var b := BySender(rs, sender);
    assert |b| > 0;
  }

  /**
   * Undo deletes one whole row when the sender has any and nothing otherwise;
   * the rows that remain are rows of the table as they were.
   */
  lemma RemoveNewestDeletesOneRow(rs: seq<Record>, sender: string)
    ensures |RemoveNewest(rs, sender)| == if HasRecords(rs, sender) then |rs| - 1 else |rs|
    ensures !HasRecords(rs, sender) ==> RemoveNewest(rs, sender) == rs
    ensures forall x | x in RemoveNewest(rs, sender) :: x in rs
  {
    match NewestIndex(rs, sender)
    case None =>
    case Some(i) =>
      var r := RemoveAt(rs, i);
      forall x | x in r ensures x in rs {
        var k :| 0 <= k < |r| && r[k] == x;
        assert x == rs[if k < i then k else k + 1];
      }
  }

  /** Removing one row keeps the remaining rows in chronological order. */
  lemma RemoveAtChronological(rs: seq<Record>, i: nat)
    requires i < |rs| && Chronological(rs)
    ensures Chronological(RemoveAt(rs, i))
    ensures forall x | x in RemoveAt(rs, i) :: x in rs
  {
    var r := RemoveAt(rs, i);
    forall a, b | 0 <= a < b < |r|
      ensures r[a].id < r[b].id && r[a].timestamp < r[b].timestamp
    {
      var a' := if a < i then a else a + 1;
      var b' := if b < i then b else b + 1;
      assert r[a] == rs[a'] && r[b] == rs[b'];
    }
  }

  /**
   * The table as a store object: `hasTable` says whether `init_db` has created
   * the table, `nextId` is the AUTOINCREMENT counter, `clock` the latest
   * timestamp handed out, and `issued` every id ever assigned.
   */
  class Ledger {
    var hasTable: bool
    var records: seq<Record>
    var nextId: nat
    var clock: nat
    ghost var issued: set<nat>

    ghost predicate Valid()
      reads this
    {
      1 <= nextId && Chronological(records) && (!hasTable ==> records == []) &&
      (forall x | x in records :: x.id in issued && x.timestamp <= clock) &&
      (forall id | id in issued :: 1 <= id < nextId)
    }

    /** A database file in which `init_db` has not yet run. */
    constructor Open()
      ensures Valid() && !hasTable
      ensures records == [] && nextId == 1 && issued == {}
    {
      hasTable := false;
      records := [];
      nextId := 1;
      clock := 0;
      issued := {};
    }

    /** `init_db`: CREATE TABLE IF NOT EXISTS; existing rows are kept. */
    method InitDb()
      requires Valid()
      modifies this`hasTable
      ensures Valid() && hasTable
    {
      hasTable := true;
    }

    /** `add_participation`: inserts one row with a fresh id and the current time. */
    method AddParticipation(sender: string, profileName: string, title: Option<string>, now: nat)
      requires Valid() && hasTable && clock < now
      modifies this
      ensures Valid() && hasTable
      ensures records == old(records) + [Record(old(nextId), sender, profileName, now, title)]
      ensures old(nextId) !in old(issued) && issued == old(issued) + {old(nextId)}
      ensures nextId == old(nextId) + 1 && clock == now
    {
      var x := Record(nextId, sender, profileName, now, title);
      forall i | 0 <= i < |records|
        ensures records[i].id < x.id && records[i].timestamp < x.timestamp
      {
        assert records[i] in records;
      }
      records := records + [x];
      issued := issued + {nextId};
      nextId := nextId + 1;
      clock := now;
    }

    /** `get_user_history`: the sender's records, newest first. */
    function UserHistory(sender: string): (hs: seq<Record>)
      reads this
      requires Valid() && hasTable
      ensures NewestFirst(hs)
      ensures forall x :: x in hs <==> x in records && x.sender == sender
      ensures hs == [] <==> !HasRecords(records, sender)
    {
      HistoryIsSendersRecordsNewestFirst(records, sender);
      BySenderEmpty(records, sender);
      History(records, sender)
    }

    /** `get_last_10_records`: the ten newest records across all senders. */
    function LastRecords(): (rs: seq<Record>)
      reads this
      requires Valid() && hasTable
      ensures |rs| == if |records| < RecentLimit then |records| else RecentLimit
      ensures NewestFirst(rs)
      ensures forall x | x in rs :: x in records
      ensures forall i, j | 0 <= i < |records| && 0 <= j < |rs| && records[i] !in rs ::
        records[i].timestamp < rs[j].timestamp
    {
      RecentAreTheNewest(records, RecentLimit);
      Recent(records, RecentLimit)
    }

    /** `delete_last_user_record`: look up the sender's newest row, then delete it by id. */
    method DeleteLastUserRecord(sender: string) returns (deleted: bool)
      requires Valid() && hasTable
      modifies this
      ensures Valid() && hasTable
      ensures deleted <==> HasRecords(old(records), sender)
      ensures records == RemoveNewest(old(records), sender)
      ensures nextId == old(nextId) && clock == old(clock) && issued == old(issued)
    {
      var found := NewestIndex(records, sender);
      match found
      case None =>
        deleted := false;
      case Some(i) =>
        RemoveAtChronological(records, i);
        records := RemoveAt(records, i);
        deleted := true;
    }
  }
}
