/**
 * The command recognition of `whatsapp_webhook`: the text is stripped, a
 * lower-cased copy is matched by prefix or equality, member commands first
 * and admin commands only for the admin's number.
 */
module Commands {
  import opened Wrappers
  import opened Text

  const RecordPrefixes: seq<string> := ["participei", "gravei", "/participar"]
  const HistoryPhrase: string := "/meu historico"
  const HelpPhrase: string := "/ajuda"
  const ReportPhrase: string := "/relatorio agora"
  const LastRecordsPhrase: string := "/ultimos registros"
  /** "/corrigir ultimo", kept as its two words so that its split needs no spelling out. */
  const UndoPrefix: string := UndoWord + [' '] + LastWord
  const UndoWord: string := "/corrigir"
  const LastWord: string := "ultimo"

  /** The delimiter that introduces the video title of a participation. */
  const TitleDelimiter: char := ':'

  datatype Command =
    | RecordParticipation(title: Option<string>)
    | ShowMyHistory
    | ShowHelp
    | RunReportNow
    | ShowLastRecords
    | UndoLast
      /** "/corrigir ultimo" with more than two words: recognised, and deliberately does nothing. */
    | UndoOtherUnimplemented
    | Unrecognized
  {
    predicate IsAdminCommand() {
      RunReportNow? || ShowLastRecords? || UndoLast? || UndoOtherUnimplemented?
    }
  }

  predicate StartsWithAny(s: string, prefixes: seq<string>)
    ensures StartsWithAny(s, prefixes) <==>
      exists k | 0 <= k < |prefixes| :: |prefixes[k]| <= |s| && s[..|prefixes[k]|] == prefixes[k]
  {
    exists k | 0 <= k < |prefixes| :: prefixes[k] <= s
  }

  /** The video title: the stripped text after the first ':', or none without a ':'. */
  function TitleOf(msg: string): (title: Option<string>)
    ensures title.None? <==> TitleDelimiter !in msg
    ensures title.Some? ==>
      exists i :: 0 <= i < |msg| && msg[i] == TitleDelimiter && TitleDelimiter !in msg[..i] && title.value == Trim(msg[i + 1..])
  {
    match IndexOf(msg, TitleDelimiter)
    case None => None
    case Some(i) =>
      assert msg[i] == TitleDelimiter && TitleDelimiter !in msg[..i];
      Some(Trim(msg[i + 1..]))
  }

  /** The command a message body `body` from `sender` asks for, given the admin's number. */
  function Classify(body: string, sender: string, admin: Option<string>): (cmd: Command)
    ensures cmd.IsAdminCommand() ==> admin == Some(sender)
    ensures cmd.RecordParticipation? <==> StartsWithAny(Lower(Trim(body)), RecordPrefixes)
  {
    var msg := Trim(body);
    var low := Lower(msg);
    if StartsWithAny(low, RecordPrefixes) then RecordParticipation(TitleOf(msg))
    else if low == HistoryPhrase then ShowMyHistory
    else if low == HelpPhrase then ShowHelp
    else if admin == Some(sender) then
      if low == ReportPhrase then RunReportNow
      else if low == LastRecordsPhrase then ShowLastRecords
      else if UndoPrefix <= low then
        if |Words(low)| > 2 then UndoOtherUnimplemented else UndoLast
      else Unrecognized
    else Unrecognized
  }

  /** Member commands come first: what they match does not depend on who the admin is. */
  lemma MemberCommandsIgnoreAdmin(body: string, sender: string, admin: Option<string>)
    requires !Classify(body, sender, admin).IsAdminCommand()
    requires Classify(body, sender, admin) != Unrecognized
    ensures Classify(body, sender, admin) == Classify(body, sender, None)
  {
  }

  /** For any other number, the admin phrases are silently unrecognised. */
  lemma AdminPhrasesFromOthersUnrecognized(body: string, sender: string, admin: Option<string>)
    requires admin != Some(sender)
    requires Lower(Trim(body)) in [ReportPhrase, LastRecordsPhrase] || UndoPrefix <= Lower(Trim(body))
    ensures Classify(body, sender, admin) == Unrecognized
  {
    var low := Lower(Trim(body));
    assert |low| >= 2 && low[0] == '/' && low[1] != 'p';
    forall k | 0 <= k < |RecordPrefixes| ensures !(RecordPrefixes[k] <= low) {
      var p := RecordPrefixes[k];
      assert p[0] != low[0] || p[1] != low[1];
    }
  }

  /** What the undo phrase shares with no other command: its first two characters. */
  lemma UndoPrefixIsDistinct(low: string)
    requires UndoPrefix <= low
    ensures !StartsWithAny(low, RecordPrefixes)
    ensures low != HistoryPhrase && low != HelpPhrase && low != ReportPhrase && low != LastRecordsPhrase
  {
    assert low[0] == '/' && low[1] == 'c';
    forall k | 0 <= k < |RecordPrefixes| ensures !(RecordPrefixes[k] <= low) {
      assert RecordPrefixes[k][0] != low[0] || RecordPrefixes[k][1] != low[1];
    }
    assert ReportPhrase[1] != low[1] && LastRecordsPhrase[1] != low[1];
    assert HistoryPhrase[1] != low[1] && HelpPhrase[1] != low[1];
  }

  /** "/corrigir ultimo" is two words. */
  lemma UndoPrefixWords()
    ensures |Words(UndoPrefix)| == 2
  {
    WordsOfTwo(UndoWord, ' ', LastWord);
  }

  /** Regrouping "/corrigir ultimo", whitespace and the rest of the text word by word. */
  lemma RegroupUndo(c: char, rest: string)
    ensures UndoPrefix + [c] + rest == UndoWord + ([' '] + (LastWord + ([c] + rest)))
  {
  }

  /** "/corrigir ultimo", whitespace and more text split into the two words of the phrase and the words of the rest. */
  lemma UndoPrefixThenMore(c: char, rest: string)
    requires IsSpace(c)
    ensures Words(UndoPrefix + [c] + rest) == [UndoWord, LastWord] + Words(rest)
  {
    UndoWordsAreWords();
    RegroupUndo(c, rest);
    WordsOfWordSpace(LastWord, c, rest);
    WordsOfWordSpace(UndoWord, ' ', LastWord + ([c] + rest));
    RegroupTwoWords(UndoWord, LastWord, Words(rest));
  }

  /** The two words of the undo phrase contain no whitespace. */
  lemma UndoWordsAreWords()
    ensures IsWord(UndoWord) && IsWord(LastWord)
  {
  }

  lemma RegroupTwoWords(a: string, b: string, ws: seq<string>)
    ensures [a] + ([b] + ws) == [a, b] + ws
  {
  }

  /** "/corrigir ultimo" alone, in any case and spacing, from the admin undoes the admin's own last record. */
  lemma UndoPhraseAlone(body: string, admin: string)
    requires Lower(Trim(body)) == UndoPrefix
    ensures Classify(body, admin, Some(admin)) == UndoLast
  {
    UndoPrefixIsDistinct(UndoPrefix);
    UndoPrefixWords();
  }

  /**
   * "/corrigir ultimo" followed by whitespace and anything that is not all
   * whitespace (another number) has a third word: recognised, and does nothing.
   */
  lemma UndoPhraseWithNumber(body: string, admin: string, c: char, rest: string)
    requires IsSpace(c) && !AllSpace(rest)
    requires Lower(Trim(body)) == UndoPrefix + [c] + rest
    ensures Classify(body, admin, Some(admin)) == UndoOtherUnimplemented
  {
    UndoPrefixIsDistinct(UndoPrefix + [c] + rest);
    UndoPrefixThenMore(c, rest);
  }

  /** A text that starts with '/' and then anything but 'p' starts with no participation keyword. */
  lemma SlashCommandIsNoRecord(low: string)
    requires |low| >= 2 && low[0] == '/' && low[1] != 'p'
    ensures !StartsWithAny(low, RecordPrefixes)
  {
    forall k | 0 <= k < |RecordPrefixes| ensures !(RecordPrefixes[k] <= low) {
      assert RecordPrefixes[k][0] != low[0] || RecordPrefixes[k][1] != low[1];
    }
  }

  /** The phrases all start with '/' and are told apart by their second character. */
  lemma PhraseInitials()
    ensures |HistoryPhrase| >= 2 && HistoryPhrase[0] == '/' && HistoryPhrase[1] == 'm'
    ensures |HelpPhrase| >= 2 && HelpPhrase[0] == '/' && HelpPhrase[1] == 'a'
    ensures |ReportPhrase| >= 2 && ReportPhrase[0] == '/' && ReportPhrase[1] == 'r'
    ensures |LastRecordsPhrase| >= 2 && LastRecordsPhrase[0] == '/' && LastRecordsPhrase[1] == 'u'
    ensures |UndoPrefix| >= 2 && UndoPrefix[0] == '/' && UndoPrefix[1] == 'c'
  {
    assert UndoPrefix[..2] == UndoWord[..2];
  }

  /** The member phrases: history and help are answered exactly when the text is that phrase, from any number. */
  lemma ClassifyMemberPhrases(body: string, sender: string, admin: Option<string>)
    ensures var low := Lower(Trim(body));
      var cmd := Classify(body, sender, admin);
      (cmd == ShowMyHistory <==> low == HistoryPhrase) &&
      (cmd == ShowHelp <==> low == HelpPhrase)
  {
    var low := Lower(Trim(body));
    PhraseInitials();
    if |low| >= 2 && low[0] == '/' && low[1] != 'p' {
      SlashCommandIsNoRecord(low);
    }
  }

  /**
   * The admin phrases: each is recognised exactly when the admin sends it,
   * and "/corrigir ultimo" undoes or does nothing by its number of words.
   */
  lemma ClassifyAdminPhrases(body: string, sender: string, admin: Option<string>)
    ensures var low := Lower(Trim(body));
      var cmd := Classify(body, sender, admin);
      var isAdmin := admin == Some(sender);
      (cmd == RunReportNow <==> isAdmin && low == ReportPhrase) &&
      (cmd == ShowLastRecords <==> isAdmin && low == LastRecordsPhrase) &&
      (cmd == UndoLast <==> isAdmin && UndoPrefix <= low && |Words(low)| <= 2) &&
      (cmd == UndoOtherUnimplemented <==> isAdmin && UndoPrefix <= low && |Words(low)| > 2)
  {
    var low := Lower(Trim(body));
    PhraseInitials();
    if UndoPrefix <= low {
      UndoPrefixIsDistinct(low);
    } else if |low| >= 2 && low[0] == '/' && low[1] != 'p' {
      SlashCommandIsNoRecord(low);
    }
  }

  /** A text is unrecognised exactly when no rule of the chain applies to it. */
  lemma ClassifyUnrecognized(body: string, sender: string, admin: Option<string>)
    ensures var low := Lower(Trim(body));
      Classify(body, sender, admin) == Unrecognized <==>
        !StartsWithAny(low, RecordPrefixes) && low != HistoryPhrase && low != HelpPhrase &&
        !(admin == Some(sender) && (low == ReportPhrase || low == LastRecordsPhrase || UndoPrefix <= low))
  {
  }

  /** The title is cut from the stripped text after its first ':' and keeps its original case. */
  lemma ParticipationTitle(body: string, sender: string, admin: Option<string>, head: string, tail: string)
    requires StartsWithAny(Lower(Trim(body)), RecordPrefixes)
    requires Trim(body) == head + [TitleDelimiter] + tail && TitleDelimiter !in head
    ensures Classify(body, sender, admin) == RecordParticipation(Some(Trim(tail)))
  {
    var msg := head + [TitleDelimiter] + tail;
    assert msg[|head|] == TitleDelimiter && msg[..|head|] == head;
    assert msg[|head| + 1..] == tail;
  }

  /** A participation without ':' carries no title. */
  lemma ParticipationWithoutTitle(body: string, sender: string, admin: Option<string>)
    requires StartsWithAny(Lower(Trim(body)), RecordPrefixes)
    requires TitleDelimiter !in Trim(body)
    ensures Classify(body, sender, admin) == RecordParticipation(None)
  {
  }
}
