/** One run of the scheduled job in main.py: load the append-mode history, fetch and
    clean the published book list, detect the new assessments of the two grades, hand
    them to Firebase and Telegram, and append their links to the history. The HTTP
    response, the literal parser and the two configuration switches are parameters. */
module Pipeline {
  import opened Options
  import opened Text
  import opened Extract
  import opened Normalize
  import opened Classify
  import opened Dispatch
  import opened History
  import Subjects

  /** `ast.literal_eval` applied to the cleaned text: the list of records, or None
      when it raises. */
  type Parser = string -> Option<seq<Record>>

  /** `fetch_moe_data`: the records parsed from the cleaned group of the leftmost
      `const books = [...];`, and the empty list when the request failed, the
      assignment is absent or the parser raised. `response` is None for a failed
      request. */
  function FetchMoeData(response: Option<string>, parse: Parser): (data: seq<Record>)
    ensures response.None? ==> data == []
    ensures response.Some? && ExtractBooks(response.value).None? ==> data == []
    ensures data != [] ==>
      && response.Some? && ExtractBooks(response.value).Some?
      && parse(CleanLiteral(ExtractBooks(response.value).value)) == Some(data)
  {
    match response
    case None => []
    case Some(text) =>
      match ExtractBooks(text)
      case None => []
      case Some(group) =>
        match parse(CleanLiteral(group))
        case None => []
        case Some(data) => data
  }

  /** When the cleaned group parses, the parsed records are what the fetch returns. */
  lemma FetchReturnsParse(t: string, parse: Parser, data: seq<Record>)
    requires ExtractBooks(t).Some? && parse(CleanLiteral(ExtractBooks(t).value)) == Some(data)
    ensures FetchMoeData(Some(t), parse) == data
  {
  }

  /** The parser only ever sees text with no newline, tab or single quote in it. */
  lemma FetchParsesCleanText(response: Option<string>, parse: Parser)
    requires FetchMoeData(response, parse) != []
    ensures exists text ::
      && parse(text) == Some(FetchMoeData(response, parse))
      && '\n' !in text && '\t' !in text && '\'' !in text
  {
    var text := CleanLiteral(ExtractBooks(response.value).value);
    assert parse(text) == Some(FetchMoeData(response, parse));
  }

  /** The records come from the leftmost `const books = [...];` of the page: when no
      position matches the pattern the fetch is empty, and otherwise the parser saw the
      cleaned group of the first match. */
  lemma FetchReadsLeftmostAssignment(t: string, parse: Parser)
    ensures (forall k: nat :: k <= |t| ==> !MatchesAt(t, k)) ==> FetchMoeData(Some(t), parse) == []
    ensures FetchMoeData(Some(t), parse) != [] ==>
      exists p: nat :: && MatchesAt(t, p)
                       && (forall k: nat :: k < p ==> !MatchesAt(t, k))
                       && parse(CleanLiteral(Group(t, p))) == Some(FetchMoeData(Some(t), parse))
  {
    ExtractBooksIsLeftmost(t);
  }

  /** Conversely, when the leftmost match's cleaned group parses, its records are what
      the fetch returns. */
  lemma FetchReturnsLeftmostParse(t: string, parse: Parser, p: nat, data: seq<Record>)
    requires MatchesAt(t, p) && forall k: nat :: k < p ==> !MatchesAt(t, k)
    requires parse(CleanLiteral(Group(t, p))) == Some(data)
    ensures FetchMoeData(Some(t), parse) == data
  {
    ExtractBooksIsLeftmost(t);
    var q: nat :| MatchesAt(t, q) && ExtractBooks(t).value == Group(t, q)
      && forall k: nat :: k < q ==> !MatchesAt(t, k);
    assert !(q < p) && !(p < q);
    FetchReturnsParse(t, parse, data);
  }

  /** When the extracted group holds no quote character, the fetch parses the same
      text the corrected key-quoting pass would have produced. */
  lemma FetchAgreesWithCorrectedOnQuoteFreeGroup(t: string, parse: Parser)
    requires ExtractBooks(t).Some?
    requires '\'' !in ExtractBooks(t).value && '"' !in ExtractBooks(t).value
    ensures FetchMoeData(Some(t), parse) ==
      match parse(CleanLiteralCorrected(ExtractBooks(t).value))
      case None => []
      case Some(data) => data
  {
    CleanLiteralAgreesWithoutQuotes(ExtractBooks(t).value);
  }

  /** `f"{link}\n"` writes a missing link as the text "None". */
  function LinkText(url: Option<string>): (t: string)
    ensures url.Some? ==> t == url.value
    ensures url.None? ==> t == "None"
  {
    match url
    case Some(l) => l
    case None => "None"
  }

  /** `links_to_save`: the link text of each item, in order. */
  function SavedLinks(items: seq<Item>): (ls: seq<string>)
    ensures |ls| == |items|
    ensures forall i :: 0 <= i < |items| ==> ls[i] == LinkText(items[i].url)
  {
    seq(|items|, i requires 0 <= i < |items| => LinkText(items[i].url))
  }

  /** Everything one run does: the history file afterwards, the items it reported
      (first grade, then second), the Firebase writes and the Telegram messages. */
  datatype RunOutcome = RunOutcome(history: File, reported: seq<Item>, uploads: seq<Upload>, messages: seq<Message>)

  /** `main`. History is appended after dispatch whatever the delivery switches are. */
  function RunMain(f: File, response: Option<string>, parse: Parser, tokenSet: bool, firebaseSet: bool): (o: RunOutcome)
    ensures FetchMoeData(response, parse) == [] ==> o == RunOutcome(f, [], [], [])
    ensures o.reported == [] ==> o.history == f && o.uploads == [] && o.messages == []
    ensures o.reported != [] ==> o.history == SaveAppendMode(f, SavedLinks(o.reported))
    ensures forall it :: it in o.reported ==> it.url.Some? ==> it.url.value !in LoadAppendMode(f)
    ensures |o.uploads| == (if firebaseSet then |o.reported| else 0)
    ensures tokenSet ==> AllLines(o.messages) == LinesOf(o.reported)
    ensures !tokenSet ==> o.messages == []
  {
    var history := LoadAppendMode(f);
    var data := FetchMoeData(response, parse);
    if data == [] then RunOutcome(f, [], [], [])
    else
      var g1 := Select(data, history, GradeOne, Subjects.SubjectMapG1);
      var g2 := Select(data, history, GradeTwo, Subjects.SubjectMapG2);
      if |g1| + |g2| == 0 then RunOutcome(f, [], [], [])
      else
        SelectItemsSound(data, history, GradeOne, Subjects.SubjectMapG1);
        SelectItemsSound(data, history, GradeTwo, Subjects.SubjectMapG2);
        TelegramMessagesCoverItems(g1, g2);
        var uploads := Uploads(g1, PathG1, firebaseSet) + Uploads(g2, PathG2, firebaseSet);
        RunOutcome(SaveAppendMode(f, SavedLinks(g1 + g2)), g1 + g2, uploads, TelegramMessages(tokenSet, g1, g2))
  }

  /** The items a run reports are those `process_items` returns on the loaded history. */
  lemma RunMainReportsNewItems(f: File, response: Option<string>, parse: Parser, tokenSet: bool, firebaseSet: bool)
    ensures var data := FetchMoeData(response, parse);
      var h := LoadAppendMode(f);
      RunMain(f, response, parse, tokenSet, firebaseSet).reported
        == (if data == [] then [] else Select(data, h, GradeOne, Subjects.SubjectMapG1) + Select(data, h, GradeTwo, Subjects.SubjectMapG2))
  {
  }

  /** A run never forgets an entry of a history file it finds properly terminated, and
      leaves it terminated. */
  lemma RunMainKeepsHistory(f: File, response: Option<string>, parse: Parser, tokenSet: bool, firebaseSet: bool)
    requires WellTerminated(f)
    ensures var g := RunMain(f, response, parse, tokenSet, firebaseSet).history;
      LoadAppendMode(f) <= LoadAppendMode(g) && WellTerminated(g)
  {
    var o := RunMain(f, response, parse, tokenSet, firebaseSet);
    if o.reported != [] {
      AppendIsMonotone(f, SavedLinks(o.reported));
      SaveAppendKeepsTerminated(f, SavedLinks(o.reported));
    }
  }

  /** The saved history does not depend on whether the bot token or the database URL
      is configured: a run records its items even when nothing was delivered. */
  lemma RunMainHistoryIgnoresDelivery(f: File, response: Option<string>, parse: Parser, tokenSet: bool, firebaseSet: bool)
    ensures RunMain(f, response, parse, tokenSet, firebaseSet).history == RunMain(f, response, parse, false, false).history
  {
  }

  /** A link fit to be read back from the history: non-blank, already stripped and on
      one line. */
  predicate CleanLink(u: string) {
    u != [] && Strip(u) == u && '\n' !in u && '\r' !in u
  }

  /** Appending the link texts of some items: the history gains their entries, and
      in particular every clean link among them. */
  lemma AppendedLinksRecorded(f: File, items: seq<Item>)
    requires WellTerminated(f)
    requires forall it :: it in items && it.url.Some? ==> CleanLink(it.url.value)
    ensures LoadAppendMode(SaveAppendMode(f, SavedLinks(items))) == LoadAppendMode(f) + Entries(SavedLinks(items))
    ensures forall it :: it in items && it.url.Some? ==> it.url.value in LoadAppendMode(SaveAppendMode(f, SavedLinks(items)))
  {
    SavedLinksSingleLine(items);
    LoadAfterAppend(f, SavedLinks(items));
    SavedLinksAreEntries(items);
  }

  /** Clean links are saved as lines free of line breaks. */
  lemma SavedLinksSingleLine(items: seq<Item>)
    requires forall it :: it in items && it.url.Some? ==> CleanLink(it.url.value)
    ensures var ls := SavedLinks(items);
      forall i :: 0 <= i < |ls| ==> '\n' !in ls[i] && '\r' !in ls[i]
  {
    var ls := SavedLinks(items);
    forall i | 0 <= i < |ls| ensures '\n' !in ls[i] && '\r' !in ls[i] {
      assert items[i] in items;
    }
  }

  /** Every clean link saved is an entry of the saved lines. */
  lemma SavedLinksAreEntries(items: seq<Item>)
    requires forall it :: it in items && it.url.Some? ==> CleanLink(it.url.value)
    ensures forall it :: it in items && it.url.Some? ==> it.url.value in Entries(SavedLinks(items))
  {
    var ls := SavedLinks(items);
    forall it | it in items && it.url.Some? ensures it.url.value in Entries(ls) {
      var i :| 0 <= i < |items| && items[i] == it;
      assert ls[i] == it.url.value;
    }
  }

  /** After a run the history holds the earlier entries plus the link of every reported
      item, when those links are clean. */
  lemma RunMainRecordsLinks(f: File, response: Option<string>, parse: Parser, tokenSet: bool, firebaseSet: bool)
    requires WellTerminated(f)
    requires forall it :: it in RunMain(f, response, parse, tokenSet, firebaseSet).reported && it.url.Some? ==> CleanLink(it.url.value)
    ensures var o := RunMain(f, response, parse, tokenSet, firebaseSet);
      && LoadAppendMode(o.history) == LoadAppendMode(f) + Entries(SavedLinks(o.reported))
      && forall it :: it in o.reported && it.url.Some? ==> it.url.value in LoadAppendMode(o.history)
  {
    var o := RunMain(f, response, parse, tokenSet, firebaseSet);
    if o.reported != [] {
      AppendedLinksRecorded(f, o.reported);
    } else {
      assert Entries(SavedLinks(o.reported)) == {};
    }
  }

  /** Once the history holds the link of every record kept against the earlier
      history, only link-less records are kept again. */
  lemma SelectAfterRecording(data: seq<Record>, h0: set<string>, h1: set<string>, grade: string, table: map<string, string>)
    requires h0 <= h1
    requires forall i :: 0 <= i < |data| && "link" in data[i] && Keep(data[i], h0, grade) ==> data[i]["link"] in h1
    ensures forall it :: it in Select(data, h1, grade, table) ==> it.url.None?
    ensures (forall r :: r in data ==> "link" in r) ==> Select(data, h1, grade, table) == []
  {
    SelectIsIndexed(data, h1, grade, table);
    var out, idx := Select(data, h1, grade, table), Indices(data, h1, grade);
    forall it | it in out ensures it.url.None? {
      var j :| 0 <= j < |out| && out[j] == it;
      assert "link" !in data[idx[j]];
    }
    assert out != [] ==> data[idx[0]] in data && "link" !in data[idx[0]];
  }

  /** Running again on the same response right after a run reports only records that
      have no link; when every record has one, the second run changes and sends
      nothing. Links must be clean for the history to hold them verbatim. */
  lemma RunMainSettles(f: File, response: Option<string>, parse: Parser, tokenSet: bool, firebaseSet: bool)
    requires WellTerminated(f)
    requires forall r :: r in FetchMoeData(response, parse) && "link" in r ==> CleanLink(r["link"])
    ensures var o1 := RunMain(f, response, parse, tokenSet, firebaseSet);
      var o2 := RunMain(o1.history, response, parse, tokenSet, firebaseSet);
      && (forall it :: it in o2.reported ==> it.url.None?)
      && ((forall r :: r in FetchMoeData(response, parse) ==> "link" in r) ==> o2 == RunOutcome(o1.history, [], [], []))
  {
    var data := FetchMoeData(response, parse);
    var f1 := RunMain(f, response, parse, tokenSet, firebaseSet).history;
    if data != [] {
      SettledGrade(f, response, parse, tokenSet, firebaseSet, GradeOne, Subjects.SubjectMapG1);
      SettledGrade(f, response, parse, tokenSet, firebaseSet, GradeTwo, Subjects.SubjectMapG2);
    }
    RunOnSettledHistory(f1, response, parse, tokenSet, firebaseSet);
  }

  /** A run on a history against which both grades' lists hold only link-less items
      reports only those, and nothing at all when every record has a link. */
  lemma RunOnSettledHistory(g: File, response: Option<string>, parse: Parser, tokenSet: bool, firebaseSet: bool)
    requires var data := FetchMoeData(response, parse);
      var h := LoadAppendMode(g);
      data != [] ==>
        && (forall it :: it in Select(data, h, GradeOne, Subjects.SubjectMapG1) ==> it.url.None?)
        && (forall it :: it in Select(data, h, GradeTwo, Subjects.SubjectMapG2) ==> it.url.None?)
        && ((forall r :: r in data ==> "link" in r) ==>
              Select(data, h, GradeOne, Subjects.SubjectMapG1) == [] && Select(data, h, GradeTwo, Subjects.SubjectMapG2) == [])
    ensures var o := RunMain(g, response, parse, tokenSet, firebaseSet);
      && (forall it :: it in o.reported ==> it.url.None?)
      && ((forall r :: r in FetchMoeData(response, parse) ==> "link" in r) ==> o == RunOutcome(g, [], [], []))
  {
    RunMainReportsNewItems(g, response, parse, tokenSet, firebaseSet);
  }

  /** The second-run argument for one grade. */
  lemma SettledGrade(f: File, response: Option<string>, parse: Parser, tokenSet: bool, firebaseSet: bool, grade: string, table: map<string, string>)
    requires WellTerminated(f)
    requires forall r :: r in FetchMoeData(response, parse) && "link" in r ==> CleanLink(r["link"])
    requires FetchMoeData(response, parse) != []
    requires (grade == GradeOne && table == Subjects.SubjectMapG1) || (grade == GradeTwo && table == Subjects.SubjectMapG2)
    ensures var data := FetchMoeData(response, parse);
      var h1 := LoadAppendMode(RunMain(f, response, parse, tokenSet, firebaseSet).history);
      && (forall it :: it in Select(data, h1, grade, table) ==> it.url.None?)
      && ((forall r :: r in data ==> "link" in r) ==> Select(data, h1, grade, table) == [])
  {
    var data := FetchMoeData(response, parse);
    var h0 := LoadAppendMode(f);
    var h1 := LoadAppendMode(RunMain(f, response, parse, tokenSet, firebaseSet).history);
    RunMainKeepsHistory(f, response, parse, tokenSet, firebaseSet);
    forall i | 0 <= i < |data| && "link" in data[i] && Keep(data[i], h0, grade) ensures data[i]["link"] in h1 {
      KeptIsRecorded(f, response, parse, tokenSet, firebaseSet, grade, table, i);
    }
    SelectAfterRecording(data, h0, h1, grade, table);
  }

  /** With clean record links, the link of every reported item is in the history the
      run leaves. */
  lemma ReportedLinksRecorded(f: File, response: Option<string>, parse: Parser, tokenSet: bool, firebaseSet: bool)
    requires WellTerminated(f)
    requires forall r :: r in FetchMoeData(response, parse) && "link" in r ==> CleanLink(r["link"])
    ensures var o := RunMain(f, response, parse, tokenSet, firebaseSet);
      forall it :: it in o.reported && it.url.Some? ==> it.url.value in LoadAppendMode(o.history)
  {
    var data := FetchMoeData(response, parse);
    var o := RunMain(f, response, parse, tokenSet, firebaseSet);
    RunMainReportsNewItems(f, response, parse, tokenSet, firebaseSet);
    forall it | it in o.reported && it.url.Some? ensures CleanLink(it.url.value) {
      ReportedLinkIsRecordLink(data, LoadAppendMode(f), it);
    }
    RunMainRecordsLinks(f, response, parse, tokenSet, firebaseSet);
  }

  /** A record kept on a run has its link recorded by it, when the history file is
      newline-terminated and the record links are clean. */
  lemma KeptIsRecorded(f: File, response: Option<string>, parse: Parser, tokenSet: bool, firebaseSet: bool, grade: string, table: map<string, string>, i: nat)
    requires WellTerminated(f)
    requires forall r :: r in FetchMoeData(response, parse) && "link" in r ==> CleanLink(r["link"])
    requires (grade == GradeOne && table == Subjects.SubjectMapG1) || (grade == GradeTwo && table == Subjects.SubjectMapG2)
    requires var data := FetchMoeData(response, parse);
      i < |data| && "link" in data[i] && Keep(data[i], LoadAppendMode(f), grade)
    ensures FetchMoeData(response, parse)[i]["link"] in LoadAppendMode(RunMain(f, response, parse, tokenSet, firebaseSet).history)
  {
    var data := FetchMoeData(response, parse);
    ReportedLinksRecorded(f, response, parse, tokenSet, firebaseSet);
    KeptIsReported(data, LoadAppendMode(f), grade, table, i);
    RunMainReportsNewItems(f, response, parse, tokenSet, firebaseSet);
    assert ItemFor(data[i], grade, table) in RunMain(f, response, parse, tokenSet, firebaseSet).reported;
  }

  /** Every reported link is the link of some input record. */
  lemma ReportedLinkIsRecordLink(data: seq<Record>, h: set<string>, it: Item)
    requires it in Select(data, h, GradeOne, Subjects.SubjectMapG1) + Select(data, h, GradeTwo, Subjects.SubjectMapG2)
    requires it.url.Some?
    ensures exists r :: r in data && "link" in r && r["link"] == it.url.value
  {
    if it in Select(data, h, GradeOne, Subjects.SubjectMapG1) {
      SelectedLinkIsRecordLink(data, h, GradeOne, Subjects.SubjectMapG1, it);
    } else {
      SelectedLinkIsRecordLink(data, h, GradeTwo, Subjects.SubjectMapG2, it);
    }
  }

  /** The same for one grade's list. */
  lemma SelectedLinkIsRecordLink(data: seq<Record>, h: set<string>, grade: string, table: map<string, string>, it: Item)
    requires it in Select(data, h, grade, table) && it.url.Some?
    ensures exists r :: r in data && "link" in r && r["link"] == it.url.value
  {
    SelectIsIndexed(data, h, grade, table);
    var out := Select(data, h, grade, table);
    var j :| 0 <= j < |out| && out[j] == it;
    var r := data[Indices(data, h, grade)[j]];
    assert r in data && "link" in r && r["link"] == it.url.value;
  }

  /** A record without a link, carrying the marker and one of the two grade labels, is
      reported on every run, whatever the history holds. */
  lemma LinklessRecordRepeats(f: File, response: Option<string>, parse: Parser, tokenSet: bool, firebaseSet: bool, r: Record)
    requires r in FetchMoeData(response, parse) && "link" !in r
    requires Contains(TypeText(r), TargetTypeFilter)
    requires Get(r, "grade") == Some(GradeOne) || Get(r, "grade") == Some(GradeTwo)
    ensures exists it :: it in RunMain(f, response, parse, tokenSet, firebaseSet).reported && it.url.None? && it.name == SubjectOf(r)
  {
    var data := FetchMoeData(response, parse);
    var h := LoadAppendMode(f);
    var i :| 0 <= i < |data| && data[i] == r;
    RunMainReportsNewItems(f, response, parse, tokenSet, firebaseSet);
    if Get(r, "grade") == Some(GradeOne) {
      KeptIsReported(data, h, GradeOne, Subjects.SubjectMapG1, i);
      assert ItemFor(r, GradeOne, Subjects.SubjectMapG1) in RunMain(f, response, parse, tokenSet, firebaseSet).reported;
    } else {
      KeptIsReported(data, h, GradeTwo, Subjects.SubjectMapG2, i);
      assert ItemFor(r, GradeTwo, Subjects.SubjectMapG2) in RunMain(f, response, parse, tokenSet, firebaseSet).reported;
    }
  }
}
