/** The stand-alone page monitor (monitor.py): keep the PDF links of the listing page,
    compare them with the snapshot of the previous run, alert on the new ones and
    replace the snapshot. The browser session is a parameter: the hrefs it found, or
    None when it raised. */
module Monitor {
  import opened Options
  import opened Text
  import opened History

  /** A full-path PDF link: the href starts with "http" and ends with ".pdf". */
  predicate IsPdfLink(href: string) {
    EndsWith(href, ".pdf") && StartsWith(href, "http")
  }

  /** The reference definition of the href filter. */
  function PdfLinkSet(hrefs: seq<string>): (links: set<string>)
    ensures forall h :: h in links <==> h in hrefs && IsPdfLink(h)
  {
    set h | h in hrefs && IsPdfLink(h)
  }

  /** `get_current_links`' loop over the anchors: collects the hrefs that pass the
      filter, in one pass. */
  method PdfLinks(hrefs: seq<string>) returns (links: set<string>)
    ensures forall h :: h in links <==> h in hrefs && IsPdfLink(h)
    ensures links == PdfLinkSet(hrefs)
  {
    links := {};
    var i := 0;
    while i < |hrefs|
      invariant 0 <= i <= |hrefs|
      invariant forall h :: h in links <==> h in hrefs[..i] && IsPdfLink(h)
    {
      var href := hrefs[i];
      if EndsWith(href, ".pdf") && StartsWith(href, "http") {
        links := links + {href};
      }
      assert hrefs[..i + 1] == hrefs[..i] + [href];
      i := i + 1;
    }
    assert hrefs[..i] == hrefs;
  }

  /** The links of one browser session; a session that raised yields the empty set. */
  function CurrentLinks(page: Option<seq<string>>): (links: set<string>)
    ensures page.None? ==> links == {}
    ensures page.Some? ==> forall h :: h in links <==> h in page.value && IsPdfLink(h)
  {
    match page
    case None => {}
    case Some(hrefs) => PdfLinkSet(hrefs)
  }

  /** Start of the last '/'-separated segment of `s[..e]`. */
  function SegmentStart(s: string, e: nat): (j: nat)
    requires e <= |s|
    ensures j <= e
    ensures forall k :: j <= k < e ==> s[k] != '/'
    ensures j == 0 || s[j - 1] == '/'
    decreases e
  {
    if e == 0 || s[e - 1] == '/' then e else SegmentStart(s, e - 1)
  }

  /** `link.split('/')[-1]`: the suffix of `link` after its last '/', or all of it
      when it has none. */
  function LastSegment(link: string): (r: string)
    ensures '/' !in r
    ensures EndsWith(link, r)
    ensures r == link || link[|link| - |r| - 1] == '/'
  {
    var j := SegmentStart(link, |link|);
    var r := link[j..];
    assert forall k :: 0 <= k < |r| ==> r[k] == link[j + k];
    r
  }

  /** The segment of `s[..e]` starts right after a '/' at `m - 1` when none follows it. */
  lemma {:induction false} SegmentStartAfterSlash(s: string, m: nat, e: nat)
    requires 0 < m <= e <= |s| && s[m - 1] == '/'
    requires forall k :: m <= k < e ==> s[k] != '/'
    ensures SegmentStart(s, e) == m
    decreases e
  {
    if e > m {
      SegmentStartAfterSlash(s, m, e - 1);
    }
  }

  /** A path whose final component has no '/' splits off exactly that component. */
  lemma LastSegmentOfPath(dir: string, name: string)
    requires '/' !in name
    ensures LastSegment(dir + "/" + name) == name
  {
    var s := dir + "/" + name;
    forall k | |dir| + 1 <= k < |s| ensures s[k] != '/' {
      assert s[k] == name[k - |dir| - 1];
    }
    SegmentStartAfterSlash(s, |dir| + 1, |s|);
    assert s[|dir| + 1..] == name;
  }

  /** `name = link.split('/')[-1].replace('.pdf', '')` of the alert message. */
  function DisplayName(link: string): (name: string)
    ensures '/' !in name
    ensures IsSubsequence(name, LastSegment(link))
  {
    var name := RemoveAll(LastSegment(link), ".pdf");
    SubsequenceElements(name, LastSegment(link));
    name
  }

  /** Removing ".pdf" from `stem + ".pdf"` leaves the stem, provided no earlier
      ".pdf" starts inside it. */
  lemma RemoveFinalPdf(stem: string)
    requires !Contains(stem + ".pd", ".pdf")
    ensures RemoveAll(stem + ".pdf", ".pdf") == stem
  {
    assert ".pdf"[..3] == ".pd";
    RemoveAllSkipsTo(stem, ".pdf", []);
    assert stem + ".pdf" + [] == stem + ".pdf";
  }

  /** The usual case: a PDF in some directory is announced under its file name
      without the extension. */
  lemma DisplayNameOfPdf(dir: string, stem: string)
    requires '/' !in stem && !Contains(stem + ".pd", ".pdf")
    ensures DisplayName(dir + "/" + stem + ".pdf") == stem
  {
    assert dir + "/" + stem + ".pdf" == dir + "/" + (stem + ".pdf");
    LastSegmentOfPath(dir, stem + ".pdf");
    RemoveFinalPdf(stem);
  }

  /** The `▪️ [name](link)` lines of an alert, one per link. */
  function AlertEntries(links: set<string>): (es: set<(string, string)>)
    ensures forall e :: e in es <==> e.1 in links && e.0 == DisplayName(e.1)
  {
    set l | l in links :: (DisplayName(l), l)
  }

  /** Each link gives its own line: there are as many lines as links. */
  lemma {:induction false} AlertEntriesCount(links: set<string>)
    ensures |AlertEntries(links)| == |links|
    decreases |links|
  {
    if links != {} {
      var x :| x in links;
      AlertEntriesCount(links - {x});
      assert AlertEntries(links) == AlertEntries(links - {x}) + {(DisplayName(x), x)};
    }
  }

  /** What reaches the channel: an alert with its header count and lines, or one of
      the two status messages. */
  datatype Notice =
    | Alert(count: nat, entries: set<(string, string)>)
    | LoadFailed
    | NoNewFiles

  /** `send_notification(new_links)`: the header counts exactly the listed lines. */
  function AlertFor(links: set<string>): (n: Notice)
    ensures n.Alert? && n.count == |links| == |n.entries|
    ensures forall l :: l in links <==> (DisplayName(l), l) in n.entries
  {
    AlertEntriesCount(links);
    Alert(|links|, AlertEntries(links))
  }

  /** A notice is delivered only when a bot token is configured. */
  function Sent(tokenSet: bool, n: Notice): (out: seq<Notice>)
    ensures out == [] || out == [n]
    ensures out != [] <==> tokenSet
  {
    if tokenSet then [n] else []
  }

  /** `current_links - old_links`. */
  function NewLinks(current: set<string>, seen: set<string>): (added: set<string>)
    ensures forall l :: l in added <==> l in current && l !in seen
  {
    current - seen
  }

  /** The effect of one run: the history file afterwards and what was sent. */
  datatype Outcome = Outcome(history: File, sent: seq<Notice>)

  /** `monitor_website`: load the snapshot, scrape the page, alert on new links and
      replace the snapshot with the current links; keep the snapshot when the page
      gave no links or nothing new. */
  ghost function MonitorRun(f: File, page: Option<seq<string>>, tokenSet: bool): (o: Outcome)
    ensures CurrentLinks(page) == {} ==> o == Outcome(f, Sent(tokenSet, LoadFailed))
    ensures o.history == f || o.history == SaveReplaceMode(CurrentLinks(page))
    ensures o.history != f ==> NewLinks(CurrentLinks(page), LoadReplaceMode(f)) != {}
  {
    var seen := LoadReplaceMode(f);
    var current := CurrentLinks(page);
    if current == {} then Outcome(f, Sent(tokenSet, LoadFailed))
    else
      var added := NewLinks(current, seen);
      if added != {} then Outcome(SaveReplaceMode(current), Sent(tokenSet, AlertFor(added)))
      else Outcome(f, Sent(tokenSet, NoNewFiles))
  }

  /** A run alerts exactly when some current link is missing from the snapshot, and
      then it announces every such link and only those. */
  lemma MonitorRunAlertsOnNewLinks(f: File, page: Option<seq<string>>)
    ensures var o := MonitorRun(f, page, true);
      var added := NewLinks(CurrentLinks(page), LoadReplaceMode(f));
      && (o.sent[0].Alert? <==> added != {})
      && (o.sent[0].Alert? ==>
            && o.sent[0].count == |added|
            && (forall l :: l in added <==> (DisplayName(l), l) in o.sent[0].entries))
  {
  }

  /** When a run finds new links it replaces the snapshot. When every link on the
      page is one line, the file then reads back as exactly those links: links no
      longer listed are forgotten. */
  lemma MonitorRunStoresCurrent(f: File, page: Option<seq<string>>, tokenSet: bool)
    requires NewLinks(CurrentLinks(page), LoadReplaceMode(f)) != {}
    ensures MonitorRun(f, page, tokenSet).history == SaveReplaceMode(CurrentLinks(page))
    ensures (forall h :: h in CurrentLinks(page) ==> IsOneLine(h)) ==>
      LoadReplaceMode(MonitorRun(f, page, tokenSet).history) == CurrentLinks(page)
  {
    if forall h :: h in CurrentLinks(page) ==> IsOneLine(h) {
      LoadAfterReplace(CurrentLinks(page));
    }
  }

  /** A run whose page lists nothing beyond the snapshot keeps the file and sends no
      alert. */
  lemma MonitorRunQuiet(f: File, page: Option<seq<string>>, tokenSet: bool)
    requires CurrentLinks(page) <= LoadReplaceMode(f)
    ensures MonitorRun(f, page, tokenSet).history == f
    ensures forall n :: n in MonitorRun(f, page, tokenSet).sent ==> !n.Alert?
  {
    assert NewLinks(CurrentLinks(page), LoadReplaceMode(f)) == {};
  }

  /** Scraping the same page again right after a run finds nothing new and leaves the
      snapshot alone. */
  lemma MonitorRunSettles(f: File, page: Option<seq<string>>, tokenSet: bool)
    requires forall h :: h in CurrentLinks(page) ==> IsOneLine(h)
    ensures var f1 := MonitorRun(f, page, tokenSet).history;
      && MonitorRun(f1, page, tokenSet).history == f1
      && forall n :: n in MonitorRun(f1, page, tokenSet).sent ==> !n.Alert?
  {
    var f1 := MonitorRun(f, page, tokenSet).history;
    var current := CurrentLinks(page);
    if NewLinks(current, LoadReplaceMode(f)) != {} {
      MonitorRunStoresCurrent(f, page, tokenSet);
    } else {
      assert current <= LoadReplaceMode(f);
    }
    MonitorRunQuiet(f1, page, tokenSet);
  }
}
