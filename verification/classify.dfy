/** The classifier and change detector: which fetched records become new items, and
    for which grade. A record is kept when its type text carries the assessment marker
    and its link is not yet in the history; it then goes to the list of its grade,
    with the id its subject has in that grade's table. */
module Classify {
  import opened Options
  import opened Text
  import Week
  import Subjects

  /** A record of the fetched data: the string-valued fields of one dictionary. */
  type Record = map<string, string>

  /** The marker a type text must contain for the record to be an assessment. */
  const TargetTypeFilter: string := "تقييم"
  const GradeOne: string := "الصف الاول الثانوي"
  const GradeTwo: string := "الصف الثاني الثانوي"

  /** A new item; `url` is None when the record had no link. */
  datatype Item = Item(name: string, url: Option<string>, week: string, rawGrade: string, typeId: string)

  /** `record.get(key)` */
  function Get(r: Record, key: string): (v: Option<string>)
    ensures v.Some? <==> key in r
    ensures v.Some? ==> v.value == r[key]
  {
    if key in r then Some(r[key]) else None
  }

  /** `str(record.get('type'))`: a missing type reads as the text "None". */
  function TypeText(r: Record): (t: string)
    ensures "type" in r ==> t == r["type"]
    ensures "type" !in r ==> t == "None"
  {
    match Get(r, "type")
    case Some(t) => t
    case None => "None"
  }

  /** `record.get('subject', '').strip()` */
  function SubjectOf(r: Record): (s: string)
    ensures "subject" !in r ==> s == []
    ensures "subject" in r ==> s == Strip(r["subject"])
  {
    match Get(r, "subject")
    case Some(s) => Strip(s)
    case None => []
  }

  /** The link is already recorded; a missing link never is. */
  predicate Seen(r: Record, history: set<string>) {
    "link" in r && r["link"] in history
  }

  /** The record passes both filters and carries grade label `grade`. A record without
      a grade, with a recorded link, or without a type (whose text "None" lacks the
      marker) is never kept. */
  predicate Keep(r: Record, history: set<string>, grade: string)
    ensures Keep(r, history, grade) ==> "grade" in r && r["grade"] == grade
    ensures "link" in r && r["link"] in history ==> !Keep(r, history, grade)
    ensures "type" !in r ==> !Keep(r, history, grade)
  {
    && Contains(TypeText(r), TargetTypeFilter)
    && !Seen(r, history)
    && Get(r, "grade") == Some(grade)
  }

  /** The item built for a kept record of grade `grade`, whose subject table is `table`. */
  function ItemFor(r: Record, grade: string, table: map<string, string>): (it: Item)
    ensures it.name == SubjectOf(r) && it.url == Get(r, "link") && it.rawGrade == grade
    ensures it.week == Week.ParseWeek(TypeText(r))
    ensures it.typeId == Subjects.TypeId(table, SubjectOf(r))
  {
    var subject := SubjectOf(r);
    Item(subject, Get(r, "link"), Week.ParseWeek(TypeText(r)), grade, Subjects.TypeId(table, subject))
  }

  /** Reference definition of one output list: the items of the kept records of grade
      `grade`, in input order. */
  function Select(rs: seq<Record>, history: set<string>, grade: string, table: map<string, string>): (out: seq<Item>)
    ensures |out| <= |rs|
    decreases |rs|
  {
    if rs == [] then []
    else
      var n := |rs| - 1;
      Select(rs[..n], history, grade, table)
        + (if Keep(rs[n], history, grade) then [ItemFor(rs[n], grade, table)] else [])
  }

  /** Positions of the kept records of grade `grade`, in increasing order. */
  function Indices(rs: seq<Record>, history: set<string>, grade: string): (idx: seq<nat>)
    ensures forall j :: 0 <= j < |idx| ==> idx[j] < |rs| && Keep(rs[idx[j]], history, grade)
    ensures forall j, k :: 0 <= j < k < |idx| ==> idx[j] < idx[k]
    ensures forall i :: 0 <= i < |rs| && Keep(rs[i], history, grade) ==> i in idx
    decreases |rs|
  {
    if rs == [] then []
    else
      var n := |rs| - 1;
      var init := Indices(rs[..n], history, grade);
      assert forall i :: 0 <= i < n ==> rs[..n][i] == rs[i];
      init + (if Keep(rs[n], history, grade) then [n] else [])
  }

  /** Each output list is the order-preserving subsequence of the kept records of its
      grade: its j-th item is built from the record at the j-th kept position. */
  lemma {:induction false} SelectIsIndexed(rs: seq<Record>, history: set<string>, grade: string, table: map<string, string>)
    ensures var out := Select(rs, history, grade, table);
      var idx := Indices(rs, history, grade);
      && |out| == |idx|
      && forall j :: 0 <= j < |out| ==> out[j] == ItemFor(rs[idx[j]], grade, table)
    decreases |rs|
  {
    if rs != [] {
      var n := |rs| - 1;
      SelectIsIndexed(rs[..n], history, grade, table);
      var out, idx := Select(rs, history, grade, table), Indices(rs, history, grade);
      var out0, idx0 := Select(rs[..n], history, grade, table), Indices(rs[..n], history, grade);
      forall j | 0 <= j < |out0| ensures out[j] == ItemFor(rs[idx[j]], grade, table) {
        assert out[j] == out0[j] && idx[j] == idx0[j];
        assert rs[..n][idx0[j]] == rs[idx0[j]];
      }
    }
  }

  /** What every output item promises: its grade label is the list's, its link was not
      in the history, its week is a digit string and its id is the table's id of its
      trimmed subject, "0" for a subject the table lacks. */
  lemma SelectItemsSound(rs: seq<Record>, history: set<string>, grade: string, table: map<string, string>)
    ensures forall it :: it in Select(rs, history, grade, table) ==>
      && it.rawGrade == grade
      && (it.url.Some? ==> it.url.value !in history)
      && it.week != [] && AllDigits(it.week)
      && (it.name in table ==> it.typeId == table[it.name])
      && (it.name !in table ==> it.typeId == Subjects.UnknownId)
  {
    SelectIsIndexed(rs, history, grade, table);
  }

  /** Every kept record of the grade is reported: its item is in the output list. */
  lemma KeptIsReported(rs: seq<Record>, history: set<string>, grade: string, table: map<string, string>, i: nat)
    requires i < |rs| && Keep(rs[i], history, grade)
    ensures ItemFor(rs[i], grade, table) in Select(rs, history, grade, table)
  {
    SelectIsIndexed(rs, history, grade, table);
    var idx := Indices(rs, history, grade);
    var j :| 0 <= j < |idx| && idx[j] == i;
    assert Select(rs, history, grade, table)[j] == ItemFor(rs[i], grade, table);
  }

  /** A record whose grade label is neither of the two appears in neither list, and no
      record appears in both: together the lists are at most as long as the input. */
  lemma {:induction false} GradesPartition(rs: seq<Record>, history: set<string>)
    ensures |Select(rs, history, GradeOne, Subjects.SubjectMapG1)| + |Select(rs, history, GradeTwo, Subjects.SubjectMapG2)| <= |rs|
    ensures forall i :: 0 <= i < |rs| && Get(rs[i], "grade") != Some(GradeOne) ==> i !in Indices(rs, history, GradeOne)
    ensures forall i :: 0 <= i < |rs| && Get(rs[i], "grade") != Some(GradeTwo) ==> i !in Indices(rs, history, GradeTwo)
    decreases |rs|
  {
    if rs != [] {
      GradesPartition(rs[..|rs| - 1], history);
    }
  }

  /** `process_items`: one pass over the records, appending each kept record's item to
      the list of its grade. */
  method ProcessItems(rs: seq<Record>, history: set<string>) returns (g1: seq<Item>, g2: seq<Item>)
    ensures g1 == Select(rs, history, GradeOne, Subjects.SubjectMapG1)
    ensures g2 == Select(rs, history, GradeTwo, Subjects.SubjectMapG2)
  {
    g1, g2 := [], [];
    var i := 0;
    while i < |rs|
      invariant i <= |rs|
      invariant g1 == Select(rs[..i], history, GradeOne, Subjects.SubjectMapG1)
      invariant g2 == Select(rs[..i], history, GradeTwo, Subjects.SubjectMapG2)
    {
      var r := rs[i];
      assert rs[..i + 1][..i] == rs[..i];
      if Contains(TypeText(r), TargetTypeFilter) && !Seen(r, history) {
        var grade := Get(r, "grade");
        if grade == Some(GradeOne) {
          g1 := g1 + [ItemFor(r, GradeOne, Subjects.SubjectMapG1)];
        } else if grade == Some(GradeTwo) {
          g2 := g2 + [ItemFor(r, GradeTwo, Subjects.SubjectMapG2)];
        }
      }
      i := i + 1;
    }
    assert rs[..i] == rs;
  }
}
