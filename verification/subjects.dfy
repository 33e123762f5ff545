/** The subject tables that turn a subject name into the numeric type id the
    application uses, one table per grade, looked up with default "0". */
module Subjects {
  import opened Text

  /** Subjects of the first secondary grade. */
  const EntriesG1: seq<(string, string)> := [
    ("اللغة العربية", "1"),
    ("اللغة الانجليزية لغة اولى", "2"),
    ("العلوم المتكاملة باللغة العربية", "3"),
    ("العلوم المتكاملة باللغة الإنجليزية", "4"),
    ("الرياضيات باللغة العربية", "5"),
    ("الرياضيات باللغة الانجليزية", "6"),
    ("التاريخ", "7"),
    ("اللغة الفرنسية لغة أولى", "8"),
    ("اللغة الايطالية لغة ثانية", "9"),
    ("اللغة الإسبانية لغة ثانية", "10"),
    ("اللغة الصينية لغة ثانية", "11"),
    ("اللغة الفرنسية لغة ثانية", "12"),
    ("اللغة الالمانية لغة ثانية", "13"),
    ("البرمجة والذكاء الاصطناعي باللغة العربية", "14"),
    ("التربية الدينية الإسلامية", "15"),
    ("التربية الدينية المسيحية", "16"),
    ("الفلسفة والمنطق", "17")
  ]

  /** Subjects of the second secondary grade. */
  const EntriesG2: seq<(string, string)> := [
    ("اللغة العربية", "1"),
    ("اللغة الانجليزية لغة اولى", "2"),
    ("الفيزياء باللغة العربية", "3"),
    ("الفيزياء باللغة الانجليزية", "4"),
    ("الكيمياء باللغة العربية", "5"),
    ("الرياضيات البحتة باللغة العربية", "6"),
    ("الرياضيات البحتة باللغة الانجليزية", "7"),
    ("تطبيقات الرياضيات باللغة العربية", "8"),
    ("تطبيقات الرياضيات باللغة الانجليزية", "9"),
    ("الرياضيات العامة باللغة العربية", "10"),
    ("الرياضيات العامة باللغة الإنجليزية", "11"),
    ("علم النفس والاجتماع", "12"),
    ("التاريخ", "13"),
    ("جغرافيا التنمية", "14"),
    ("اللغة الإسبانية لغة ثانية", "15"),
    ("اللغة الصينية لغة ثانية", "16"),
    ("اللغة الالمانية لغة ثانية", "17"),
    ("اللغة الايطالية لغة ثانية", "18"),
    ("اللغة الفرنسية لغة أولى", "19"),
    ("اللغة الفرنسية لغة ثانية", "20"),
    ("التربية الدينية الإسلامية", "21"),
    ("التربية الدينية المسيحية", "22"),
    ("الكيمياء باللغة الانجليزية", "23")
  ]

  /** No later entry repeats the key of entry `i`. */
  predicate LastFor(entries: seq<(string, string)>, i: nat)
    requires i < |entries|
  {
    forall j :: i < j < |entries| ==> entries[j].0 != entries[i].0
  }

  /** The dictionary a display of `(key, value)` entries builds: a later entry for the
      same key overrides an earlier one. */
  function MapOf(entries: seq<(string, string)>): (m: map<string, string>)
    ensures forall k :: k in m <==> exists i :: 0 <= i < |entries| && entries[i].0 == k
    decreases |entries|
  {
    if entries == [] then map[]
    else
      var last := entries[|entries| - 1];
      var m := MapOf(entries[..|entries| - 1])[last.0 := last.1];
      assert forall i :: 0 <= i < |entries| - 1 ==> entries[..|entries| - 1][i] == entries[i];
      m
  }

  /** The last entry for a key wins: an entry that no later entry overrides gives
      its key's value. */
  lemma {:induction false} MapOfLastWins(entries: seq<(string, string)>, i: nat)
    requires i < |entries| && LastFor(entries, i)
    ensures MapOf(entries)[entries[i].0] == entries[i].1
    decreases |entries|
  {
    var n := |entries| - 1;
    if i < n {
      var init := entries[..n];
      assert entries[n].0 != entries[i].0;
      assert init[i] == entries[i];
      assert LastFor(init, i) by {
        forall j | i < j < |init| ensures init[j].0 != init[i].0 {
          assert init[j] == entries[j];
        }
      }
      MapOfLastWins(init, i);
    }
  }

  const SubjectMapG1: map<string, string> := MapOf(EntriesG1)
  const SubjectMapG2: map<string, string> := MapOf(EntriesG2)

  /** The id "0" stands for an unknown subject. */
  const UnknownId: string := "0"

  /** `table.get(subject, "0")`: total, never fails on an unknown subject. */
  function TypeId(table: map<string, string>, subject: string): (id: string)
    ensures subject in table ==> id == table[subject]
    ensures subject !in table ==> id == UnknownId
  {
    if subject in table then table[subject] else UnknownId
  }

  /** A well-formed id: a non-empty digit string other than the sentinel. */
  predicate IsKnownId(id: string) {
    id != [] && AllDigits(id) && id != UnknownId
  }

  /** A well-formed table: all its ids are well formed. */
  predicate WellFormedTable(table: map<string, string>) {
    forall k :: k in table ==> IsKnownId(table[k])
  }

  /** Every value of the built dictionary comes from some entry. */
  lemma {:induction false} MapOfValues(entries: seq<(string, string)>)
    requires forall i :: 0 <= i < |entries| ==> IsKnownId(entries[i].1)
    ensures WellFormedTable(MapOf(entries))
    decreases |entries|
  {
    if entries != [] {
      var init := entries[..|entries| - 1];
      assert forall i :: 0 <= i < |init| ==> init[i] == entries[i];
      MapOfValues(init);
    }
  }

  /** Both tables use only well-formed ids: none of them is the sentinel "0". */
  lemma TableG1WellFormed()
    ensures WellFormedTable(SubjectMapG1)
  {
    MapOfValues(EntriesG1);
  }

  lemma TableG2WellFormed()
    ensures WellFormedTable(SubjectMapG2)
  {
    MapOfValues(EntriesG2);
  }

  /** With a well-formed table the sentinel is unambiguous: the id is "0" exactly when
      the subject is not in the table, and it is always a digit string. */
  lemma TypeIdIsUnknownIff(table: map<string, string>, subject: string)
    requires WellFormedTable(table)
    ensures TypeId(table, subject) == UnknownId <==> subject !in table
    ensures TypeId(table, subject) != [] && AllDigits(TypeId(table, subject))
  {
  }
}
