/**
 * The applied-students page (frontend/src/pages/applications/AppliedStudents.jsx):
 * the search over the loaded students, the single expanded row, the colour
 * of an application stage and the latest application shown per student.
 */
module AppliedStudents {
  import opened Common
  import opened Text

  type Id = string

  datatype Application = Application(id: Id, applicationNo: Option<string>, stage: Option<string>,
                                     paymentStatus: Option<string>)

  /** A student as the applied-students endpoint returns it; every field may be missing. */
  datatype Student = Student(id: Id, firstName: Option<string>, lastName: Option<string>, email: Option<string>,
                             passportNumber: Option<string>, applications: Option<seq<Application>>)

  // ---------------------------------------------------------------------------
  // Loading and searching
  // ---------------------------------------------------------------------------

  datatype Loaded = Loaded(students: seq<Student>, error: Option<string>)

  /**
   * `fetchAppliedStudents`: `response.data || []`; a failed request keeps the
   * current list and reports an error. `fetched` is None when the request failed.
   */
  function Load(current: seq<Student>, fetched: Option<Option<seq<Student>>>): (r: Loaded)
    ensures fetched.None? ==> r == Loaded(current, Some("Failed to load applied students"))
    ensures fetched.Some? ==> r.error.None? && (fetched.value.Some? ==> r.students == fetched.value.value)
    ensures fetched.Some? && fetched.value.None? ==> r.students == []
  {
    if fetched.None? then Loaded(current, Some("Failed to load applied students"))
    else if fetched.value.None? then Loaded([], None)
    else Loaded(fetched.value.value, None)
  }

  /** `student.firstName + ' ' + student.lastName`: a missing part reads `undefined`. */
  function FullName(s: Student): string {
    Interpolate(s.firstName) + " " + Interpolate(s.lastName)
  }

  /** `field?.toLowerCase().includes(query)`: a missing field never matches. */
  predicate FieldMatches(field: Option<string>, query: string) {
    field.Some? && Contains(Lower(field.value), query)
  }

  /** The student matches an already lower-cased query on full name, e-mail or passport number. */
  predicate MatchesQuery(s: Student, query: string) {
    Contains(Lower(FullName(s)), query) || FieldMatches(s.email, query) || FieldMatches(s.passportNumber, query)
  }

  function Matching(query: string): Student -> bool {
    (s: Student) => MatchesQuery(s, query)
  }

  /** `filteredStudents`: the students matching the search term, case-insensitively. */
  function FilteredStudents(students: seq<Student>, term: string): (r: seq<Student>)
    ensures |r| <= |students|
  {
    Filter(students, Matching(Lower(term)))
  }

  /** A student is listed exactly when loaded and matching; the list keeps the loaded order. */
  lemma FilteredStudentsMembers(students: seq<Student>, term: string)
    ensures forall s :: s in FilteredStudents(students, term) <==> s in students && MatchesQuery(s, Lower(term))
    ensures IsSubseq(FilteredStudents(students, term), students)
  {
    var p := Matching(Lower(term));
    FilterMembers(students, p);
    var r := FilteredStudents(students, term);
    forall s | s in students && MatchesQuery(s, Lower(term)) ensures s in r {
      var i :| 0 <= i < |students| && students[i] == s;
      assert p(students[i]);
    }
  }

  /** An empty search term lists every student. */
  lemma EmptyTermShowsAll(students: seq<Student>)
    ensures FilteredStudents(students, "") == students
  {
    forall i | 0 <= i < |students| ensures Matching(Lower(""))(students[i]) {
      ContainsEmpty(Lower(FullName(students[i])));
    }
    FilterAll(students, Matching(Lower("")));
  }

  /** The search is case-insensitive: the term typed in capitals lists the same students. */
  lemma TermIgnoresCase(students: seq<Student>, term: string)
    ensures FilteredStudents(students, Upper(term)) == FilteredStudents(students, term)
  {
    LowerOfUpper(term);
  }

  /**
   * Without e-mail and passport number only the name can match, and a term
   * longer than the printed name finds nothing.
   */
  lemma NameOnlyMatch(s: Student, term: string)
    requires s.email.None? && s.passportNumber.None?
    ensures MatchesQuery(s, Lower(term)) <==> Contains(Lower(FullName(s)), Lower(term))
    ensures |term| > |FullName(s)| ==> !MatchesQuery(s, Lower(term))
  {
    if |term| > |FullName(s)| {
      ContainsShorter(Lower(FullName(s)), Lower(term));
    }
  }

  // ---------------------------------------------------------------------------
  // The expanded row
  // ---------------------------------------------------------------------------

  /** `toggleExpand`: the id of the one expanded student, or none. */
  function ToggleExpand(expanded: Option<Id>, id: Id): (r: Option<Id>)
    ensures r == None <==> expanded == Some(id)
  {
    if expanded == Some(id) then None else Some(id)
  }

  predicate IsExpanded(expanded: Option<Id>, s: Student) { expanded == Some(s.id) }

  function IsExpandedFn(expanded: Option<Id>): Student -> bool {
    (s: Student) => IsExpanded(expanded, s)
  }

  function Ids(students: seq<Student>): (r: seq<Id>)
    ensures |r| == |students| && forall i :: 0 <= i < |students| ==> r[i] == students[i].id
  {
    seq(|students|, i requires 0 <= i < |students| => students[i].id)
  }

  /**
   * At most one rendered row shows its applications: with the listed
   * students' ids distinct, exactly one row is open when the expanded id is
   * listed, and none otherwise.
   */
  lemma {:induction false} AtMostOneExpanded(students: seq<Student>, expanded: Option<Id>)
    requires Distinct(Ids(students))
    ensures |Filter(students, IsExpandedFn(expanded))| == if expanded.Some? && expanded.value in Ids(students) then 1 else 0
  {
    if students != [] {
      var t := students[1..];
      assert Ids(t) == Ids(students)[1..];
      AtMostOneExpanded(t, expanded);
      if IsExpanded(expanded, students[0]) {
        forall k | 0 <= k < |t| ensures !IsExpandedFn(expanded)(t[k]) {
          assert Ids(students)[0] != Ids(students)[k + 1];
        }
        FilterNone(t, IsExpandedFn(expanded));
        assert expanded.value in Ids(students);
        assert expanded.value !in Ids(t);
      } else {
        assert expanded.Some? && expanded.value in Ids(students) <==> expanded.Some? && expanded.value in Ids(t);
      }
    }
  }

  /** After the toggle the clicked row is open exactly when it was closed, and every other row is closed. */
  lemma ToggleExpandOpens(expanded: Option<Id>, id: Id, other: Id)
    requires other != id
    ensures ToggleExpand(expanded, id) == Some(id) <==> expanded != Some(id)
    ensures ToggleExpand(expanded, id) != Some(other)
  {
  }

  /** Two toggles of one row restore the prior state exactly when nothing or that row was open. */
  lemma ToggleExpandTwice(expanded: Option<Id>, id: Id)
    ensures ToggleExpand(ToggleExpand(expanded, id), id) == expanded <==> expanded.None? || expanded == Some(id)
  {
  }

  // ---------------------------------------------------------------------------
  // Stage colours and the latest application
  // ---------------------------------------------------------------------------

  /** The three utility classes of a stage badge: background, text colour and border. */
  datatype Style = Style(background: string, text: string, border: string)

  /** Each class is one word, so the class string can be split back on spaces. */
  predicate OneWordClasses(st: Style) {
    ' ' !in st.background && ' ' !in st.text && ' ' !in st.border
  }

  /** The Tailwind badge of a colour: `bg-<colour>-50`, `text-<colour>-<shade>`, `border-<colour>-100`. */
  function Palette(colour: string, shade: string): (r: Style)
    requires ' ' !in colour && ' ' !in shade
    ensures OneWordClasses(r)
  {
    Style("bg-" + colour + "-50", "text-" + colour + "-" + shade, "border-" + colour + "-100")
  }

  /** The colour can be read back off the background class, so different colours give different badges. */
  lemma PaletteColour(colour: string, shade: string)
    requires ' ' !in colour && ' ' !in shade
    ensures var bg := Palette(colour, shade).background; bg[3..|bg| - 3] == colour
  {
    var bg := Palette(colour, shade).background;
    assert bg == "bg-" + colour + "-50";
    assert bg[3..|bg| - 3] == colour;
  }

  /** The badge of a stage: one of four colours for the named stages, gray otherwise. */
  function StageStyle(stage: Option<string>): (r: Style)
    ensures OneWordClasses(r)
  {
    if stage == Some("Pre-Payment") then Palette("amber", "600")
    else if stage == Some("Submission") then Palette("blue", "600")
    else if stage == Some("Admission") then Palette("purple", "600")
    else if stage == Some("Arrival") then Palette("green", "600")
    else Palette("gray", "500")
  }

  /** `getStageColor`: the class string of a stage badge. */
  function StageColor(stage: Option<string>): string {
    var st := StageStyle(stage);
    st.background + " " + st.text + " " + st.border
  }

  /** The text colour the application cards use: `getStageColor(stage).split(' ')[1]`. */
  function StageTextColor(stage: Option<string>): string {
    var parts := SplitOn(StageColor(stage), ' ');
    if |parts| > 1 then parts[1] else "undefined"
  }

  predicate KnownStage(stage: Option<string>) {
    stage in {Some("Pre-Payment"), Some("Submission"), Some("Admission"), Some("Arrival")}
  }

  /** The class string splits back into its three classes. */
  lemma StageColorWords(stage: Option<string>)
    ensures SplitOn(StageColor(stage), ' ') == [StageStyle(stage).background, StageStyle(stage).text, StageStyle(stage).border]
  {
    var st := StageStyle(stage);
    SplitOnWords(st.background, st.text, st.border, ' ');
  }

  /** Different class strings come from different styles. */
  lemma StageColorInjective(a: Option<string>, b: Option<string>)
    requires StageColor(a) == StageColor(b)
    ensures StageStyle(a) == StageStyle(b)
  {
    StageColorWords(a);
    StageColorWords(b);
  }

  /** The four named stages get four different badges; every other stage, or none, gets the gray one. */
  lemma StageColorsDistinct(a: Option<string>, b: Option<string>)
    ensures KnownStage(a) && KnownStage(b) && a != b ==> StageColor(a) != StageColor(b)
    ensures KnownStage(a) ==> StageColor(a) != StageColor(None)
    ensures !KnownStage(a) ==> StageColor(a) == StageColor(None)
  {
    PaletteColour("amber", "600");
    PaletteColour("blue", "600");
    PaletteColour("purple", "600");
    PaletteColour("green", "600");
    PaletteColour("gray", "500");
    if StageColor(a) == StageColor(b) {
      StageColorInjective(a, b);
    }
    if StageColor(a) == StageColor(None) {
      StageColorInjective(a, None);
    }
  }

  /** The card text colour is the badge's second class. */
  lemma StageColorText(stage: Option<string>)
    ensures StageTextColor(stage) == StageStyle(stage).text
  {
    StageColorWords(stage);
  }

  /** `student.applications?.[0]`: the latest milestone shown in the row. */
  function LatestApplication(s: Student): (r: Option<Application>)
    ensures r.Some? ==> s.applications.Some? && r.value in s.applications.value
  {
    if s.applications.Some? && s.applications.value != [] then Some(s.applications.value[0]) else None
  }

  /** `student.applications?.length || 0`. */
  function ApplicationCount(s: Student): nat {
    if s.applications.Some? then |s.applications.value| else 0
  }

  /** The row shows a milestone exactly when its application count is positive. */
  lemma LatestIffCounted(s: Student)
    ensures LatestApplication(s).Some? <==> ApplicationCount(s) > 0
  {
  }

  /** `student.passportNumber || "NO-PASSPORT"`. */
  function PassportLabel(s: Student): (r: string)
    ensures r != []
    ensures s.passportNumber.Some? && s.passportNumber.value != [] ==> r == s.passportNumber.value
  {
    OrElse(s.passportNumber, "NO-PASSPORT")
  }
}
