/**
 * Subjects and courses: a code such as `Deg1P` (subject `De`, course type
 * `g`, number 1, profile course) and its long name, read by the regular
 * expression `^(KEY|KEY|...)(g|L|(?:S[0-9]))?_?([0-9]+)?P?$`.
 */
module Subjects {
  import opened Wrappers
  import opened Text

  /** The subject table, keys in the order the alternation tries them. */
  const SubjectNames: Table := [
    ("D", "Deutsch"),
    ("De", "Deutsch"),
    ("E", "Englisch"),
    ("En", "Englisch"),
    ("M", "Mathe"),
    ("Ma", "Mathe"),
    ("Geo", "Geografie"),
    ("Phy", "Physik"),
    ("Ph", "Physik"),
    ("Ku", "Kunst"),
    ("Sp", "Sport"),
    ("Sn", "Spanisch"),
    ("Fr", "Französisch"),
    ("Bio", "Biologie"),
    ("Ch", "Chemie"),
    ("Gebi", "Geschichte Bilingual"),
    ("Sem", "Seminar"),
    ("PGW", "PGW"),
    ("Re", "Religion"),
    ("Ge", "Geschichte"),
    ("Bläserkl", "Bläserklasse"),
    ("Kubi", "Kunst Bilingual"),
    ("Biobi", "Biologie Bilingual"),
    ("Thea", "Theater"),
    ("Toefl", "Toefl"),
    ("Phil", "Philosophie"),
    ("BasisK", "Basiskurs"),
    ("In", "Informatik"),
    ("Wind", "Gyloh Winds"),
    ("BigB", "Bigband"),
    ("Förder", "Förderung"),
    ("Osp", "Oberstufensport")
  ]

  const CourseTypes: Table := [("g", "G"), ("L", "L")]

  /** `P?$`: an optional `P`, then the end. */
  predicate ProfileEnd(v: string) {
    v == "P" || v == ""
  }

  /** The text the optional `P` stands for. */
  function PText(p: bool): string {
    if p then "P" else ""
  }

  /** `([0-9]+)?P?$`: the digits are tried first, longest first, then skipped. */
  function NumberPart(v: string): (r: Option<Option<string>>)
  {
    var inGroup :=
      match GreedyRun(v, DigitRun(v), ProfileEnd)
      case Some(k) => Some(Some(v[..k]))
      case None => None;
    if inGroup.Some? then inGroup
    else if ProfileEnd(v) then Some(None)
    else None
  }

  /** `_?([0-9]+)?P?$`: the underscore is tried first, then skipped. */
  function AfterType(v: string): (r: Option<Option<string>>)
  {
    if StartsWith(v, "_") && NumberPart(v[1..]).Some? then NumberPart(v[1..])
    else NumberPart(v)
  }

  predicate AfterTypeMatches(k: string, v: string) {
    AfterType(v).Some?
  }

  /** `S[0-9]` at the start of `v`. */
  predicate SemesterType(v: string) {
    |v| >= 2 && v[0] == 'S' && IsDigit(v[1])
  }

  /** `(g|L|(?:S[0-9]))?` and what follows it: the alternatives of the course
      type from the left, then no course type. */
  function CourseTail(v: string): (r: Option<(Option<string>, Option<string>)>)
  {
    match FirstKey(Keys(CourseTypes), v, AfterTypeMatches)
    case Some(i) =>
      Some((Some(CourseTypes[i].0), AfterType(v[|CourseTypes[i].0|..]).value))
    case None =>
      if SemesterType(v) && AfterType(v[2..]).Some? then Some((Some(v[..2]), AfterType(v[2..]).value))
      else if AfterType(v).Some? then Some((None, AfterType(v).value))
      else None
  }

  predicate CourseTailMatches(k: string, v: string) {
    CourseTail(v).Some?
  }

  /** The captures of a match: the index of the subject key, the course type
      and the course number, the last two `None` when their group did not
      take part. */
  datatype CourseMatch = CourseMatch(subject: nat, courseType: Option<string>, number: Option<string>)

  function MatchCourse(name: string): (r: Option<CourseMatch>)
    ensures r.Some? ==> r.value.subject < |SubjectNames|
  {
    var keys := Keys(SubjectNames);
    match FirstKey(keys, name, CourseTailMatches)
    case None => None
    case Some(i) =>
      var (c, n) := CourseTail(name[|keys[i]|..]).value;
      Some(CourseMatch(i, c, n))
  }

  /** `parseSubject`: the subject's name; a space when there is a course type
      or a number; the course type's long form (the text `undefined` for an
      `S<digit>` type, which the course-type table lacks); the number; and
      ` (P)` when the code ends in `P`. A code that does not match comes back
      unchanged. */
  function ParseSubject(name: string): (r: string)
    ensures MatchCourse(name).None? ==> r == name
  {
    match MatchCourse(name)
    case None => name
    case Some(m) =>
      var space := if m.courseType.Some? || m.number.Some? then " " else "";
      var courseType := if m.courseType.Some? then Rendered(Lookup(CourseTypes, m.courseType.value)) else "";
      SubjectNames[m.subject].1 + space + courseType + m.number.GetOr("")
        + (if EndsWith(name, "P") then " (P)" else "")
  }

  /** A course type the pattern accepts: `g`, `L` or `S` and a digit. */
  predicate IsCourseType(c: Option<string>) {
    c.Some? ==> (c.value == "g" || c.value == "L" || (|c.value| == 2 && SemesterType(c.value)))
  }

  /** The text after the subject key: course type, optional underscore,
      optional number and optional `P`. */
  function TailText(c: Option<string>, u: bool, n: Option<string>, p: bool): string {
    c.GetOr("") + (if u then "_" else "") + n.GetOr("") + PText(p)
  }

  lemma NumberPartExact(n: Option<string>, p: bool)
    requires IsDigitCapture(n)
    ensures NumberPart(n.GetOr("") + PText(p)) == Some(n)
  {
    var v := n.GetOr("") + PText(p);
    var d := n.GetOr("");
    assert v[..|d|] == d && v[|d|..] == PText(p);
    if |d| < |v| {
      assert v[|d|] == 'P';
    }
    assert DigitRun(v) == |d|;
    if n.Some? {
      assert ProfileEnd(v[|d|..]);
    }
  }

  lemma NumberPartSound(v: string)
    requires NumberPart(v).Some?
    ensures var n := NumberPart(v).value;
      IsDigitCapture(n) && v == n.GetOr("") + PText(EndsWith(v, "P"))
  {
    var r := GreedyRun(v, DigitRun(v), ProfileEnd);
    if r.Some? {
      var k := r.value;
      assert v[..k] == v[..DigitRun(v)][..k];
      assert v == v[..k] + v[k..];
    }
  }

  /** What the number part matches starts with a digit or with `P`. */
  lemma NumberPartStart(v: string)
    requires NumberPart(v).Some? && v != []
    ensures v[0] == 'P' || IsDigit(v[0])
  {
    NumberPartSound(v);
    var n := NumberPart(v).value;
    if n.Some? {
      assert v[0] == n.value[0];
    }
  }

  lemma AfterTypeExact(u: bool, n: Option<string>, p: bool)
    requires IsDigitCapture(n)
    ensures AfterType((if u then "_" else "") + n.GetOr("") + PText(p)) == Some(n)
  {
    var w := n.GetOr("") + PText(p);
    NumberPartExact(n, p);
    var v := (if u then "_" else "") + n.GetOr("") + PText(p);
    if u {
      assert v == "_" + w;
      assert v[1..] == w;
      assert StartsWith(v, "_");
    } else {
      assert v == w;
      if w != [] {
        NumberPartStart(w);
      }
    }
  }

  lemma AfterTypeSound(v: string)
    requires AfterType(v).Some?
    ensures var n := AfterType(v).value;
      IsDigitCapture(n) && v == (if StartsWith(v, "_") then "_" else "") + n.GetOr("") + PText(EndsWith(v, "P"))
  {
    if StartsWith(v, "_") {
      if NumberPart(v[1..]).None? {
        NumberPartStart(v);
        assert false;
      }
      UnderscoreSound(v);
    } else {
      NumberPartSound(v);
    }
  }

  lemma UnderscoreSound(v: string)
    requires StartsWith(v, "_") && NumberPart(v[1..]).Some?
    ensures var n := NumberPart(v[1..]).value;
      IsDigitCapture(n) && v == "_" + n.GetOr("") + PText(EndsWith(v, "P"))
  {
    var w := v[1..];
    NumberPartSound(w);
    assert v == "_" + w;
    if w == [] {
      assert v[0] != 'P';
    } else {
      assert v[|v| - 1..] == w[|w| - 1..];
    }
  }

  /** A character a course tail can begin with. */
  predicate TailStartChar(ch: char) {
    ch == 'g' || ch == 'L' || ch == 'S' || ch == '_' || ch == 'P' || IsDigit(ch)
  }

  lemma TailStart(c: Option<string>, u: bool, n: Option<string>, p: bool)
    requires IsCourseType(c) && IsDigitCapture(n) && TailText(c, u, n, p) != []
    ensures TailStartChar(TailText(c, u, n, p)[0])
  {
    var t := TailText(c, u, n, p);
    if c.Some? {
      assert t[0] == c.value[0];
    } else if u {
      assert t[0] == '_';
    } else if n.Some? {
      assert t[0] == n.value[0];
    }
  }

  /** A tail without the trailing `P` ends in some other character. */
  lemma TailEnd(c: Option<string>, u: bool, n: Option<string>, p: bool)
    requires IsCourseType(c) && IsDigitCapture(n)
    requires TailText(c, u, n, p) != []
    ensures TailText(c, u, n, p)[|TailText(c, u, n, p)| - 1] == 'P' <==> p
  {
    var t := TailText(c, u, n, p);
    var last := t[|t| - 1];
    if !p {
      if n.Some? {
        assert last == n.value[|n.value| - 1];
      } else if u {
        assert last == '_';
      } else {
        assert c.Some?;
        assert last == c.value[|c.value| - 1];
      }
    }
  }

  lemma CourseTypeKeys()
    ensures Keys(CourseTypes) == ["g", "L"]
  {
  }

  lemma CourseTailG(w: string)
    requires AfterType(w).Some?
    ensures CourseTail("g" + w) == Some((Some("g"), AfterType(w).value))
  {
    var v := "g" + w;
    assert v[1..] == w;
    CourseTypeKeys();
    FirstKeyIs(Keys(CourseTypes), v, AfterTypeMatches, 0);
  }

  lemma CourseTailL(w: string)
    requires AfterType(w).Some?
    ensures CourseTail("L" + w) == Some((Some("L"), AfterType(w).value))
  {
    var v := "L" + w;
    assert v[1..] == w;
    assert v[0] == 'L';
    CourseTypeKeys();
    FirstKeyIs(Keys(CourseTypes), v, AfterTypeMatches, 1);
  }

  /** Text that neither `g` nor `L` can start. */
  lemma NoLetterType(v: string)
    requires v == [] || (v[0] != 'g' && v[0] != 'L')
    ensures FirstKey(Keys(CourseTypes), v, AfterTypeMatches).None?
  {
    CourseTypeKeys();
    var keys := Keys(CourseTypes);
    if v != [] {
      assert v[..1] != "g" && v[..1] != "L";
    }
    assert !Fits(keys[0], v, AfterTypeMatches) && !Fits(keys[1], v, AfterTypeMatches);
  }

  lemma CourseTailSemester(t: string, w: string)
    requires |t| == 2 && SemesterType(t) && AfterType(w).Some?
    ensures CourseTail(t + w) == Some((Some(t), AfterType(w).value))
  {
    var v := t + w;
    assert v[2..] == w && v[..2] == t && v[0] == 'S';
    NoLetterType(v);
  }

  lemma CourseTailNone(w: string)
    requires AfterType(w).Some? && (w == [] || w[0] == '_' || w[0] == 'P' || IsDigit(w[0]))
    ensures CourseTail(w) == Some((None, AfterType(w).value))
  {
    NoLetterType(w);
  }

  lemma CourseTailExact(c: Option<string>, u: bool, n: Option<string>, p: bool)
    requires IsCourseType(c) && IsDigitCapture(n)
    ensures CourseTail(TailText(c, u, n, p)) == Some((c, n))
  {
    var w := (if u then "_" else "") + n.GetOr("") + PText(p);
    assert TailText(c, u, n, p) == c.GetOr("") + w;
    AfterTypeExact(u, n, p);
    if c == Some("g") {
      CourseTailG(w);
    } else if c == Some("L") {
      CourseTailL(w);
    } else if c.Some? {
      CourseTailSemester(c.value, w);
    } else {
      assert TailText(c, u, n, p) == w;
      if u {
        assert w[0] == '_';
      } else if n.Some? {
        assert w[0] == n.value[0];
      }
      CourseTailNone(w);
    }
  }

  lemma Regroup(a: string, b: string, c: string, d: string)
    ensures a + (b + c + d) == a + b + c + d
  {
  }

  /** A course type followed by text the rest of the pattern matches is a tail text. */
  lemma TypeThenAfterType(v: string, c: Option<string>, n: Option<string>)
    requires IsCourseType(c) && StartsWith(v, c.GetOr("")) && AfterType(v[|c.GetOr("")|..]) == Some(n)
    ensures IsDigitCapture(n) && exists u, p :: v == TailText(c, u, n, p)
  {
    var t := c.GetOr("");
    var w := v[|t|..];
    PrefixSplit(v, t);
    AfterTypeSound(w);
    var u, p := StartsWith(w, "_"), EndsWith(w, "P");
    TailTextJoin(v, w, c, u, n, p);
  }

  lemma TailTextJoin(v: string, w: string, c: Option<string>, u: bool, n: Option<string>, p: bool)
    requires v == c.GetOr("") + w && w == (if u then "_" else "") + n.GetOr("") + PText(p)
    ensures v == TailText(c, u, n, p)
  {
    Regroup(c.GetOr(""), if u then "_" else "", n.GetOr(""), PText(p));
  }

  lemma CourseTailSound(v: string)
    requires CourseTail(v).Some?
    ensures var (c, n) := CourseTail(v).value;
      IsCourseType(c) && IsDigitCapture(n) && exists u, p :: v == TailText(c, u, n, p)
  {
    var (c, n) := CourseTail(v).value;
    CourseTypeKeys();
    var first := FirstKey(Keys(CourseTypes), v, AfterTypeMatches);
    if first.Some? {
      var k := Keys(CourseTypes)[first.value];
      assert Fits(k, v, AfterTypeMatches);
      assert c == Some(k) && (k == "g" || k == "L");
      TypeThenAfterType(v, c, n);
    } else if SemesterType(v) && AfterType(v[2..]).Some? {
      assert c == Some(v[..2]) && SemesterType(v[..2]);
      TypeThenAfterType(v, c, n);
    } else {
      assert c == None && v[0..] == v;
      TypeThenAfterType(v, c, n);
    }
  }

  /** `name` is the key of subject `i` followed by a course tail. */
  ghost predicate CourseForm(name: string, i: nat, c: Option<string>, u: bool, n: Option<string>, p: bool) {
    && i < |SubjectNames| && IsCourseType(c) && IsDigitCapture(n)
    && name == SubjectNames[i].0 + TailText(c, u, n, p)
  }

  lemma FormFits(name: string, i: nat, c: Option<string>, u: bool, n: Option<string>, p: bool)
    requires CourseForm(name, i, c, u, n, p)
    ensures var k := Keys(SubjectNames)[i];
      StartsWith(name, k) && CourseTail(name[|k|..]) == Some((c, n))
  {
    var k := Keys(SubjectNames)[i];
    assert name[..|k|] == k && name[|k|..] == TailText(c, u, n, p);
    CourseTailExact(c, u, n, p);
  }

  /** A key that fits gives a decomposition at that key. */
  lemma FitsForm(name: string, j: nat) returns (c: Option<string>, u: bool, n: Option<string>, p: bool)
    requires j < |SubjectNames| && Fits(Keys(SubjectNames)[j], name, CourseTailMatches)
    ensures CourseForm(name, j, c, u, n, p) && CourseTail(name[|SubjectNames[j].0|..]) == Some((c, n))
  {
    var k := Keys(SubjectNames)[j];
    var rest := name[|k|..];
    CourseTailSound(rest);
    c, n := CourseTail(rest).value.0, CourseTail(rest).value.1;
    u, p :| rest == TailText(c, u, n, p);
    assert name == k + rest;
  }

  /** Every match is a decomposition of the code. */
  lemma MatchCourseSound(name: string)
    requires MatchCourse(name).Some?
    ensures var m := MatchCourse(name).value;
      exists u, p :: CourseForm(name, m.subject, m.courseType, u, m.number, p)
  {
    var m := MatchCourse(name).value;
    var c, u, n, p := FitsForm(name, m.subject);
  }

  /** Every decomposition is found. */
  lemma MatchCourseComplete(name: string, i: nat, c: Option<string>, u: bool, n: Option<string>, p: bool)
    requires CourseForm(name, i, c, u, n, p)
    ensures MatchCourse(name).Some?
  {
    FormFits(name, i, c, u, n, p);
    assert Fits(Keys(SubjectNames)[i], name, CourseTailMatches);
  }

  /** The key found is the first one, in table order, that begins a decomposition. */
  lemma MatchCourseFirst(name: string)
    requires MatchCourse(name).Some?
    ensures forall j: nat, c, u, n, p :: j < MatchCourse(name).value.subject ==> !CourseForm(name, j, c, u, n, p)
  {
    var keys := Keys(SubjectNames);
    forall j: nat, c, u, n, p | j < MatchCourse(name).value.subject
      ensures !CourseForm(name, j, c, u, n, p)
    {
      assert !Fits(keys[j], name, CourseTailMatches);
      NotFitsNoForm(name, j, c, u, n, p);
    }
  }

  /** A key that does not fit the name gives it no decomposition. */
  lemma NotFitsNoForm(name: string, j: nat, c: Option<string>, u: bool, n: Option<string>, p: bool)
    requires j < |SubjectNames| && !Fits(Keys(SubjectNames)[j], name, CourseTailMatches)
    ensures !CourseForm(name, j, c, u, n, p)
  {
    if CourseForm(name, j, c, u, n, p) {
      FormFits(name, j, c, u, n, p);
    }
  }

  /** A decomposition at the first key that has one gives exactly its captures. */
  lemma MatchCourseExact(name: string, i: nat, c: Option<string>, u: bool, n: Option<string>, p: bool)
    requires CourseForm(name, i, c, u, n, p)
    requires forall j: nat, c', u', n', p' :: j < i ==> !CourseForm(name, j, c', u', n', p')
    ensures MatchCourse(name) == Some(CourseMatch(i, c, n))
  {
    var keys := Keys(SubjectNames);
    forall j | 0 <= j < i ensures !Fits(keys[j], name, CourseTailMatches) {
      if Fits(keys[j], name, CourseTailMatches) {
        var c', u', n', p' := FitsForm(name, j);
      }
    }
    FormFits(name, i, c, u, n, p);
    FirstKeyIs(keys, name, CourseTailMatches, i);
  }

  /** How a course type is written in the long name: `g` and `L` by the
      course-type table, an `S<digit>` type, which the table lacks, as `undefined`. */
  function CourseTypeName(c: Option<string>): string {
    match c
    case None => ""
    case Some(t) => if t == "g" then "G" else if t == "L" then "L" else "undefined"
  }

  lemma CourseTypeRendered(t: string)
    requires IsCourseType(Some(t))
    ensures Rendered(Lookup(CourseTypes, t)) == CourseTypeName(Some(t))
  {
    if t != "g" && t != "L" {
      assert t[0] == 'S';
      assert Lookup(CourseTypes, t).None?;
    }
  }

  /** No subject key is empty or ends in `P`. */
  lemma SubjectKeysShape()
    ensures forall i :: 0 <= i < |SubjectNames| ==>
      SubjectNames[i].0 != [] && SubjectNames[i].0[|SubjectNames[i].0| - 1] != 'P'
  {
  }

  /** `name.endsWith("P")` holds exactly when the optional `P` was taken. */
  lemma EndsWithPExactly(name: string, i: nat, c: Option<string>, u: bool, n: Option<string>, p: bool)
    requires CourseForm(name, i, c, u, n, p)
    ensures EndsWith(name, "P") <==> p
  {
    var k := SubjectNames[i].0;
    var t := TailText(c, u, n, p);
    SubjectKeysShape();
    assert EndsWith(name, "P") <==> name[|name| - 1] == 'P';
    if t != [] {
      TailEnd(c, u, n, p);
      assert name[|name| - 1] == t[|t| - 1];
    } else {
      assert name == k;
    }
  }

  /**
   * The long name of a code decomposed at its first possible key: the
   * subject's name, a space when there is a course type or a number, the
   * course type's long form, the number, and ` (P)` for a profile course.
   */
  lemma ParseSubjectExact(name: string, i: nat, c: Option<string>, u: bool, n: Option<string>, p: bool)
    requires CourseForm(name, i, c, u, n, p)
    requires forall j: nat, c', u', n', p' :: j < i ==> !CourseForm(name, j, c', u', n', p')
    ensures ParseSubject(name) == SubjectNames[i].1 + (if c.Some? || n.Some? then " " else "")
      + CourseTypeName(c) + n.GetOr("") + (if p then " (P)" else "")
  {
    MatchCourseExact(name, i, c, u, n, p);
    EndsWithPExactly(name, i, c, u, n, p);
    if c.Some? {
      CourseTypeRendered(c.value);
    }
  }

  /** A code decomposed at key `i`, with every earlier key ruled out, has the long name `long`. */
  lemma ParseSubjectAs(name: string, i: nat, c: Option<string>, u: bool, n: Option<string>, p: bool, long: string)
    requires CourseForm(name, i, c, u, n, p)
    requires forall j: nat :: j < i ==> KeyRuledOut(name, j)
    requires long == SubjectNames[i].1 + (if c.Some? || n.Some? then " " else "")
      + CourseTypeName(c) + n.GetOr("") + (if p then " (P)" else "")
    ensures ParseSubject(name) == long
  {
    EarlierKeysRuledOut(name, i);
    ParseSubjectExact(name, i, c, u, n, p);
  }

  /** Key `j` cannot begin a decomposition when it is not a prefix of the
      code or is followed by a character no course tail begins with. */
  predicate KeyRuledOut(name: string, j: nat)
    requires j < |SubjectNames|
  {
    var k := SubjectNames[j].0;
    !StartsWith(name, k) || (|name| > |k| && !TailStartChar(name[|k|]))
  }

  lemma EarlierKeysRuledOut(name: string, i: nat)
    requires i <= |SubjectNames|
    requires forall j: nat :: j < i ==> KeyRuledOut(name, j)
    ensures forall j: nat, c, u, n, p :: j < i ==> !CourseForm(name, j, c, u, n, p)
  {
    forall j: nat, c, u, n, p | j < i ensures !CourseForm(name, j, c, u, n, p) {
      FormNotRuledOut(name, j, c, u, n, p);
    }
  }

  lemma FormNotRuledOut(name: string, j: nat, c: Option<string>, u: bool, n: Option<string>, p: bool)
    requires j < |SubjectNames|
    ensures CourseForm(name, j, c, u, n, p) ==> !KeyRuledOut(name, j)
  {
    if CourseForm(name, j, c, u, n, p) {
      var k := SubjectNames[j].0;
      var t := TailText(c, u, n, p);
      assert name[..|k|] == k;
      if |name| > |k| {
        assert name[|k|] == t[0];
        TailStart(c, u, n, p);
      }
    }
  }

  /** `Ch`: no course type, no number. */
  lemma ChExample(name: string)
    requires name == "Ch"
    ensures ParseSubject(name) == "Chemie"
  {
    assert CourseForm(name, 14, None, false, None, false);
    ChKeysRuledOut(name);
    ParseSubjectAs(name, 14, None, false, None, false, "Chemie");
  }

  lemma ChKeysRuledOut(name: string)
    requires name == "Ch"
    ensures forall j: nat :: j < 14 ==> KeyRuledOut(name, j)
  {
    assert name[0] == 'C';
    forall j: nat | j < 14 ensures KeyRuledOut(name, j) {
      assert j == 0 || j == 1 || j == 2 || j == 3 || j == 4 || j == 5 || j == 6
        || j == 7 || j == 8 || j == 9 || j == 10 || j == 11 || j == 12 || j == 13;
    }
  }

  /** `Deg1`: `D` is tried first, but `eg1` is no course tail, so the key is `De`. */
  lemma Deg1Example(name: string)
    requires name == "Deg1"
    ensures ParseSubject(name) == "Deutsch G1"
  {
    assert AllDigits("1");
    assert CourseForm(name, 1, Some("g"), false, Some("1"), false);
    ParseSubjectAs(name, 1, Some("g"), false, Some("1"), false, "Deutsch G1");
  }

  /** `DP`: a profile course with neither course type nor number. */
  lemma DPExample(name: string)
    requires name == "DP"
    ensures ParseSubject(name) == "Deutsch (P)"
  {
    assert CourseForm(name, 0, None, false, None, true);
    ParseSubjectAs(name, 0, None, false, None, true, "Deutsch (P)");
  }

  /** `Deg1P`: course type, number and profile mark together. */
  lemma Deg1PExample(name: string)
    requires name == "Deg1P"
    ensures ParseSubject(name) == "Deutsch G1 (P)"
  {
    assert AllDigits("1");
    assert CourseForm(name, 1, Some("g"), false, Some("1"), true);
    ParseSubjectAs(name, 1, Some("g"), false, Some("1"), true, "Deutsch G1 (P)");
  }

  /** `MaS1`: the course type `S1` has no table entry and is written `undefined`. */
  lemma MaS1Example(name: string)
    requires name == "MaS1"
    ensures ParseSubject(name) == "Mathe undefined"
  {
    assert CourseForm(name, 5, Some("S1"), false, None, false);
    MaS1KeysRuledOut(name);
    ParseSubjectAs(name, 5, Some("S1"), false, None, false, "Mathe undefined");
  }

  lemma MaS1KeysRuledOut(name: string)
    requires name == "MaS1"
    ensures forall j: nat :: j < 5 ==> KeyRuledOut(name, j)
  {
    assert name[0] == 'M' && name[1] == 'a';
    forall j: nat | j < 5 ensures KeyRuledOut(name, j) {
      assert j == 0 || j == 1 || j == 2 || j == 3 || j == 4;
    }
  }

  /** The pattern matches exactly the codes that decompose into a key and a course tail. */
  lemma MatchCourseExactly(name: string)
    ensures MatchCourse(name).Some? <==> exists i: nat, c, u, n, p :: CourseForm(name, i, c, u, n, p)
  {
    if MatchCourse(name).Some? {
      MatchCourseSound(name);
    }
    if exists i: nat, c, u, n, p :: CourseForm(name, i, c, u, n, p) {
      var i: nat, c, u, n, p :| CourseForm(name, i, c, u, n, p);
      MatchCourseComplete(name, i, c, u, n, p);
    }
  }

  /** A code with no decomposition is its own long name. */
  lemma ParseSubjectUnmatched(name: string)
    requires forall i: nat, c, u, n, p :: !CourseForm(name, i, c, u, n, p)
    ensures ParseSubject(name) == name
  {
    MatchCourseExactly(name);
  }

  /** A subject: the short name as given and the long name computed from it once. */
  datatype Subject = Subject(shortName: string, longName: string)

  /** `new Subject(name)`. */
  function NewSubject(name: string): (s: Subject)
    ensures s.shortName == name
    ensures s.longName == ParseSubject(name)
    ensures MatchCourse(name).None? ==> s.longName == name
  {
    Subject(name, ParseSubject(name))
  }
}
