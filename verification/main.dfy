/**
 * The professor's own course list: the teaching-load label of each course,
 * whether its hours row is shown, the `type` query parameter of its
 * "Show Students" link. Its list key is `ProfessorCourses.CourseKey`.
 */
module Main {
  import opened Js
  import opened ProfessorCourses

  const TheoryType := "Theory"
  const PracticalType := "Practical"

  /** `${theoreticalN}فئة Theory`. */
  function TheoryPart(n: int): string {
    IntToString(n) + "فئة Theory"
  }

  /** `${practicalN}زمرة  Practical` (two spaces before "Practical"). */
  function PracticalPart(n: int): string {
    IntToString(n) + "زمرة  Practical"
  }

  /** The `hoursDisplay` string of one course. */
  function HoursDisplay(c: ProfessorCourse): string {
    HoursLabel(c, TheoryPart(c.theoreticalN), PracticalPart(c.practicalN))
  }

  lemma TheoryPartWords(n: int)
    ensures Includes(TheoryPart(n), TheoryWord) && CharFree(TheoryPart(n), PracticalWord[0])
  {
    var k := |IntToString(n)|;
    assert TheoryPart(n)[k..] == "فئة Theory";
  }

  lemma PracticalPartWords(n: int)
    ensures Includes(PracticalPart(n), PracticalWord) && CharFree(PracticalPart(n), TheoryWord[0])
  {
    var k := |IntToString(n)|;
    assert PracticalPart(n)[k..] == "زمرة  Practical";
  }

  /**
   * The theory part appears exactly when `theoreticalN > 0`, the practical
   * part exactly when `practicalN > 0`, and with both the theory part comes
   * first, joined by " / ".
   */
  lemma HoursDisplayParts(c: ProfessorCourse)
    ensures Includes(HoursDisplay(c), TheoryWord) <==> c.theoreticalN > 0
    ensures Includes(HoursDisplay(c), PracticalWord) <==> c.practicalN > 0
    ensures c.theoreticalN > 0 && c.practicalN > 0 ==>
      HoursDisplay(c) == TheoryPart(c.theoreticalN) + HoursSeparator + PracticalPart(c.practicalN)
  {
    TheoryPartWords(c.theoreticalN);
    PracticalPartWords(c.practicalN);
    HoursLabelMentions(c, TheoryPart(c.theoreticalN), PracticalPart(c.practicalN));
  }

  /** `{hoursDisplay && ...}`: the hours row is rendered only for a non-empty label. */
  predicate ShowsHoursRow(c: ProfessorCourse) {
    HoursDisplay(c) != ""
  }

  /** The hours row is shown exactly when at least one of the two counts is positive. */
  lemma ShowsHoursRowIff(c: ProfessorCourse)
    ensures ShowsHoursRow(c) <==> c.theoreticalN > 0 || c.practicalN > 0
  {
    TheoryPartWords(c.theoreticalN);
    PracticalPartWords(c.practicalN);
    HoursLabelMentions(c, TheoryPart(c.theoreticalN), PracticalPart(c.practicalN));
  }

  /** The `type` query parameter of the "Show Students" link. */
  function StudentsType(c: ProfessorCourse): (t: string)
    ensures t == TheoryType || t == PracticalType
    ensures t == TheoryType <==> c.theoreticalN > 0
  {
    if c.theoreticalN > 0 then TheoryType else PracticalType
  }

  /**
   * The link asks for the theory students exactly when the label shows a
   * theory part; a course with practical hours only is listed as "Practical",
   * and so is a course with no hours at all.
   */
  lemma StudentsTypeMatchesLabel(c: ProfessorCourse)
    ensures StudentsType(c) == TheoryType <==> Includes(HoursDisplay(c), TheoryWord)
    ensures StudentsType(c) == PracticalType <==> !Includes(HoursDisplay(c), TheoryWord)
  {
    HoursDisplayParts(c);
  }
}
