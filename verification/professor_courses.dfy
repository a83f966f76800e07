/**
 * The professor-course record that the admin's professors list and the
 * professor's own course list both show, and the teaching-load label both
 * build from it: a theory part when `theoreticalN > 0`, a practical part when
 * `practicalN > 0`, pushed in that order and joined with " / ".
 */
module ProfessorCourses {
  import opened Js

  /** One course a professor teaches, as the professor-courses endpoint lists it. */
  datatype ProfessorCourse = ProfessorCourse(
    professorCourseId: JsValue, courseId: JsValue, courseName: string, theoreticalN: int, practicalN: int)

  /** The word that marks the theory part of a label ("section"). */
  const TheoryWord := "فئة"
  /** The word that marks the practical part of a label ("group"). */
  const PracticalWord := "زمرة"
  const HoursSeparator := " / "

  /** The local `parts` array after its two conditional pushes. */
  function HoursParts(c: ProfessorCourse, theoryPart: string, practicalPart: string): (parts: seq<string>)
    ensures theoryPart in parts <== c.theoreticalN > 0
    ensures practicalPart in parts <== c.practicalN > 0
    ensures |parts| == (if c.theoreticalN > 0 then 1 else 0) + (if c.practicalN > 0 then 1 else 0)
  {
    (if c.theoreticalN > 0 then [theoryPart] else []) + (if c.practicalN > 0 then [practicalPart] else [])
  }

  /** `parts.join(" / ")`. */
  function HoursLabel(c: ProfessorCourse, theoryPart: string, practicalPart: string): string {
    Join(HoursParts(c, theoryPart, practicalPart), HoursSeparator)
  }

  /**
   * When each part carries its own word and not the other's first letter, the
   * label mentions the theory word exactly when `theoreticalN > 0` and the
   * practical word exactly when `practicalN > 0`; it is empty exactly when
   * neither count is positive, and with both it is the theory part first.
   */
  lemma HoursLabelMentions(c: ProfessorCourse, theoryPart: string, practicalPart: string)
    requires Includes(theoryPart, TheoryWord) && CharFree(theoryPart, PracticalWord[0])
    requires Includes(practicalPart, PracticalWord) && CharFree(practicalPart, TheoryWord[0])
    ensures Includes(HoursLabel(c, theoryPart, practicalPart), TheoryWord) <==> c.theoreticalN > 0
    ensures Includes(HoursLabel(c, theoryPart, practicalPart), PracticalWord) <==> c.practicalN > 0
    ensures HoursLabel(c, theoryPart, practicalPart) == "" <==> c.theoreticalN <= 0 && c.practicalN <= 0
    ensures c.theoreticalN > 0 && c.practicalN > 0 ==>
      HoursLabel(c, theoryPart, practicalPart) == theoryPart + HoursSeparator + practicalPart
  {
    var r := HoursLabel(c, theoryPart, practicalPart);
    if c.theoreticalN > 0 && c.practicalN > 0 {
      JoinAppend([theoryPart], practicalPart, HoursSeparator);
      assert r == (theoryPart + HoursSeparator) + practicalPart;
      IncludesInConcat(theoryPart, HoursSeparator, TheoryWord);
      IncludesInConcat(theoryPart + HoursSeparator, practicalPart, TheoryWord);
      IncludesInConcat(theoryPart + HoursSeparator, practicalPart, PracticalWord);
    } else if c.theoreticalN > 0 {
      assert r == theoryPart;
      NotIncludedWithoutFirstChar(theoryPart, PracticalWord);
    } else if c.practicalN > 0 {
      assert r == practicalPart;
      NotIncludedWithoutFirstChar(practicalPart, TheoryWord);
    } else {
      assert r == "";
      NotIncludedWithoutFirstChar(r, TheoryWord);
      NotIncludedWithoutFirstChar(r, PracticalWord);
    }
  }

  /** `course.professorCourseId || course.courseId`: the list key. */
  function CourseKey(c: ProfessorCourse): (key: JsValue)
    ensures Truthy(c.professorCourseId) ==> key == c.professorCourseId
    ensures !Truthy(c.professorCourseId) ==> key == c.courseId
  {
    if Truthy(c.professorCourseId) then c.professorCourseId else c.courseId
  }

  /** Two courses without a professor-course id still get different keys when their course ids differ. */
  lemma CourseKeysDistinct(c: ProfessorCourse, d: ProfessorCourse)
    requires !Truthy(c.professorCourseId) && !Truthy(d.professorCourseId)
    requires c.courseId != d.courseId
    ensures CourseKey(c) != CourseKey(d)
  {
  }
}
