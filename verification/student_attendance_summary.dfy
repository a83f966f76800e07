/**
 * A student's attendance summary: one card per course with the status string
 * the server computed, the warning and barred flags derived from those
 * strings, the bell's alert list, the status colour and the expandable cards.
 */
module StudentAttendanceSummary {
  import opened Js

  /** "Warning". */
  const WarningWord := "تحذير"
  /** "Barred". */
  const ForbiddenWord := "ممنوع"
  /** "Failed to load the attendance data." */
  const LoadFailure := "فشل في تحميل بيانات الحضور"
  /** "An error occurred." */
  const GenericError := "حدث خطأ"

  /** The text colour a status is drawn in. */
  datatype Colour = Red | Yellow | Green

  /** One course of the summary; the status and counts may be missing from the server's answer. */
  datatype SummaryItem = SummaryItem(courseName: string, status: Option<string>, absenceCount: Option<int>, maxAllowed: Option<int>)

  /** `item.status?.includes(word)`: an item without a status never matches. */
  predicate StatusIncludes(item: SummaryItem, word: string) {
    item.status.Some? && Includes(item.status.value, word)
  }

  /** `items.some(a => a.status?.includes(word))`. */
  function AnyStatusIncludes(items: seq<SummaryItem>, word: string): (b: bool)
    ensures b <==> exists i :: 0 <= i < |items| && StatusIncludes(items[i], word)
  {
    if items == [] then false
    else
      assert forall i :: 1 <= i < |items| ==> items[i] == items[1..][i - 1];
      StatusIncludes(items[0], word) || AnyStatusIncludes(items[1..], word)
  }

  /** The `hasWarning` flag for a loaded summary. */
  function HasWarning(items: seq<SummaryItem>): bool {
    AnyStatusIncludes(items, WarningWord)
  }

  /** The `hasForbidden` flag for a loaded summary. */
  function HasForbidden(items: seq<SummaryItem>): bool {
    AnyStatusIncludes(items, ForbiddenWord)
  }

  /** `getStatusColor`: the barred word wins over the warning word. */
  function StatusColor(status: string): (c: Colour)
    ensures c == Red <==> Includes(status, ForbiddenWord)
    ensures c == Yellow <==> !Includes(status, ForbiddenWord) && Includes(status, WarningWord)
    ensures c == Green <==> !Includes(status, ForbiddenWord) && !Includes(status, WarningWord)
  {
    if Includes(status, ForbiddenWord) then Red
    else if Includes(status, WarningWord) then Yellow
    else Green
  }

  /** An item the bell lists: its status mentions either word. */
  predicate IsAlert(item: SummaryItem) {
    StatusIncludes(item, ForbiddenWord) || StatusIncludes(item, WarningWord)
  }

  /** The bell's list: `attendance.filter(IsAlert)`. */
  function Alerts(items: seq<SummaryItem>): (r: seq<SummaryItem>)
    ensures |r| <= |items|
    ensures forall x :: x in r <==> x in items && IsAlert(x)
  {
    if items == [] then []
    else (if IsAlert(items[0]) then [items[0]] else []) + Alerts(items[1..])
  }

  /** The filter keeps the listed items in their original order. */
  lemma {:induction false} AlertsAppend(a: seq<SummaryItem>, b: seq<SummaryItem>)
    ensures Alerts(a + b) == Alerts(a) + Alerts(b)
  {
    if a == [] {
      assert a + b == b;
    } else {
      assert (a + b)[1..] == a[1..] + b;
      AlertsAppend(a[1..], b);
    }
  }

  /** The badge (shown when either flag is set) appears exactly when the bell's list is not empty. */
  lemma BadgeIffAlerts(items: seq<SummaryItem>)
    ensures HasWarning(items) || HasForbidden(items) <==> Alerts(items) != []
  {
    if HasWarning(items) || HasForbidden(items) {
      var i :| 0 <= i < |items| && IsAlert(items[i]);
      assert items[i] in Alerts(items);
    }
    if Alerts(items) != [] {
      var x := Alerts(items)[0];
      assert x in items && IsAlert(x);
      var i :| 0 <= i < |items| && items[i] == x;
      assert StatusIncludes(items[i], WarningWord) || StatusIncludes(items[i], ForbiddenWord);
    }
  }

  /** Every listed alert is drawn red or yellow, never green. */
  lemma AlertsNeverGreen(items: seq<SummaryItem>)
    ensures forall x :: x in Alerts(items) ==> x.status.Some? && StatusColor(x.status.value) != Green
  {
  }

  /** `item.status || ""`: the status shown on a card. */
  function DisplayStatus(item: SummaryItem): (s: string)
    ensures item.status.None? ==> s == ""
    ensures item.status.Some? ==> s == item.status.value
  {
    if item.status.Some? && item.status.value != "" then item.status.value else ""
  }

  /** `count ?? 0`: a missing count shows as 0. */
  function DisplayCount(count: Option<int>): (n: int)
    ensures count.None? ==> n == 0
    ensures count.Some? ==> n == count.value
  {
    if count.Some? then count.value else 0
  }

  /** A card without a status is drawn green and is never listed under the bell. */
  lemma MissingStatusIsQuiet(item: SummaryItem)
    requires item.status.None?
    ensures StatusColor(DisplayStatus(item)) == Green && !IsAlert(item)
  {
    NotIncludedWithoutFirstChar("", ForbiddenWord);
    NotIncludedWithoutFirstChar("", WarningWord);
  }

  class StudentAttendanceSummaryPage {
    /** The `studentId` route parameter. */
    const studentId: JsValue
    var attendance: seq<SummaryItem>
    var loading: bool
    var error: Option<string>
    /** The card that is open; `null` when none is. */
    var expandedIndex: Option<int>
    var hasWarning: bool
    var hasForbidden: bool

    /** The two flags always describe the loaded summary. */
    ghost predicate Valid()
      reads this
    {
      hasWarning == HasWarning(attendance) && hasForbidden == HasForbidden(attendance)
    }

    constructor (studentId: JsValue)
      ensures Valid()
      ensures this.studentId == studentId && attendance == [] && !loading && error == None
      ensures expandedIndex == None && !hasWarning && !hasForbidden
    {
      this.studentId := studentId;
      attendance := [];
      loading := false;
      error := None;
      expandedIndex := None;
      hasWarning := false;
      hasForbidden := false;
    }

    /**
     * Loads the summary when the route has a truthy student id (`requested`);
     * `reply` is the server's answer. A failure keeps what was loaded before.
     */
    method LoadAttendance(reply: Response<seq<SummaryItem>>) returns (requested: bool)
      requires Valid()
      modifies this
      ensures Valid()
      ensures requested <==> Truthy(studentId)
      ensures !requested ==> unchanged(this)
      ensures requested ==> !loading
      ensures requested && reply.Ok? ==> attendance == reply.body && error == None
      ensures requested && !reply.Ok? ==>
        attendance == old(attendance) && error == Some(CaughtMessage(reply, LoadFailure, GenericError))
      ensures expandedIndex == old(expandedIndex)
    {
      if !Truthy(studentId) {
        return false;
      }
      requested := true;
      loading := true;
      error := None;
      if reply.Ok? {
        attendance := reply.body;
        hasWarning := HasWarning(reply.body);
        hasForbidden := HasForbidden(reply.body);
      } else {
        error := Some(CaughtMessage(reply, LoadFailure, GenericError));
      }
      loading := false;
    }

    /** The badge over the bell. */
    predicate ShowsBadge()
      reads this
    {
      hasWarning || hasForbidden
    }

    /** The bell's list for the loaded summary; it is non-empty exactly when the badge shows. */
    function VisibleAlerts(): (r: seq<SummaryItem>)
      reads this
      ensures Valid() ==> (r != [] <==> ShowsBadge())
    {
      BadgeIffAlerts(attendance);
      Alerts(attendance)
    }

    /** Clicking a card: the open card closes, any other card opens alone. */
    method ToggleExpand(index: int)
      requires Valid()
      modifies this
      ensures Valid()
      ensures old(expandedIndex) == Some(index) ==> expandedIndex == None
      ensures old(expandedIndex) != Some(index) ==> expandedIndex == Some(index)
      ensures attendance == old(attendance) && loading == old(loading) && error == old(error)
      ensures hasWarning == old(hasWarning) && hasForbidden == old(hasForbidden)
    {
      expandedIndex := if expandedIndex == Some(index) then None else Some(index);
    }
  }
}
