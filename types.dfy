/** The value types of the duty roster: shifts, evaluations, school days,
    busy times, class configurations and duty records. Each enumeration carries
    the Vietnamese label the application stores and displays, and a parser that
    maps a label back to its value. */
module DutyTypes {
  import opened Seqs

  /** A half-day duty shift: morning ("Sáng") or afternoon ("Chiều"). */
  datatype Shift = Morning | Afternoon {
    function Label(): string {
      match this
      case Morning => "Sáng"
      case Afternoon => "Chiều"
    }
  }

  /** The grade a duty record receives. */
  datatype Evaluation = Good | Fair | Average | Unsatisfactory {
    function Label(): string {
      match this
      case Good => "Tốt"
      case Fair => "Khá"
      case Average => "Trung bình"
      case Unsatisfactory => "Chưa đạt"
    }
  }

  /** A school day, Monday ("Thứ 2") to Saturday ("Thứ 7"); Sunday has no duty. */
  datatype DayOfWeek = Mon | Tue | Wed | Thu | Fri | Sat {
    function Label(): string {
      match this
      case Mon => "Thứ 2"
      case Tue => "Thứ 3"
      case Wed => "Thứ 4"
      case Thu => "Thứ 5"
      case Fri => "Thứ 6"
      case Sat => "Thứ 7"
    }
  }

  /** The school days in week order. */
  const DAYS: seq<DayOfWeek> := [Mon, Tue, Wed, Thu, Fri, Sat]

  /** The shifts of one day in duty order. */
  const SHIFTS: seq<Shift> := [Morning, Afternoon]

  /** One slot in which a class cannot take duty. */
  datatype BusyTime = BusyTime(day: DayOfWeek, shift: Shift)

  /** A class with its busy times; the list may hold a pair more than once. */
  datatype ClassConfig = ClassConfig(id: string, name: string, busyTimes: seq<BusyTime>)

  /** A duty record; `notes` is the only field that may be missing. */
  datatype DutyRecord = DutyRecord(
    id: string,
    date: string,
    shift: Shift,
    className: string,
    mainTask: string,
    supervisor: string,
    evaluation: Evaluation,
    notes: Option<string>)

  function ParseShift(s: string): (r: Option<Shift>)
    ensures r.Some? <==> s == "Sáng" || s == "Chiều"
    ensures r.Some? ==> r.value.Label() == s
  {
    if s == "Sáng" then Some(Morning)
    else if s == "Chiều" then Some(Afternoon)
    else None
  }

  function ParseEvaluation(s: string): (r: Option<Evaluation>)
    ensures r.Some? <==> s in {"Tốt", "Khá", "Trung bình", "Chưa đạt"}
    ensures r.Some? ==> r.value.Label() == s
  {
    if s == "Tốt" then Some(Good)
    else if s == "Khá" then Some(Fair)
    else if s == "Trung bình" then Some(Average)
    else if s == "Chưa đạt" then Some(Unsatisfactory)
    else None
  }

  function ParseDay(s: string): (r: Option<DayOfWeek>)
    ensures r.Some? <==> s in {"Thứ 2", "Thứ 3", "Thứ 4", "Thứ 5", "Thứ 6", "Thứ 7"}
    ensures r.Some? ==> r.value.Label() == s
  {
    if s == "Thứ 2" then Some(Mon)
    else if s == "Thứ 3" then Some(Tue)
    else if s == "Thứ 4" then Some(Wed)
    else if s == "Thứ 5" then Some(Thu)
    else if s == "Thứ 6" then Some(Fri)
    else if s == "Thứ 7" then Some(Sat)
    else None
  }

  /** Labels and parsers are inverse: every shift has one of the two labels,
      and reading a label back gives the same shift. */
  lemma ShiftLabelRoundTrip(x: Shift)
    ensures x.Label() == "Sáng" || x.Label() == "Chiều"
    ensures ParseShift(x.Label()) == Some(x)
  {
  }

  lemma EvaluationLabelRoundTrip(x: Evaluation)
    ensures x.Label() in {"Tốt", "Khá", "Trung bình", "Chưa đạt"}
    ensures ParseEvaluation(x.Label()) == Some(x)
  {
  }

  lemma DayLabelRoundTrip(x: DayOfWeek)
    ensures x.Label() in {"Thứ 2", "Thứ 3", "Thứ 4", "Thứ 5", "Thứ 6", "Thứ 7"}
    ensures ParseDay(x.Label()) == Some(x)
  {
  }

  /** The day list holds each of the six days exactly once, Monday first. */
  lemma DaysAreTheWeek()
    ensures |DAYS| == 6 && DAYS[0] == Mon
    ensures forall d: DayOfWeek :: d in DAYS
    ensures forall i, j :: 0 <= i < j < |DAYS| ==> DAYS[i] != DAYS[j]
  {
    forall d: DayOfWeek ensures d in DAYS {
      assert DAYS[DayIndex(d)] == d;
    }
  }

  /** The position of a day in the week, Monday being 0. */
  function DayIndex(d: DayOfWeek): (i: nat)
    ensures i < |DAYS| && DAYS[i] == d
  {
    match d
    case Mon => 0
    case Tue => 1
    case Wed => 2
    case Thu => 3
    case Fri => 4
    case Sat => 5
  }
}
