/** The entities of the arrival roster: a person's record in `self.rows`, the display values of a
    Treeview row, the five arrival offsets, the statuses, and the lateness rule. */
module Roster {
  import opened Base

  /** A naive local `datetime`, as microseconds since 0001-01-01 00:00 (`datetime.min`). */
  type Time = nat

  /** A Treeview item id; Tk hands them out from an increasing counter. */
  type Handle = nat

  const SecondUs: nat := 1_000_000
  const MinuteUs: nat := 60 * SecondUs
  const HourUs: nat := 60 * MinuteUs
  const DayUs: nat := 24 * HourUs

  /** POSITIONS: the "pos" column. */
  datatype Position = Unknown | Engineer | Manager | Technician | Administrator | Director

  /** STATUSES, plus `Unset`: the text of a status combobox nobody has set yet (""). */
  datatype Status = Present | Sick | Trip | Unset

  /** ARRIVAL_TIMES: the expected arrival, as an offset after the shift start. */
  datatype Offset = H1 | H1_5 | H2 | H2_5 | H3

  /** The label the combobox shows for an offset. */
  function OffsetLabel(o: Offset): string {
    match o
    case H1 => "1 час"
    case H1_5 => "1.5 часа"
    case H2 => "2 часа"
    case H2_5 => "2.5 часа"
    case H3 => "3 часа"
  }

  /** `parse_hours(label)` in minutes: sixty times the number the label starts with. */
  function Minutes(o: Offset): nat {
    match o
    case H1 => 60
    case H1_5 => 90
    case H2 => 120
    case H2_5 => 150
    case H3 => 180
  }

  /** `parse_hours(text)` on what a read-only combobox can hold: one of the five labels, or "" when
      nothing was chosen, where `float("")` raises ValueError (here `None`). */
  function ParseHours(text: string): (r: Option<Offset>)
    ensures r.Some? ==> OffsetLabel(r.value) == text
    ensures r.None? <==> forall o :: OffsetLabel(o) != text
  {
    if text == OffsetLabel(H1) then Some(H1)
    else if text == OffsetLabel(H1_5) then Some(H1_5)
    else if text == OffsetLabel(H2) then Some(H2)
    else if text == OffsetLabel(H2_5) then Some(H2_5)
    else if text == OffsetLabel(H3) then Some(H3)
    else None
  }

  lemma ParseHoursLabel(o: Offset)
    ensures ParseHours(OffsetLabel(o)) == Some(o)
  {
  }

  /** One entry of `self.rows`: {"fio", "arrival", "fact", "status"}. */
  datatype Rec = Rec(fio: string, arrival: Offset, fact: Option<Time>, status: Status)

  /** The values of one Treeview row: the columns num, pos, fio, arr, fact, late, status.
      `num` is `None` while the cell still holds the "" it was inserted with. */
  datatype Values = Values(num: Option<nat>, pos: Position, fio: string, arr: Offset,
                           fact: string, late: string, status: Status)

  /** The row colour tags set by apply_color; `NoTag` is `tags=()`. */
  datatype Tag = NoTag | Late | OnTime | Other

  /** A Treeview row: its values and its tag. */
  datatype Item = Item(values: Values, tag: Tag)

  /** The values a freshly inserted row shows: `("", pos, fio, arr, "", "", status)`. */
  function NewValues(pos: Position, fio: string, arr: Offset, status: Status): Values {
    Values(None, pos, fio, arr, "", "", status)
  }

  /** The moment a person with offset `arrival` is expected: `start_time + timedelta(hours=arrival)`. */
  function Deadline(start: Time, arrival: Offset): Time {
    start + Minutes(arrival) * MinuteUs
  }

  /** `now - expected`, replaced by `timedelta(0)` when negative. */
  function Lateness(start: Time, arrival: Offset, now: Time): (late: nat)
    ensures late == 0 <==> now <= Deadline(start, arrival)
    ensures late > 0 ==> now == Deadline(start, arrival) + late
  {
    if now < Deadline(start, arrival) then 0 else now - Deadline(start, arrival)
  }

  /** The guards mark_arrival and on_double both apply before marking an arrival: the timer
      runs, the person has no fact yet and is present. */
  predicate Markable(start: Option<Time>, r: Rec) {
    start.Some? && r.fact.None? && r.status == Present
  }

  /** Arriving later never makes a person less late. */
  lemma LatenessMonotone(start: Time, arrival: Offset, now: Time, later: Time)
    requires now <= later
    ensures Lateness(start, arrival, now) <= Lateness(start, arrival, later)
  {
  }

  /** The colour apply_color gives a row, from its status, its "late" text and whether it has a
      fact; `zero` is the text the variant writes for zero lateness. */
  function Classify(status: Status, late: string, arrived: bool, zero: string): (tag: Tag)
    ensures tag == Other <==> status != Present
    ensures tag == Late <==> status == Present && late != "" && late != zero
    ensures tag == OnTime <==> status == Present && (late == "" || late == zero) && arrived
  {
    if status != Present then Other
    else if late != "" && late != zero then Late
    else if arrived then OnTime
    else NoTag
  }
}
