/** The counters shown beside the table (update_counters) and the export snapshot (export_excel):
    pure reductions over `self.rows` in dict order. */
module Tally {
  import opened Base
  import opened Roster

  /** `self.rows.values()`: the records in dict (insertion) order. */
  function RecsOf(keys: seq<Handle>, rows: map<Handle, Rec>): (r: seq<Rec>)
    ensures |r| <= |keys|
    ensures (forall h :: h in keys ==> h in rows) ==> |r| == |keys|
  {
    if keys == [] then []
    else
      var h := keys[|keys| - 1];
      RecsOf(keys[..|keys| - 1], rows) + (if h in rows then [rows[h]] else [])
  }

  datatype Counts = Counts(total: nat, present: nat, sick: nat, trip: nat, arrived: nat)

  function Indicator(b: bool): nat {
    if b then 1 else 0
  }

  /** A person counts as arrived when present with a fact (`r["status"] == ... and r["fact"]`). */
  predicate Arrived(r: Rec) {
    r.status == Present && r.fact.Some?
  }

  /** The sums of update_counters. */
  function Count(recs: seq<Rec>): (c: Counts)
    ensures c.total == |recs|
    ensures c.arrived <= c.present
    ensures c.present + c.sick + c.trip <= c.total
  {
    if recs == [] then Counts(0, 0, 0, 0, 0)
    else
      var c := Count(recs[..|recs| - 1]);
      var r := recs[|recs| - 1];
      Counts(c.total + 1,
             c.present + Indicator(r.status == Present),
             c.sick + Indicator(r.status == Sick),
             c.trip + Indicator(r.status == Trip),
             c.arrived + Indicator(Arrived(r)))
  }

  /** When every status is one of STATUSES, the three categories partition the list. */
  lemma {:induction false} CountPartition(recs: seq<Rec>)
    requires forall i :: 0 <= i < |recs| ==> recs[i].status != Unset
    ensures Count(recs).present + Count(recs).sick + Count(recs).trip == Count(recs).total
    decreases |recs|
  {
    if recs != [] {
      CountPartition(recs[..|recs| - 1]);
    }
  }

  /** `(arrived/present*100) if present else 0`: the share of arrivals among the present people. */
  function ArrivalPercent(recs: seq<Rec>): (p: real)
    ensures 0.0 <= p <= 100.0
    ensures Count(recs).present == 0 ==> p == 0.0
    ensures Count(recs).present > 0 ==> p == Count(recs).arrived as real / Count(recs).present as real * 100.0
  {
    var c := Count(recs);
    Share(c.arrived, c.present)
  }

  /** `n / d * 100` for 0 <= n <= d. */
  function Ratio(n: nat, d: nat): (p: real)
    requires 0 < d && n <= d
    ensures 0.0 <= p <= 100.0
    ensures p * d as real == n as real * 100.0
  {
    var p := n as real / d as real * 100.0;
    assert n as real / d as real <= 1.0;
    p
  }

  /** update_counters' `pct(n)`: a share of the whole list, 0 for an empty list. */
  function Share(n: nat, total: nat): (p: real)
    requires n <= total
    ensures 0.0 <= p <= 100.0
    ensures total == 0 ==> p == 0.0
    ensures total > 0 ==> p * total as real == n as real * 100.0
  {
    if total > 0 then Ratio(n, total) else 0.0
  }

  /** The placeholder export_excel writes in the "fact" column of a person without a fact. */
  const NotArrivedText: string := "Еще не прибыл"

  /** One exported row: `row[1:]`, the values without "num". */
  datatype Line = Line(pos: Position, fio: string, arr: Offset, fact: string, late: string, status: Status)

  datatype Report = Report(lines: seq<Line>, percent: real)

  /** export_excel's refusal "Нажмите Запуск" when the timer was never started. */
  datatype ExportError = NotStarted

  /** The exported row of one person. */
  function LineOf(v: Values, r: Rec): (l: Line)
    ensures r.fact.None? ==> l.fact == NotArrivedText && l.late == ""
    ensures r.fact.Some? ==> l.fact == v.fact && l.late == v.late
    ensures l.pos == v.pos && l.fio == v.fio && l.arr == v.arr && l.status == v.status
  {
    if r.fact.None? then Line(v.pos, v.fio, v.arr, NotArrivedText, "", v.status)
    else Line(v.pos, v.fio, v.arr, v.fact, v.late, v.status)
  }

  /** The exported rows, in dict order. */
  function Lines(keys: seq<Handle>, rows: map<Handle, Rec>, items: map<Handle, Item>): (ls: seq<Line>)
    ensures (forall h :: h in keys ==> h in rows && h in items) ==>
      |ls| == |keys| &&
      forall i :: 0 <= i < |keys| ==> ls[i] == LineOf(items[keys[i]].values, rows[keys[i]])
  {
    if keys == [] then []
    else
      var h := keys[|keys| - 1];
      Lines(keys[..|keys| - 1], rows, items) +
        (if h in rows && h in items then [LineOf(items[h].values, rows[h])] else [])
  }

  /** A present person who arrived between the start and the end of the horizon, both included. */
  predicate InWindow(r: Rec, start: Time, horizon: Offset) {
    r.status == Present && r.fact.Some? && start <= r.fact.value <= Deadline(start, horizon)
  }

  /** export_excel's `present_arrived`. */
  function WindowCount(recs: seq<Rec>, start: Time, horizon: Offset): (n: nat)
    ensures n <= Count(recs).arrived
  {
    if recs == [] then 0
    else WindowCount(recs[..|recs| - 1], start, horizon) + Indicator(InWindow(recs[|recs| - 1], start, horizon))
  }

  /** export_excel's percent: present people who arrived within the horizon over all present
      people, times 100, and 0 when nobody is present. */
  function HorizonPercent(recs: seq<Rec>, start: Time, horizon: Offset): (p: real)
    ensures 0.0 <= p <= 100.0
    ensures Count(recs).present == 0 ==> p == 0.0
    ensures Count(recs).present > 0 ==>
      p == WindowCount(recs, start, horizon) as real / Count(recs).present as real * 100.0
  {
    var c := Count(recs);
    if c.present > 0 then Ratio(WindowCount(recs, start, horizon), c.present) else 0.0
  }

  /** export_excel: refused before the timer is started, otherwise the rows and the percent. */
  function Export(start: Option<Time>, keys: seq<Handle>, rows: map<Handle, Rec>,
                  items: map<Handle, Item>, horizon: Offset): (r: Result<Report, ExportError>)
    ensures r.Err? <==> start.None?
    ensures r.Ok? ==> r.value.lines == Lines(keys, rows, items) &&
                      r.value.percent == HorizonPercent(RecsOf(keys, rows), start.value, horizon)
  {
    if start.None? then Err(NotStarted)
    else Ok(Report(Lines(keys, rows, items), HorizonPercent(RecsOf(keys, rows), start.value, horizon)))
  }

  /** The export's percent never exceeds the arrival percent shown on screen. */
  lemma HorizonBelowArrival(recs: seq<Rec>, start: Time, horizon: Offset)
    ensures HorizonPercent(recs, start, horizon) <= ArrivalPercent(recs)
  {
    var c := Count(recs);
    if c.present > 0 {
      RatioMonotone(WindowCount(recs, start, horizon), c.arrived, c.present);
    }
  }

  lemma RatioMonotone(a: nat, b: nat, d: nat)
    requires 0 < d && a <= b <= d
    ensures Ratio(a, d) <= Ratio(b, d)
  {
    var x, y, dr := Ratio(a, d), Ratio(b, d), d as real;
    assert (y - x) * dr == (b - a) as real * 100.0;
    NonNegativeFactor(y - x, dr);
  }

  lemma NonNegativeFactor(z: real, d: real)
    requires d > 0.0 && z * d >= 0.0
    ensures z >= 0.0
  {
  }

  lemma {:induction false} WindowCountMonotone(recs: seq<Rec>, start: Time, h1: Offset, h2: Offset)
    requires Minutes(h1) <= Minutes(h2)
    ensures WindowCount(recs, start, h1) <= WindowCount(recs, start, h2)
    decreases |recs|
  {
    if recs != [] {
      WindowCountMonotone(recs[..|recs| - 1], start, h1, h2);
    }
  }

  /** A longer horizon never lowers the exported percent. */
  lemma HorizonMonotone(recs: seq<Rec>, start: Time, h1: Offset, h2: Offset)
    requires Minutes(h1) <= Minutes(h2)
    ensures HorizonPercent(recs, start, h1) <= HorizonPercent(recs, start, h2)
  {
    var c := Count(recs);
    if c.present > 0 {
      WindowCountMonotone(recs, start, h1, h2);
      RatioMonotone(WindowCount(recs, start, h1), WindowCount(recs, start, h2), c.present);
    }
  }
}
