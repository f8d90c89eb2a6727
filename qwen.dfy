/** The roster as Qwen_python.py runs it: lateness shown as `str(timedelta)`, arrivals marked by
    a double click, the selected row rewritten from the right-hand panel, rows added from that
    panel, and a one-shot search. */
module Qwen {
  import opened Base
  import opened Text
  import opened Digits
  import opened Clock
  import opened Roster
  import opened Ordering
  import opened Tally
  import opened Table

  /** `str(timedelta(0))`: the late text apply_color reads as "not late". */
  const Zero: string := "0:00:00"

  /** The day part of `str(timedelta)`: "N day, " or "N days, ", nothing below a day. */
  function DayPrefix(days: nat): string {
    if days == 0 then [] else Dec(days) + (if days == 1 then " day, " else " days, ")
  }

  /** `"%d:%02d:%02d"` of the seconds within the day. */
  function HoursMinutesSeconds(secs: nat): string {
    Join([Padded(secs / 3600, 1), Padded(secs / 60 % 60, 2), Padded(secs % 60, 2)])
  }

  /** The microsecond part of `str(timedelta)`: ".ffffff", nothing when it is zero. */
  function Fraction(us: nat): string {
    if us == 0 then [] else "." + Padded(us, 6)
  }

  /** "0:00:00" is what `"%d:%02d:%02d"` prints at zero, and it reads back as three zeros. */
  lemma ZeroText()
    ensures Zero == HoursMinutesSeconds(0)
    ensures ReadClock(Zero) == Some([0, 0, 0])
  {
    assert Dec(0) == "0";
    assert Padded(0, 1) == "0";
    assert Padded(0, 2) == "00";
    JoinThree("0", "00", "00");
    assert "0" + ":" + "00" + ":" + "00" == Zero;
    ReadTriple(0, 1, 0, 0, 2);
  }

  /** The seconds below a day split into hours, minutes and seconds. */
  lemma SplitSeconds(secs: nat)
    ensures secs / 60 % 60 < 60 && secs % 60 < 60
    ensures 3600 * (secs / 3600) + 60 * (secs / 60 % 60) + secs % 60 == secs
  {
  }

  lemma HoursMinutesSecondsLength(secs: nat)
    ensures |HoursMinutesSeconds(secs)| >= |Zero|
  {
    var f := [Padded(secs / 3600, 1), Padded(secs / 60 % 60, 2), Padded(secs % 60, 2)];
    assert f[..2] == [f[0], f[1]] && [f[0], f[1]][..1] == [f[0]];
    assert Join(f[..2]) == f[0] + ":" + f[1];
    assert Join(f) == f[0] + ":" + f[1] + ":" + f[2];
  }

  /** Only zero seconds read "0:00:00". */
  lemma HoursMinutesSecondsZero(secs: nat)
    requires HoursMinutesSeconds(secs) == Zero
    ensures secs == 0
  {
    ZeroText();
    ReadTriple(secs / 3600, 1, secs / 60 % 60, secs % 60, 2);
    SplitSeconds(secs);
  }

  /** The text of a lateness of `d` microseconds is `str(timedelta(0))` exactly when `d` is zero. */
  lemma TimedeltaZero(d: nat)
    ensures DayPrefix(d / SecondUs / 86400) + HoursMinutesSeconds(d / SecondUs % 86400) + Fraction(d % SecondUs) == Zero <==> d == 0
  {
    var total := d / SecondUs;
    var p, c, f := DayPrefix(total / 86400), HoursMinutesSeconds(total % 86400), Fraction(d % SecondUs);
    if d == 0 {
      ZeroText();
      assert p + c + f == c;
    } else if p + c + f == Zero {
      HoursMinutesSecondsLength(total % 86400);
      assert |p + c + f| == |p| + |c| + |f|;
      assert p == [] && f == [];
      assert c == Zero;
      HoursMinutesSecondsZero(total % 86400);
      assert false;
    }
  }

  /** `str(timedelta)` of a non-negative duration in microseconds: "0:00:00" exactly for zero;
      below a day and on a whole second, just the hours, minutes and seconds. */
  function TimedeltaStr(d: nat): (s: string)
    ensures s == Zero <==> d == 0
    ensures s != ""
    ensures d < DayUs && d % SecondUs == 0 ==> s == HoursMinutesSeconds(d / SecondUs)
  {
    var total := d / SecondUs;
    TimedeltaZero(d);
    DayPrefix(total / 86400) + HoursMinutesSeconds(total % 86400) + Fraction(d % SecondUs)
  }

  /** Below a day and on a whole second, the lateness text reads back as hours, minutes below 60
      and seconds below 60 that together make up the duration. */
  lemma TimedeltaRead(d: nat)
    requires d < DayUs && d % SecondUs == 0
    ensures ReadClock(TimedeltaStr(d)).Some? && |ReadClock(TimedeltaStr(d)).value| == 3
    ensures var v := ReadClock(TimedeltaStr(d)).value;
      v[1] < 60 && v[2] < 60 && 3600 * v[0] + 60 * v[1] + v[2] == d / SecondUs
  {
    var secs := d / SecondUs;
    ReadTriple(secs / 3600, 1, secs / 60 % 60, secs % 60, 2);
    SplitSeconds(secs);
  }

  /** The row on_double leaves behind: the fact cell shows the clock time with seconds, the late
      cell the lateness, and the row is coloured late for any positive lateness, on time only
      when it is zero. */
  function ArrivedItem(it: Item, start: Time, arrival: Offset, now: Time): (m: Item)
    ensures m.values == it.values.(fact := HourMinuteSecond(now), late := TimedeltaStr(Lateness(start, arrival, now)))
    ensures m.tag == Late <==> Lateness(start, arrival, now) > 0
    ensures m.tag == OnTime <==> now <= Deadline(start, arrival)
  {
    var v := it.values.(fact := HourMinuteSecond(now), late := TimedeltaStr(Lateness(start, arrival, now)));
    Item(v, Classify(Present, v.late, true, Zero))
  }

  /** on_double: `hit` is the row under the pointer; a click on no row changes nothing, a click
      on a row marks that person's arrival as Arrive does. */
  method OnDouble(t: Table, hit: Option<Handle>, now: Time)
    requires t.Valid() && (hit.Some? ==> hit.value in t.rows)
    modifies t
    ensures t.Valid()
    ensures hit.None? ==> t.start == old(t.start) && t.rows == old(t.rows) && t.items == old(t.items)
    ensures hit.Some? && !Markable(old(t.start), old(t.rows[hit.value])) ==>
      t.start == old(t.start) && t.rows == old(t.rows) && t.items == old(t.items)
    ensures hit.Some? && Markable(old(t.start), old(t.rows[hit.value])) ==>
      t.start == old(t.start) &&
      t.rows == old(t.rows)[hit.value := old(t.rows[hit.value]).(fact := Some(now))] &&
      t.items == old(t.items)[hit.value := ArrivedItem(old(t.items[hit.value]), old(t.start).value,
                                                       old(t.rows[hit.value]).arrival, now)]
    ensures t.keys == old(t.keys) && t.order == old(t.order) && t.next == old(t.next)
    ensures old(t.Synced()) ==> t.Synced()
  {
    if t.start.None? {
      return;
    }
    if hit.None? {
      return;
    }
    Arrive(t, hit.value, now);
  }

  /** on_double on row `h`: without a start, for a person already arrived or not present nothing
      changes; otherwise only that person's fact becomes `now` and only that row's fact, late
      cell and colour change. */
  method Arrive(t: Table, h: Handle, now: Time)
    requires t.Valid() && h in t.rows
    modifies t
    ensures t.Valid()
    ensures !Markable(old(t.start), old(t.rows[h])) ==>
      t.start == old(t.start) && t.rows == old(t.rows) && t.items == old(t.items)
    ensures Markable(old(t.start), old(t.rows[h])) ==>
      t.start == old(t.start) &&
      t.rows == old(t.rows)[h := old(t.rows[h]).(fact := Some(now))] &&
      t.items == old(t.items)[h := ArrivedItem(old(t.items[h]), old(t.start).value, old(t.rows[h]).arrival, now)]
    ensures t.keys == old(t.keys) && t.order == old(t.order) && t.next == old(t.next)
    ensures old(t.Synced()) ==> t.Synced()
  {
    if t.start.None? || t.rows[h].fact.Some? || t.rows[h].status != Present {
      return;
    }
    MarkPresent(t, h, now);
  }

  /** The body of on_double past its guards: the fact, the fact and late cells, then apply_color. */
  method MarkPresent(t: Table, h: Handle, now: Time)
    requires t.Valid() && h in t.rows && Markable(t.start, t.rows[h])
    modifies t
    ensures t.Valid()
    ensures t.rows == old(t.rows)[h := old(t.rows[h]).(fact := Some(now))]
    ensures t.items == old(t.items)[h := ArrivedItem(old(t.items[h]), old(t.start).value, old(t.rows[h]).arrival, now)]
    ensures t.start == old(t.start) && t.keys == old(t.keys) && t.order == old(t.order) && t.next == old(t.next)
    ensures old(t.Synced()) ==> t.Synced()
  {
    var fact := HourMinuteSecond(now);
    var late := TimedeltaStr(Lateness(t.start.value, t.rows[h].arrival, now));
    t.RewriteColored(h, t.rows[h].(fact := Some(now)), t.items[h].values.(fact := fact, late := late), Zero);
  }

  /** What the right-hand panel holds: the position, the raw name entry, the offset and the
      status comboboxes. */
  datatype Panel = Panel(pos: Position, fio: string, arr: Offset, status: Status)

  /** update_row_from_right on one row: the four panel fields overwrite the row's cells and
      record; the number, fact and late cells and the record's fact stay, so a lateness shown
      before the edit is not recomputed. Afterwards the row agrees with its record whatever it
      held before. */
  function FromRight(v: Values, r: Rec, p: Panel): (q: (Values, Rec))
    ensures q.0.num == v.num && q.0.fact == v.fact && q.0.late == v.late && q.1.fact == r.fact
    ensures q.0.pos == p.pos && q.0.fio == p.fio && q.0.arr == p.arr && q.0.status == p.status
    ensures Agrees(q.0, q.1)
  {
    (v.(pos := p.pos, fio := p.fio, arr := p.arr, status := p.status),
     r.(fio := p.fio, arrival := p.arr, status := p.status))
  }

  /** update_row_from_right: without a current row, or once it is deleted, nothing changes;
      otherwise that one row takes the panel's fields and is recoloured, in place. */
  method UpdateRowFromRight(t: Table, current: Option<Handle>, p: Panel)
    requires t.Valid()
    modifies t
    ensures t.Valid()
    ensures current.None? || current.value !in old(t.items) ==> t.rows == old(t.rows) && t.items == old(t.items)
    ensures current.Some? && current.value in old(t.items) ==>
      var h := current.value;
      var q := FromRight(old(t.items[h]).values, old(t.rows[h]), p);
      t.rows == old(t.rows)[h := q.1] &&
      t.items == old(t.items)[h := Item(q.0, Classify(q.1.status, q.0.late, q.1.fact.Some?, Zero))]
    ensures t.start == old(t.start) && t.keys == old(t.keys) && t.order == old(t.order) && t.next == old(t.next)
    ensures old(t.Synced()) ==> t.Synced()
  {
    if current.None? {
      return;
    }
    var h := current.value;
    if h !in t.items {
      return;
    }
    var q := FromRight(t.items[h].values, t.rows[h], p);
    t.RewriteColored(h, q.1, q.0, Zero);
  }

  /** How add_row ends. */
  datatype Added = Added(h: Handle) | Blank | Declined | NoOffset

  /** add_row, as intended: a blank name adds nothing; each duplicate name (ignoring case) asks
      for a confirmation and a refusal adds nothing; an offset combobox nobody has set adds
      nothing; otherwise one row is added with no fact and the table is re-sorted and
      renumbered. Every displayed row keeps a record. */
  method AddRow(t: Table, pos: Position, entry: string, arrText: string, status: Status, ask: nat -> bool)
    returns (added: Added)
    requires t.Valid()
    modifies t
    ensures t.Valid()
    ensures added.Blank? <==> Strip(entry) == []
    ensures added.Declined? <==> Strip(entry) != [] && exists k :: 0 <= k < DupCount(Strip(entry), old(t.Recs())) && !ask(k)
    ensures added.NoOffset? ==> ParseHours(arrText).None?
    ensures !added.Added? ==>
      t.keys == old(t.keys) && t.rows == old(t.rows) && t.order == old(t.order) && t.items == old(t.items) &&
      t.next == old(t.next)
    ensures added.Added? ==>
      var h := added.h;
      var fio := Strip(entry);
      var arr := ParseHours(arrText);
      arr.Some? &&
      var its := old(t.items)[h := Item(NewValues(pos, fio, arr.value, status), NoTag)];
      h == old(t.next) && h !in old(t.rows) && t.next == old(t.next) + 1 &&
      t.keys == old(t.keys) + [h] &&
      t.rows == old(t.rows)[h := Rec(fio, arr.value, None, status)] &&
      t.order == SortByName(old(t.order) + [h], its) &&
      t.items == Renumber(its, t.order) &&
      Arranged(t.order, t.items)
    ensures t.start == old(t.start)
    ensures old(t.Synced()) ==> t.Synced()
  {
    var fio := Strip(entry);
    if fio == [] {
      return Blank;
    }
    var proceed := t.ConfirmAdd(fio, ask);
    if !proceed {
      return Declined;
    }
    var arr := ParseHours(arrText);
    if arr.None? {
      return NoOffset;
    }
    ghost var o := t.order + [t.next];
    DistinctAppend(t.order, t.next);
    var h := t.Add(NewValues(pos, fio, arr.value, status), Rec(fio, arr.value, None, status));
    Reordered(o, old(t.items)[h := Item(NewValues(pos, fio, arr.value, status), NoTag)]);
    return Added(h);
  }

  /** The handles of the Treeview and of `self.rows` after add_row as written, and whether it
      raised. */
  datatype Trace = Trace(shown: set<Handle>, recorded: set<Handle>, raised: bool)

  /** add_row as written, past its guards: `tree.insert` runs first, then the record is built,
      and `parse_hours` raises ValueError on the text of an offset combobox nobody has set. */
  function AddRowAsWritten(shown: set<Handle>, recorded: set<Handle>, next: Handle, arrText: string): (tr: Trace)
    ensures tr.shown == shown + {next}
    ensures tr.raised <==> ParseHours(arrText).None?
    ensures tr.recorded == if tr.raised then recorded else recorded + {next}
  {
    var shown' := shown + {next};
    if ParseHours(arrText).None? then Trace(shown', recorded, true)
    else Trace(shown', recorded + {next}, false)
  }

  /** With the offset combobox still empty, add_row as written leaves a displayed row that has no
      record (the next double click or panel edit on it raises KeyError); the intended AddRow
      leaves every displayed row with a record. */
  lemma AddRowOrphan(shown: set<Handle>, next: Handle)
    requires next !in shown
    ensures AddRowAsWritten(shown, shown, next, "").raised
    ensures next in AddRowAsWritten(shown, shown, next, "").shown
    ensures next !in AddRowAsWritten(shown, shown, next, "").recorded
  {
    assert ParseHours("").None? by {
      assert forall o :: OffsetLabel(o) != "";
    }
  }

  /** search_dialog: the first row from the top whose lower-cased name contains the lower-cased
      query gets selected; a cancelled or empty query selects nothing, and so does a query no
      row matches. */
  method SearchDialog(t: Table, q: string) returns (selected: Option<Handle>)
    requires t.Valid()
    ensures selected.Some? <==> q != [] && exists h :: h in t.order && Hit(t.items, h, q)
    ensures selected.Some? ==>
      Hit(t.items, selected.value, q) &&
      exists i :: NoHitBefore(t.order, t.items, q, i) && t.order[i] == selected.value
  {
    if q == [] {
      return None;
    }
    var i := 0;
    while i < |t.order|
      invariant 0 <= i <= |t.order|
      invariant forall j :: 0 <= j < i ==> !Hit(t.items, t.order[j], q)
    {
      var h := t.order[i];
      if Contains(Lower(t.items[h].values.fio), Lower(q)) {
        assert NoHitBefore(t.order, t.items, q, i);
        return Some(h);
      }
      i := i + 1;
    }
    assert forall h :: h in t.order ==> !Hit(t.items, h, q) by {
      forall h | h in t.order ensures !Hit(t.items, h, q) {
        var j :| 0 <= j < |t.order| && t.order[j] == h;
      }
    }
    return None;
  }
}
