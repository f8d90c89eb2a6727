/** The roster as app.py runs it: lateness shown as `HH:MM`, arrivals marked by a double click,
    cells edited in place (commit_combo, commit_text), rows added from a dialog, the chart's
    late and on-time bars, and the search bar. */
module App {
  import opened Base
  import opened Text
  import opened Digits
  import opened Clock
  import opened Roster
  import opened Ordering
  import opened Tally
  import opened Table

  /** The late text apply_color and the chart read as "not late". */
  const Zero: string := "00:00"

  /** Two zero-padded fields read "00:00" exactly when both are zero. */
  lemma ZeroPair(a: nat, b: nat)
    ensures Join([Padded(a, 2), Padded(b, 2)]) == Zero <==> a == 0 && b == 0
  {
    var x, y := Padded(a, 2), Padded(b, 2);
    assert Join([x, y]) == x + ":" + y by {
      assert [x, y][..1] == [x];
    }
    assert Dec(0) == "0";
    assert Padded(0, 2) == "00";
    if x + ":" + y == Zero {
      assert x == "00" by {
        assert x == (x + ":" + y)[..|x|];
      }
      assert y == "00" by {
        assert y == (x + ":" + y)[|x| + 1..];
      }
      ParsePadded(a, 2);
      ParsePadded(b, 2);
      assert "00"[..1] == "0" && "0"[..0] == "";
    }
  }

  /** format_timedelta: a non-negative duration in whole minutes, as zero-padded hours and
      minutes. Reading the text back gives minutes below 60 and hours that together make up the
      whole minutes of the duration; it is "00:00" exactly for less than a minute. */
  function FormatTimedelta(d: nat): (s: string)
    ensures ReadClock(s).Some? && |ReadClock(s).value| == 2
    ensures ReadClock(s).value[1] < 60 && 60 * ReadClock(s).value[0] + ReadClock(s).value[1] == d / MinuteUs
    ensures s == Zero <==> d < MinuteUs
    ensures s != ""
  {
    var total := d / MinuteUs;
    ReadPair(total / 60, total % 60, 2);
    ZeroPair(total / 60, total % 60);
    WholeMinutes(d);
    Join([Padded(total / 60, 2), Padded(total % 60, 2)])
  }

  /** The whole minutes of a duration split into hours and minutes below 60, both zero exactly
      for less than a minute. */
  lemma WholeMinutes(d: nat)
    ensures var total := d / MinuteUs;
      total % 60 < 60 && 60 * (total / 60) + total % 60 == total &&
      (total / 60 == 0 && total % 60 == 0 <==> d < MinuteUs)
  {
    var total := d / MinuteUs;
    assert total == 0 <==> d < MinuteUs by {
      if d >= MinuteUs {
        DivAtLeastOne(d, MinuteUs);
      }
    }
  }

  lemma DivAtLeastOne(d: nat, k: nat)
    requires 0 < k <= d
    ensures d / k >= 1
  {
  }

  /** The row mark_arrival leaves behind: the fact cell shows the clock time of the arrival, the
      late cell the lateness, and the row is coloured late exactly when the lateness reaches a
      full minute, on time otherwise. */
  function MarkedItem(it: Item, start: Time, arrival: Offset, now: Time): (m: Item)
    ensures m.values == it.values.(fact := HourMinute(now), late := FormatTimedelta(Lateness(start, arrival, now)))
    ensures m.tag == Late <==> Lateness(start, arrival, now) >= MinuteUs
    ensures m.tag == OnTime <==> Lateness(start, arrival, now) < MinuteUs
  {
    var v := it.values.(fact := HourMinute(now), late := FormatTimedelta(Lateness(start, arrival, now)));
    Item(v, Classify(Present, v.late, true, Zero))
  }

  /** mark_arrival: a double click on a row records `now` as the arrival of a present person who
      has none yet, after the start; any other click changes nothing. */
  method MarkArrival(t: Table, h: Handle, now: Time)
    requires t.Valid() && h in t.rows
    modifies t
    ensures t.Valid()
    ensures !Markable(old(t.start), old(t.rows[h])) ==>
      t.start == old(t.start) && t.rows == old(t.rows) && t.items == old(t.items)
    ensures Markable(old(t.start), old(t.rows[h])) ==>
      t.start == old(t.start) &&
      t.rows == old(t.rows)[h := old(t.rows[h]).(fact := Some(now))] &&
      t.items == old(t.items)[h := MarkedItem(old(t.items[h]), old(t.start).value, old(t.rows[h]).arrival, now)]
    ensures t.keys == old(t.keys) && t.order == old(t.order) && t.next == old(t.next)
    ensures old(t.Synced()) ==> t.Synced()
  {
    if t.start.None? || t.rows[h].fact.Some? || t.rows[h].status != Present {
      return;
    }
    MarkPresent(t, h, now);
  }

  /** The body of mark_arrival past its guards: the fact, the fact and late cells, then
      apply_color. */
  method MarkPresent(t: Table, h: Handle, now: Time)
    requires t.Valid() && h in t.rows && Markable(t.start, t.rows[h])
    modifies t
    ensures t.Valid()
    ensures t.rows == old(t.rows)[h := old(t.rows[h]).(fact := Some(now))]
    ensures t.items == old(t.items)[h := MarkedItem(old(t.items[h]), old(t.start).value, old(t.rows[h]).arrival, now)]
    ensures t.start == old(t.start) && t.keys == old(t.keys) && t.order == old(t.order) && t.next == old(t.next)
    ensures old(t.Synced()) ==> t.Synced()
  {
    var fact := HourMinute(now);
    var late := FormatTimedelta(Lateness(t.start.value, t.rows[h].arrival, now));
    t.RewriteColored(h, t.rows[h].(fact := Some(now)), t.items[h].values.(fact := fact, late := late), Zero);
  }

  /** A choice made in one of the three combobox cells. */
  datatype Edit = EditPos(pos: Position) | EditArr(arr: Offset) | EditStatus(status: Status)

  /** commit_combo on a row's cells and record: the chosen cell takes the value, the offset and
      the status also go to the record; the number, name, fact and late cells and the record's
      name and fact stay, so a lateness shown before the edit is not recomputed. */
  function Commit(v: Values, r: Rec, e: Edit): (p: (Values, Rec))
    ensures p.0.num == v.num && p.0.fio == v.fio && p.0.fact == v.fact && p.0.late == v.late
    ensures p.1.fio == r.fio && p.1.fact == r.fact
    ensures e.EditPos? ==> p.0 == v.(pos := e.pos) && p.1 == r
    ensures e.EditArr? ==> p.0 == v.(arr := e.arr) && p.1 == r.(arrival := e.arr)
    ensures e.EditStatus? ==> p.0 == v.(status := e.status) && p.1 == r.(status := e.status)
    ensures Agrees(v, r) ==> Agrees(p.0, p.1)
  {
    match e
    case EditPos(pos) => (v.(pos := pos), r)
    case EditArr(arr) => (v.(arr := arr), r.(arrival := arr))
    case EditStatus(status) => (v.(status := status), r.(status := status))
  }

  /** commit_combo: a row deleted while its editor was open is left alone; otherwise the edit is
      committed and the row recoloured. */
  method CommitCombo(t: Table, h: Handle, e: Edit)
    requires t.Valid()
    modifies t
    ensures t.Valid()
    ensures h !in old(t.items) ==> t.rows == old(t.rows) && t.items == old(t.items)
    ensures h in old(t.items) ==>
      var p := Commit(old(t.items[h]).values, old(t.rows[h]), e);
      t.rows == old(t.rows)[h := p.1] &&
      t.items == old(t.items)[h := Item(p.0, Classify(p.1.status, p.0.late, p.1.fact.Some?, Zero))]
    ensures t.start == old(t.start) && t.keys == old(t.keys) && t.order == old(t.order) && t.next == old(t.next)
    ensures old(t.Synced()) ==> t.Synced()
  {
    if h !in t.items {
      return;
    }
    var p := Commit(t.items[h].values, t.rows[h], e);
    t.RewriteColored(h, p.1, p.0, Zero);
  }

  /** The Treeview after commit_text renames row `h`, before the table is re-sorted. */
  function Renamed(items: map<Handle, Item>, h: Handle, name: string): map<Handle, Item>
    requires h in items
  {
    items[h := items[h].(values := items[h].values.(fio := name))]
  }

  /** commit_text on the name cell: the stripped text becomes the row's name and its record's
      name, and the table is re-sorted and renumbered; a deleted row or a blank text changes
      nothing. */
  method CommitText(t: Table, h: Handle, value: string)
    requires t.Valid()
    modifies t
    ensures t.Valid()
    ensures h !in old(t.items) || Strip(value) == [] ==>
      t.rows == old(t.rows) && t.items == old(t.items) && t.order == old(t.order)
    ensures h in old(t.items) && Strip(value) != [] ==>
      t.rows == old(t.rows)[h := old(t.rows[h]).(fio := Strip(value))] &&
      t.order == SortByName(old(t.order), Renamed(old(t.items), h, Strip(value))) &&
      t.items == Renumber(Renamed(old(t.items), h, Strip(value)), t.order) &&
      Arranged(t.order, t.items)
    ensures t.start == old(t.start) && t.keys == old(t.keys) && t.next == old(t.next)
    ensures old(t.Synced()) ==> t.Synced()
  {
    if h !in t.items {
      return;
    }
    var name := Strip(value);
    if name == [] {
      return;
    }
    Rename(t, h, name);
    Reordered(t.order, t.items);
    t.Reorder();
  }

  /** The two assignments of commit_text: the name cell and the record's name. */
  method Rename(t: Table, h: Handle, name: string)
    requires t.Valid() && h in t.items
    modifies t
    ensures t.Valid()
    ensures t.items == Renamed(old(t.items), h, name) && t.rows == old(t.rows)[h := old(t.rows[h]).(fio := name)]
    ensures t.start == old(t.start) && t.keys == old(t.keys) && t.order == old(t.order) && t.next == old(t.next)
    ensures old(t.Synced()) ==> t.Synced()
  {
    t.items := Renamed(t.items, h, name);
    t.rows := t.rows[h := t.rows[h].(fio := name)];
  }

  /** add_row_values: a blank name, or a duplicate name (ignoring case) whose confirmation is
      refused, adds nothing; otherwise one row is added with no fact, its record taking the
      name, offset and status, and the table is re-sorted and renumbered. `ask(k)` is the answer
      to the k-th duplicate prompt. */
  method AddRowValues(t: Table, pos: Position, fio: string, arr: Offset, status: Status, ask: nat -> bool)
    returns (added: Option<Handle>)
    requires t.Valid()
    modifies t
    ensures t.Valid()
    ensures added.None? <==> fio == [] || exists k :: 0 <= k < DupCount(fio, old(t.Recs())) && !ask(k)
    ensures added.None? ==>
      t.keys == old(t.keys) && t.rows == old(t.rows) && t.order == old(t.order) && t.items == old(t.items) &&
      t.next == old(t.next)
    ensures added.Some? ==>
      var h := added.value;
      var its := old(t.items)[h := Item(NewValues(pos, fio, arr, status), NoTag)];
      h == old(t.next) && h !in old(t.rows) && t.next == old(t.next) + 1 &&
      t.keys == old(t.keys) + [h] &&
      t.rows == old(t.rows)[h := Rec(fio, arr, None, status)] &&
      t.order == SortByName(old(t.order) + [h], its) &&
      t.items == Renumber(its, t.order) &&
      Arranged(t.order, t.items)
    ensures t.start == old(t.start)
    ensures old(t.Synced()) ==> t.Synced()
  {
    if fio == [] {
      return None;
    }
    var proceed := t.ConfirmAdd(fio, ask);
    if !proceed {
      return None;
    }
    ghost var o := t.order + [t.next];
    DistinctAppend(t.order, t.next);
    var h := t.Add(NewValues(pos, fio, arr, status), Rec(fio, arr, None, status));
    Reordered(o, old(t.items)[h := Item(NewValues(pos, fio, arr, status), NoTag)]);
    return Some(h);
  }

  /** The heights update_chart draws for the late and on-time bars. */
  datatype Bars = Bars(late: nat, ontime: nat)

  /** A person the chart counts as late: arrived, with a late text that is neither blank nor
      "00:00". */
  predicate ShownLate(r: Rec, it: Item) {
    Arrived(r) && it.values.late != "" && it.values.late != Zero
  }

  /** The late and on-time bars over the records in dict order. Every arrived person is in
      exactly one of the two. */
  function LateOnTime(keys: seq<Handle>, rows: map<Handle, Rec>, items: map<Handle, Item>): (b: Bars)
    ensures (forall h :: h in keys ==> h in rows && h in items) ==>
      b.late + b.ontime == Count(RecsOf(keys, rows)).arrived
  {
    if keys == [] then Bars(0, 0)
    else
      var h := keys[|keys| - 1];
      var b := LateOnTime(keys[..|keys| - 1], rows, items);
      if h in rows && h in items then
        Bars(b.late + Indicator(ShownLate(rows[h], items[h])),
             b.ontime + Indicator(Arrived(rows[h]) && !ShownLate(rows[h], items[h])))
      else b
  }

  /** update_chart's counts: both bars are empty until the timer is started. */
  function Chart(start: Option<Time>, keys: seq<Handle>, rows: map<Handle, Rec>, items: map<Handle, Item>): (b: Bars)
    ensures start.None? ==> b == Bars(0, 0)
    ensures start.Some? && (forall h :: h in keys ==> h in rows && h in items) ==>
      b.late + b.ontime == Count(RecsOf(keys, rows)).arrived
  {
    if start.None? then Bars(0, 0) else LateOnTime(keys, rows, items)
  }

  /** search_from_entry's `search_matches`: the rows whose name contains the query, in display
      order; the first one is the first such row from the top. */
  function Matches(order: seq<Handle>, items: map<Handle, Item>, q: string): (ms: seq<Handle>)
    ensures forall h :: h in ms <==> h in order && Hit(items, h, q)
    ensures |ms| <= |order|
  {
    if order == [] then []
    else
      var init := order[..|order| - 1];
      var last := order[|order| - 1];
      assert forall h :: h in order <==> h in init || h == last;
      Matches(init, items, q) + (if Hit(items, last, q) then [last] else [])
  }

  /** The matches keep the display order of `tree.get_children()`, and list each row once. */
  lemma {:induction false} MatchesInOrder(order: seq<Handle>, items: map<Handle, Item>, q: string)
    ensures Distinct(order) ==> Distinct(Matches(order, items, q))
    ensures KeepsOrder(Matches(order, items, q), order)
  {
    if order != [] {
      var init := order[..|order| - 1];
      var last := order[|order| - 1];
      var m0 := Matches(init, items, q);
      var ms := Matches(order, items, q);
      assert ms == m0 + (if Hit(items, last, q) then [last] else []);
      MatchesInOrder(init, items, q);
      if Distinct(order) {
        assert Distinct(init) && last !in init;
        if Hit(items, last, q) {
          assert last !in m0;
          DistinctAppend(m0, last);
        }
      }
      assert KeepsOrder(m0, init);
      forall i, j | 0 <= i < j < |ms|
        ensures exists a, b :: 0 <= a < b < |order| && order[a] == ms[i] && order[b] == ms[j]
      {
        if j < |m0| {
          assert ms[i] == m0[i] && ms[j] == m0[j];
          assert exists a, b :: 0 <= a < b < |init| && init[a] == m0[i] && init[b] == m0[j];
          var a, b :| 0 <= a < b < |init| && init[a] == m0[i] && init[b] == m0[j];
          assert order[a] == ms[i] && order[b] == ms[j];
        } else {
          assert ms[i] == m0[i] && m0[i] in m0;
          var a :| 0 <= a < |init| && init[a] == ms[i];
          assert order[a] == ms[i] && order[|order| - 1] == ms[j];
        }
      }
    }
  }

  /** The first match is the first row from the top whose name contains the query. */
  lemma {:induction false} MatchesFirst(order: seq<Handle>, items: map<Handle, Item>, q: string)
    requires Matches(order, items, q) != []
    ensures exists i :: NoHitBefore(order, items, q, i) && order[i] == Matches(order, items, q)[0]
  {
    var init := order[..|order| - 1];
    var ms := Matches(init, items, q);
    var i: nat;
    if ms == [] {
      i := |order| - 1;
      forall j | 0 <= j < i
        ensures !Hit(items, order[j], q)
      {
        assert order[j] == init[j] && init[j] in init;
      }
    } else {
      MatchesFirst(init, items, q);
      var k :| NoHitBefore(init, items, q, k) && init[k] == ms[0];
      i := k;
      assert forall j :: 0 <= j < i ==> order[j] == init[j];
    }
    assert NoHitBefore(order, items, q, i) && order[i] == Matches(order, items, q)[0];
  }

  /** The search bar's state: `search_matches` and `search_index`. */
  datatype Search = Search(matches: seq<Handle>, index: nat)

  /** A search step: the new state and the row it selects, if any. */
  datatype Found = Found(search: Search, selected: Option<Handle>)

  /** search_from_entry: a blank query does nothing; otherwise the matches are recomputed and,
      when there are any, the first row from the top whose name contains the query is selected
      and the index reset; with none, the index is left as it was. */
  function SearchFromEntry(s: Search, entry: string, order: seq<Handle>, items: map<Handle, Item>): (f: Found)
    ensures Strip(entry) == [] ==> f == Found(s, None)
    ensures Strip(entry) != [] ==> f.search.matches == Matches(order, items, Strip(entry))
    ensures f.selected.None? ==> f.search.index == s.index
    ensures f.selected.Some? <==> Strip(entry) != [] && exists h :: h in order && Hit(items, h, Strip(entry))
    ensures f.selected.Some? ==>
      f.search.index == 0 &&
      Hit(items, f.selected.value, Strip(entry)) &&
      exists i :: NoHitBefore(order, items, Strip(entry), i) && order[i] == f.selected.value
  {
    var q := Strip(entry);
    if q == [] then Found(s, None)
    else
      var ms := Matches(order, items, q);
      if ms == [] then Found(Search(ms, s.index), None)
      else
        assert ms[0] in ms;
        MatchesFirst(order, items, q);
        Found(Search(ms, 0), Some(ms[0]))
  }

  /** search_next: with no matches it searches afresh; otherwise the index moves to the next
      match, cycling back to the first after the last. The matches are not recomputed, so the
      next one may be a row deleted since: `selection_set` then raises TclError after the index
      has moved, and the selection stays as it was (`selected` is `None`). */
  function SearchNext(s: Search, entry: string, order: seq<Handle>, items: map<Handle, Item>): (f: Found)
    ensures s.matches == [] ==> f == SearchFromEntry(s, entry, order, items)
    ensures s.matches != [] ==>
      f.search.matches == s.matches && f.search.index < |s.matches| &&
      f.search.index == (s.index + 1) % |s.matches|
    ensures s.matches != [] ==> (f.selected.Some? <==> s.matches[f.search.index] in order)
    ensures s.matches != [] && f.selected.Some? ==> f.selected.value == s.matches[f.search.index]
  {
    if s.matches == [] then SearchFromEntry(s, entry, order, items)
    else
      var i := (s.index + 1) % |s.matches|;
      Found(Search(s.matches, i), if s.matches[i] in order then Some(s.matches[i]) else None)
  }

  /** The state after `k` presses of search_next. */
  function Presses(s: Search, k: nat, entry: string, order: seq<Handle>, items: map<Handle, Item>): Search {
    if k == 0 then s else SearchNext(Presses(s, k - 1, entry, order, items), entry, order, items).search
  }

  /** One press moves a valid index to the next match, from the last back to the first. */
  lemma StepMod(v: nat, n: nat)
    requires v < n
    ensures (v + 1) % n == if v + 1 < n then v + 1 else 0
  {
  }

  /** With matches in hand, each press advances the index by one around the list. */
  lemma {:induction false} PressesCycle(s: Search, k: nat, entry: string, order: seq<Handle>, items: map<Handle, Item>)
    requires s.matches != [] && s.index < |s.matches| && k <= |s.matches|
    ensures Presses(s, k, entry, order, items).matches == s.matches
    ensures Presses(s, k, entry, order, items).index ==
      if s.index + k < |s.matches| then s.index + k else s.index + k - |s.matches|
  {
    if k > 0 {
      PressesCycle(s, k - 1, entry, order, items);
      StepMod(Presses(s, k - 1, entry, order, items).index, |s.matches|);
    }
  }

  /** As many presses as there are matches come back to the row the search started on. */
  lemma SearchReturns(s: Search, entry: string, order: seq<Handle>, items: map<Handle, Item>)
    requires s.matches != [] && s.index < |s.matches|
    ensures Presses(s, |s.matches|, entry, order, items) == s
  {
    PressesCycle(s, |s.matches|, entry, order, items);
  }
}
