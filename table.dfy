/** The state both variants of the program keep and the operations whose code is the same in
    app.py and Qwen_python.py: the shift start, `self.rows` in dict order, and the Treeview's rows
    in display order. */
module Table {
  import opened Base
  import opened Text
  import opened Roster
  import opened Ordering
  import opened Tally
  import opened Persist

  /** The elements of a sequence of handles. */
  ghost function Elems(s: seq<Handle>): set<Handle> {
    set x | x in s
  }

  /** The handles `lo, lo + 1, ..., lo + n - 1` that `n` successive inserts receive. */
  function Range(lo: nat, n: nat): (s: seq<Handle>)
    ensures |s| == n && forall i :: 0 <= i < n ==> s[i] == lo + i
  {
    if n == 0 then [] else Range(lo, n - 1) + [lo + n - 1]
  }

  /** The cells of a row that repeat the fields of its record hold the same values. */
  predicate Agrees(v: Values, r: Rec) {
    v.fio == r.fio && v.arr == r.arrival && v.status == r.status
  }

  /** Every row is both a record and a Treeview row, once each, under a handle already issued. */
  ghost predicate Consistent(keys: seq<Handle>, rows: map<Handle, Rec>, order: seq<Handle>,
                             items: map<Handle, Item>, next: Handle) {
    Distinct(keys) && Distinct(order) &&
    (forall h :: h in keys <==> h in rows) &&
    (forall h :: h in order <==> h in rows) &&
    items.Keys == rows.Keys &&
    (forall h :: h in rows ==> h < next)
  }

  /** Every row that is also a record agrees with it. */
  ghost predicate AllAgree(items: map<Handle, Item>, rows: map<Handle, Rec>) {
    forall h :: h in rows && h in items ==> Agrees(items[h].values, rows[h])
  }

  /** Rewriting one row and its record in place keeps the table consistent, and keeps it synced
      when the new cells agree with the new record. */
  lemma UpdateRow(keys: seq<Handle>, rows: map<Handle, Rec>, order: seq<Handle>,
                  items: map<Handle, Item>, next: Handle, h: Handle, r: Rec, it: Item)
    requires Consistent(keys, rows, order, items, next) && h in rows
    ensures Consistent(keys, rows[h := r], order, items[h := it], next)
    ensures AllAgree(items, rows) && Agrees(it.values, r) ==> AllAgree(items[h := it], rows[h := r])
  {
    assert rows[h := r].Keys == rows.Keys;
  }

  /** The names import_excel takes from the first column: empty cells dropped (`dropna`), each
      name stripped, blank ones skipped. */
  function ImportedNames(column: seq<Option<string>>): seq<string> {
    NamesUpTo(column, |column|)
  }

  /** The names imported from the first `i` cells. */
  function NamesUpTo(column: seq<Option<string>>, i: nat): (names: seq<string>)
    requires i <= |column|
    ensures |names| <= i
  {
    if i == 0 then []
    else
      var names := NamesUpTo(column, i - 1);
      var cell := column[i - 1];
      if cell.Some? && Strip(cell.value) != [] then names + [Strip(cell.value)] else names
  }

  /** Every imported name is non-empty and has no surrounding whitespace; all cells yield a name
      exactly when none is missing or blank. */
  lemma {:induction false} NamesStripped(column: seq<Option<string>>, i: nat)
    requires i <= |column|
    ensures forall k :: 0 <= k < |NamesUpTo(column, i)| ==>
      NamesUpTo(column, i)[k] != [] && Strip(NamesUpTo(column, i)[k]) == NamesUpTo(column, i)[k]
    ensures |NamesUpTo(column, i)| == i <==>
      forall j :: 0 <= j < i ==> column[j].Some? && !AllSpace(column[j].value)
  {
    if i > 0 {
      NamesStripped(column, i - 1);
      var cell := column[i - 1];
      if cell.Some? && Strip(cell.value) != [] {
        StripIdempotent(cell.value);
      }
    }
  }

  /** The record import_excel creates for a name. */
  function ImportedRec(name: string): Rec {
    Rec(name, H1, None, Present)
  }

  /** The Treeview row import_excel inserts for a name. */
  function ImportedItem(name: string): Item {
    Item(NewValues(Unknown, name, H1, Present), NoTag)
  }

  /** The records import_excel adds to `self.rows`: the k-th name under the handle `lo + k`. */
  function ImportedRows(names: seq<string>, lo: nat): (m: map<Handle, Rec>)
    ensures forall h :: h in m <==> lo <= h < lo + |names|
  {
    if names == [] then map[]
    else ImportedRows(names[..|names| - 1], lo)[lo + |names| - 1 := ImportedRec(names[|names| - 1])]
  }

  /** The Treeview rows import_excel inserts: the k-th name under the handle `lo + k`. */
  function ImportedItems(names: seq<string>, lo: nat): (m: map<Handle, Item>)
    ensures forall h :: h in m <==> lo <= h < lo + |names|
  {
    if names == [] then map[]
    else ImportedItems(names[..|names| - 1], lo)[lo + |names| - 1 := ImportedItem(names[|names| - 1])]
  }

  /** The k-th imported name is the record and the row under the handle `lo + k`. */
  lemma {:induction false} ImportedAt(names: seq<string>, lo: nat)
    ensures forall k :: 0 <= k < |names| ==>
      ImportedRows(names, lo)[lo + k] == ImportedRec(names[k]) &&
      ImportedItems(names, lo)[lo + k] == ImportedItem(names[k])
  {
    if names != [] {
      var init := names[..|names| - 1];
      ImportedAt(init, lo);
      forall k | 0 <= k < |names|
        ensures ImportedRows(names, lo)[lo + k] == ImportedRec(names[k])
        ensures ImportedItems(names, lo)[lo + k] == ImportedItem(names[k])
      {
        if k < |init| {
          assert names[k] == init[k];
        }
      }
    }
  }

  /** Importing one more name adds one record and one Treeview row under the next handle. */
  lemma ImportedSnoc(names: seq<string>, lo: nat, x: string)
    ensures ImportedRows(names + [x], lo) == ImportedRows(names, lo)[lo + |names| := ImportedRec(x)]
    ensures ImportedItems(names + [x], lo) == ImportedItems(names, lo)[lo + |names| := ImportedItem(x)]
  {
    assert (names + [x])[..|names|] == names;
  }

  /** Inserting fresh handles in sequence keeps the table consistent and the rows synced. */
  lemma ImportKeepsValid(k0: seq<Handle>, r0: map<Handle, Rec>, o0: seq<Handle>, i0: map<Handle, Item>,
                         n0: nat, names: seq<string>)
    requires Consistent(k0, r0, o0, i0, n0)
    ensures var n := |names|;
      Consistent(k0 + Range(n0, n), r0 + ImportedRows(names, n0), o0 + Range(n0, n),
                 i0 + ImportedItems(names, n0), n0 + n)
    ensures AllAgree(i0, r0) ==> AllAgree(i0 + ImportedItems(names, n0), r0 + ImportedRows(names, n0))
  {
    var n := |names|;
    var rs, its := r0 + ImportedRows(names, n0), i0 + ImportedItems(names, n0);
    RangeMembers(n0, n);
    FreshAppend(k0, n0, n, r0);
    FreshAppend(o0, n0, n, r0);
    assert forall h :: h in rs <==> h in r0 || n0 <= h < n0 + n;
    assert forall h :: h in its <==> h in i0 || n0 <= h < n0 + n;
    assert its.Keys == rs.Keys;
    ImportAgree(r0, i0, names, n0);
  }

  /** Imported records and rows agree with each other, so importing keeps the rows synced. */
  lemma ImportAgree(r0: map<Handle, Rec>, i0: map<Handle, Item>, names: seq<string>, n0: nat)
    ensures AllAgree(i0, r0) ==> AllAgree(i0 + ImportedItems(names, n0), r0 + ImportedRows(names, n0))
  {
    var rs, its := r0 + ImportedRows(names, n0), i0 + ImportedItems(names, n0);
    if AllAgree(i0, r0) {
      ImportedAt(names, n0);
      forall h | h in rs && h in its ensures Agrees(its[h].values, rs[h]) {
        if n0 <= h < n0 + |names| {
          assert rs[h] == ImportedRec(names[h - n0]);
          assert its[h] == ImportedItem(names[h - n0]);
        }
      }
    }
  }

  /** The handles of `Range(lo, n)` are exactly those from `lo` below `lo + n`. */
  lemma RangeMembers(lo: nat, n: nat)
    ensures forall h :: h in Range(lo, n) <==> lo <= h < lo + n
  {
    var rg := Range(lo, n);
    forall h ensures h in rg <==> lo <= h < lo + n {
      if lo <= h < lo + n {
        assert rg[h - lo] == h;
      }
    }
  }

  /** Handles issued from `lo` on, appended to distinct handles all below `lo`, stay distinct. */
  lemma FreshAppend(k0: seq<Handle>, lo: nat, n: nat, r0: map<Handle, Rec>)
    requires Distinct(k0) && (forall h :: h in k0 ==> h in r0) && (forall h :: h in r0 ==> h < lo)
    ensures Distinct(k0 + Range(lo, n))
  {
    var rg := Range(lo, n);
    forall i, j | 0 <= i < j < |k0 + rg| ensures (k0 + rg)[i] != (k0 + rg)[j] {
      if j >= |k0| && i < |k0| {
        assert k0[i] in r0;
      }
    }
  }

  lemma RangeStep(k0: seq<Handle>, lo: nat, n: nat)
    ensures (k0 + Range(lo, n)) + [lo + n] == k0 + Range(lo, n + 1)
  {
  }

  lemma UpdateTwice<V>(m: map<Handle, V>, k: Handle, a: V, b: V)
    ensures m[k := a][k := b] == m[k := b]
  {
  }

  lemma MergeUpdate<V>(a: map<Handle, V>, b: map<Handle, V>, k: Handle, v: V)
    ensures (a + b)[k := v] == a + b[k := v]
  {
  }

  /** clear_data's record: no fact, status Present. */
  function ClearedRec(r: Rec): Rec {
    r.(fact := None, status := Present)
  }

  /** clear_data's row: blank fact and late cells, status Present, no tag. */
  function ClearedItem(it: Item): Item {
    Item(it.values.(fact := "", late := "", status := Present), NoTag)
  }

  /** clear_data's records: every record cleared. */
  function ClearedRows(rows: map<Handle, Rec>): (r: map<Handle, Rec>)
    ensures r.Keys == rows.Keys
  {
    map h | h in rows :: ClearedRec(rows[h])
  }

  /** clear_data's Treeview: every row cleared. */
  function ClearedItems(items: map<Handle, Item>): (r: map<Handle, Item>)
    ensures r.Keys == items.Keys
  {
    map h | h in items :: ClearedItem(items[h])
  }

  /** The number of records whose name equals `fio` ignoring case: the prompts add_row asks. */
  function DupCount(fio: string, recs: seq<Rec>): (n: nat)
    ensures n <= |recs|
  {
    if recs == [] then 0
    else DupCount(fio, recs[..|recs| - 1]) + Indicator(Lower(fio) == Lower(recs[|recs| - 1].fio))
  }

  /** A row whose lower-cased name contains the lower-cased query. */
  predicate Hit(items: map<Handle, Item>, h: Handle, q: string) {
    h in items && Contains(Lower(items[h].values.fio), Lower(q))
  }

  /** Position `i` is in the display and no row above it matches. */
  predicate NoHitBefore(order: seq<Handle>, items: map<Handle, Item>, q: string, i: int) {
    0 <= i < |order| && forall j :: 0 <= j < i ==> !Hit(items, order[j], q)
  }

  class Table {
    var start: Option<Time>
    /** The keys of `self.rows`, in insertion order. */
    var keys: seq<Handle>
    var rows: map<Handle, Rec>
    /** `tree.get_children()`: the display order. */
    var order: seq<Handle>
    var items: map<Handle, Item>
    /** The handle the next `tree.insert` returns. */
    var next: Handle

    /** Every row is both a record and a Treeview row, once each, under a handle already issued. */
    ghost predicate Valid()
      reads this
    {
      Consistent(keys, rows, order, items, next)
    }

    /** The name, offset and status cells of every row agree with its record. */
    ghost predicate Synced()
      reads this
    {
      AllAgree(items, rows)
    }

    /** A Treeview selection: distinct rows of the table. */
    ghost predicate Selection(sel: seq<Handle>)
      reads this
    {
      Distinct(sel) && forall h :: h in sel ==> h in rows
    }

    /** `self.rows.values()`. */
    function Recs(): seq<Rec>
      reads this
    {
      RecsOf(keys, rows)
    }

    /** save_data's record of the current state. */
    function Save(): SaveRecord
      reads this
    {
      SaveOf(start, keys, rows, items)
    }

    /** `__init__`: an empty table, load_data from a saved record (`None` when there is no data
        file), then sort_table and update_numbers. */
    constructor Open(saved: Option<SaveRecord>, zero: string)
      ensures Valid()
      ensures saved.None? ==>
        start.None? && keys == [] && order == [] && rows == map[] && items == map[] && next == 0
      ensures saved.Some? ==>
        start == saved.value.start && keys == Iota(|saved.value.rows|) &&
        rows == LoadedRows(saved.value) && next == |saved.value.rows| &&
        order == SortByName(keys, LoadedItems(saved.value, zero)) &&
        items == Renumber(LoadedItems(saved.value, zero), order)
      ensures saved.Some? && RecordSynced(saved.value) ==> Synced()
    {
      var st: Option<Time> := None;
      var ks: seq<Handle> := [];
      var rs: map<Handle, Rec> := map[];
      var its: map<Handle, Item> := map[];
      if saved.Some? {
        st := saved.value.start;
        ks, rs, its := LoadRows(saved.value, zero);
        LoadedConsistent(saved.value, zero);
      }
      start := st;
      keys := ks;
      rows := rs;
      order := ks;
      items := its;
      next := |ks|;
      new;
      SortTable();
      UpdateNumbers();
    }

    /** start_timer: the start becomes `now`, also on a restart; nothing else changes. */
    method StartTimer(now: Time)
      modifies this
      ensures start == Some(now)
      ensures keys == old(keys) && rows == old(rows) && order == old(order) && items == old(items) && next == old(next)
    {
      start := Some(now);
    }

    /** `tree.insert("", "end", values=...)` followed by `self.rows[item] = ...`. */
    method Append(values: Values, rec: Rec) returns (h: Handle)
      requires Valid()
      modifies this
      ensures Valid()
      ensures h == old(next) && h !in old(rows) && next == old(next) + 1
      ensures keys == old(keys) + [h] && order == old(order) + [h]
      ensures rows == old(rows)[h := rec] && items == old(items)[h := Item(values, NoTag)]
      ensures start == old(start)
      ensures old(Synced()) && Agrees(values, rec) ==> Synced()
    {
      h := next;
      keys := keys + [h];
      order := order + [h];
      rows := rows[h := rec];
      items := items[h := Item(values, NoTag)];
      next := next + 1;
      DistinctAppend(old(keys), h);
      DistinctAppend(old(order), h);
    }

    /** sort_table: sort the children by lower-cased name, then move each to the end in turn. */
    method SortTable()
      requires Valid()
      modifies this
      ensures Valid()
      ensures order == SortByName(old(order), items)
      ensures start == old(start) && keys == old(keys) && rows == old(rows) && items == old(items) && next == old(next)
      ensures old(Synced()) ==> Synced()
    {
      var sorted := SortByName(order, items);
      SortKeeps(keys, rows, order, items, next);
      order := MoveEach(order, sorted);
    }

    /** update_numbers: the row at display position `idx` (from 1) gets the number `idx`. */
    method UpdateNumbers()
      requires Valid()
      modifies this
      ensures Valid()
      ensures items == Renumber(old(items), order)
      ensures start == old(start) && keys == old(keys) && rows == old(rows) && order == old(order) && next == old(next)
      ensures old(Synced()) ==> Synced()
    {
      RenumberSynced(keys, rows, order, items, next);
      items := NumberEach(items, order);
    }

    /** apply_color: the row's tag from its record's status and fact and its "late" cell. */
    method ApplyColor(h: Handle, zero: string)
      requires Valid() && h in rows
      modifies this
      ensures Valid()
      ensures start == old(start) && keys == old(keys) && rows == old(rows) && order == old(order) && next == old(next)
      ensures items == old(items)[h := old(items)[h].(tag := Classify(rows[h].status, old(items)[h].values.late, rows[h].fact.Some?, zero))]
      ensures old(Synced()) ==> Synced()
    {
      var it := items[h];
      items := items[h := it.(tag := Classify(rows[h].status, it.values.late, rows[h].fact.Some?, zero))];
    }

    /** Writes to one row in place: its record becomes `r` and its cells `v`, its colour stays
        until apply_color. The table stays synced when the new cells agree with the new record. */
    method Rewrite(h: Handle, r: Rec, v: Values)
      requires Valid() && h in rows
      modifies this
      ensures Valid()
      ensures rows == old(rows)[h := r]
      ensures items == old(items)[h := old(items[h]).(values := v)]
      ensures start == old(start) && keys == old(keys) && order == old(order) && next == old(next)
      ensures old(Synced()) && Agrees(v, r) ==> Synced()
    {
      var it := items[h].(values := v);
      UpdateRow(keys, rows, order, items, next, h, r, it);
      rows := rows[h := r];
      items := items[h := it];
    }

    /** Rewrites one row and its record, then apply_color: the row ends with the cells `v` and
        the tag its new record and late cell call for. */
    method RewriteColored(h: Handle, r: Rec, v: Values, zero: string)
      requires Valid() && h in rows
      modifies this
      ensures Valid()
      ensures rows == old(rows)[h := r]
      ensures items == old(items)[h := Item(v, Classify(r.status, v.late, r.fact.Some?, zero))]
      ensures start == old(start) && keys == old(keys) && order == old(order) && next == old(next)
      ensures old(Synced()) && Agrees(v, r) ==> Synced()
    {
      ghost var before := items;
      Rewrite(h, r, v);
      ApplyColor(h, zero);
      UpdateTwice(before, h, before[h].(values := v), Item(v, Classify(r.status, v.late, r.fact.Some?, zero)));
    }

    /** The duplicate loop of add_row: one confirmation per record with the same lower-cased name,
        in dict order, stopping at the first refusal; `ask(k)` is the answer to the k-th prompt. */
    method ConfirmAdd(fio: string, ask: nat -> bool) returns (proceed: bool)
      requires Valid()
      ensures proceed <==> forall k :: 0 <= k < DupCount(fio, Recs()) ==> ask(k)
    {
      proceed := AskEach(fio, Recs(), ask);
    }

    /** The tail of add_row: insert the row, then sort_table and update_numbers. */
    method Add(values: Values, rec: Rec) returns (h: Handle)
      requires Valid()
      modifies this
      ensures Valid()
      ensures h == old(next) && h !in old(rows) && next == old(next) + 1
      ensures keys == old(keys) + [h] && rows == old(rows)[h := rec]
      ensures order == SortByName(old(order) + [h], old(items)[h := Item(values, NoTag)])
      ensures items == Renumber(old(items)[h := Item(values, NoTag)], order)
      ensures start == old(start)
      ensures old(Synced()) && Agrees(values, rec) ==> Synced()
    {
      h := Append(values, rec);
      SortTable();
      UpdateNumbers();
    }

    /** delete_row: the first selected row goes, then update_numbers; no selection, no change. */
    method DeleteRow(sel: seq<Handle>)
      requires Valid() && Selection(sel)
      modifies this
      ensures Valid()
      ensures sel == [] ==>
        keys == old(keys) && rows == old(rows) && order == old(order) && items == old(items)
      ensures sel != [] ==>
        keys == Minus(old(keys), {sel[0]}) && rows == old(rows) - {sel[0]} &&
        order == Minus(old(order), {sel[0]}) && items == Renumber(old(items) - {sel[0]}, order)
      ensures start == old(start) && next == old(next)
      ensures old(Synced()) ==> Synced()
    {
      if sel == [] {
        return;
      }
      var h := sel[0];
      Remove(h);
      UpdateNumbers();
    }

    /** `tree.delete(item)` and `del self.rows[item]`. */
    method Remove(h: Handle)
      requires Valid() && h in rows
      modifies this
      ensures Valid()
      ensures keys == Minus(old(keys), {h}) && rows == old(rows) - {h}
      ensures order == Minus(old(order), {h}) && items == old(items) - {h}
      ensures start == old(start) && next == old(next)
      ensures old(Synced()) ==> Synced()
    {
      RemoveConsistent(keys, rows, order, items, next, {h});
      keys := Minus(keys, {h});
      order := Minus(order, {h});
      rows := rows - {h};
      items := items - {h};
    }

    /** delete_selected_rows: with a selection and a confirmation, every selected row goes, then
        update_numbers; otherwise nothing changes. */
    method DeleteSelectedRows(sel: seq<Handle>, confirm: bool)
      requires Valid() && Selection(sel)
      modifies this
      ensures Valid()
      ensures sel == [] || !confirm ==>
        keys == old(keys) && rows == old(rows) && order == old(order) && items == old(items)
      ensures sel != [] && confirm ==>
        keys == Minus(old(keys), Elems(sel)) && rows == old(rows) - Elems(sel) &&
        order == Minus(old(order), Elems(sel)) && items == Renumber(old(items) - Elems(sel), order)
      ensures start == old(start) && next == old(next)
      ensures old(Synced()) ==> Synced()
    {
      if sel == [] || !confirm {
        return;
      }
      RemoveEach(sel);
      UpdateNumbers();
    }

    /** `for item in selected: tree.delete(item); del self.rows[item]`. */
    method RemoveEach(sel: seq<Handle>)
      requires Valid() && Selection(sel)
      modifies this
      ensures Valid()
      ensures keys == Minus(old(keys), Elems(sel)) && rows == old(rows) - Elems(sel)
      ensures order == Minus(old(order), Elems(sel)) && items == old(items) - Elems(sel)
      ensures start == old(start) && next == old(next)
      ensures old(Synced()) ==> Synced()
    {
      RemoveConsistent(keys, rows, order, items, next, Elems(sel));
      keys, rows, order, items := RemoveAll(sel, keys, rows, order, items);
    }

    /** delete_all_table: on a non-empty table and a confirmation every row goes; the start time
        stays. `empty` tells that the table already was empty (the "Таблица уже пуста" notice). */
    method DeleteAllTable(confirm: bool) returns (empty: bool)
      requires Valid()
      modifies this
      ensures Valid()
      ensures empty <==> old(rows) == map[]
      ensures empty || !confirm ==>
        keys == old(keys) && rows == old(rows) && order == old(order) && items == old(items)
      ensures !empty && confirm ==> keys == [] && rows == map[] && order == [] && items == map[]
      ensures start == old(start) && next == old(next)
      ensures old(Synced()) ==> Synced()
    {
      if rows == map[] {
        return true;
      }
      empty := false;
      if !confirm {
        return;
      }
      order, items := DeleteFromTree(keys, order, items);
      rows := map[];
      keys := [];
      UpdateNumbers();
    }

    /** The name loop of import_excel: an empty sheet is refused (`None`) and changes nothing;
        otherwise every imported name becomes a new row, without a duplicate check, and the
        table is sorted and renumbered; the result is the number of names imported. */
    method ImportExcel(column: seq<Option<string>>) returns (imported: Option<nat>)
      requires Valid()
      modifies this
      ensures Valid()
      ensures column == [] ==> (imported.None? &&
        keys == old(keys) && rows == old(rows) && order == old(order) && items == old(items) && next == old(next))
      ensures column != [] ==> (
        var names := ImportedNames(column);
        imported == Some(|names|) &&
        next == old(next) + |names| &&
        keys == old(keys) + Range(old(next), |names|) &&
        rows == old(rows) + ImportedRows(names, old(next)) &&
        order == SortByName(old(order) + Range(old(next), |names|), old(items) + ImportedItems(names, old(next))) &&
        items == Renumber(old(items) + ImportedItems(names, old(next)), order))
      ensures start == old(start)
      ensures old(Synced()) ==> Synced()
    {
      if column == [] {
        return None;
      }
      var count := InsertNames(column);
      Reorder();
      return Some(count);
    }

    /** The insertions of import_excel, before the table is sorted and renumbered. */
    method InsertNames(column: seq<Option<string>>) returns (count: nat)
      requires Valid()
      modifies this
      ensures Valid()
      ensures count == |ImportedNames(column)| && next == old(next) + count
      ensures keys == old(keys) + Range(old(next), count) && order == old(order) + Range(old(next), count)
      ensures rows == old(rows) + ImportedRows(ImportedNames(column), old(next))
      ensures items == old(items) + ImportedItems(ImportedNames(column), old(next))
      ensures start == old(start)
      ensures old(Synced()) ==> Synced()
    {
      var n0 := next;
      ghost var names := ImportedNames(column);
      ImportKeepsValid(keys, rows, order, items, next, names);
      var ks, os, rs, its, n := AppendNames(column, keys, order, rows, items, next);
      keys, order, rows, items, next := ks, os, rs, its, n;
      count := n - n0;
    }

    /** `sort_table()` followed by `update_numbers()`. */
    method Reorder()
      requires Valid()
      modifies this
      ensures Valid()
      ensures order == SortByName(old(order), old(items)) && items == Renumber(old(items), order)
      ensures start == old(start) && keys == old(keys) && rows == old(rows) && next == old(next)
      ensures old(Synced()) ==> Synced()
    {
      SortTable();
      UpdateNumbers();
    }

    /** clear_data: with a confirmation, every record loses its fact and becomes Present, every
        row's fact and late cells are blanked, its status cell set to Present and its tag removed,
        and the start time is reset; names, offsets, positions, numbers and order stay. */
    method ClearData(confirm: bool)
      requires Valid()
      modifies this
      ensures Valid()
      ensures !confirm ==>
        start == old(start) && rows == old(rows) && items == old(items)
      ensures confirm ==>
        start.None? &&
        rows == ClearedRows(old(rows)) &&
        items == ClearedItems(old(items))
      ensures keys == old(keys) && order == old(order) && next == old(next)
      ensures old(Synced()) ==> Synced()
    {
      if !confirm {
        return;
      }
      rows, items := ClearEach(keys, rows, items);
      ClearedAgree(old(items), old(rows));
      start := None;
    }
  }

  /** The loop of import_excel: each cell that yields a name becomes a new Treeview row and a
      new record under the next handle, in column order. */
  method AppendNames(column: seq<Option<string>>, k0: seq<Handle>, o0: seq<Handle>,
                     r0: map<Handle, Rec>, i0: map<Handle, Item>, n0: Handle)
      returns (keys: seq<Handle>, order: seq<Handle>, rows: map<Handle, Rec>, items: map<Handle, Item>, next: Handle)
    ensures next == n0 + |ImportedNames(column)|
    ensures keys == k0 + Range(n0, |ImportedNames(column)|) && order == o0 + Range(n0, |ImportedNames(column)|)
    ensures rows == r0 + ImportedRows(ImportedNames(column), n0)
    ensures items == i0 + ImportedItems(ImportedNames(column), n0)
  {
    keys, order, rows, items, next := k0, o0, r0, i0, n0;
    ghost var names: seq<string> := [];
    ImportedNone(k0, o0, r0, i0, n0);
    var i := 0;
    while i < |column|
      invariant 0 <= i <= |column|
      invariant names == NamesUpTo(column, i) && next == n0 + |names|
      invariant keys == k0 + Range(n0, |names|) && order == o0 + Range(n0, |names|)
      invariant rows == r0 + ImportedRows(names, n0) && items == i0 + ImportedItems(names, n0)
    {
      var cell := column[i];
      if cell.Some? {
        var fio := Strip(cell.value);
        if fio != [] {
          AppendName(names, fio, k0, o0, r0, i0, n0, keys, order, rows, items, next);
          keys := keys + [next];
          order := order + [next];
          rows := rows[next := ImportedRec(fio)];
          items := items[next := ImportedItem(fio)];
          next := next + 1;
          names := names + [fio];
        }
      }
      i := i + 1;
    }
  }

  /** Before any name, the keys, the display order, the records and the rows are the old ones. */
  lemma ImportedNone(k0: seq<Handle>, o0: seq<Handle>, r0: map<Handle, Rec>, i0: map<Handle, Item>, n0: Handle)
    ensures k0 + Range(n0, 0) == k0 && o0 + Range(n0, 0) == o0
    ensures r0 + ImportedRows([], n0) == r0 && i0 + ImportedItems([], n0) == i0
  {
    assert k0 + [] == k0 && o0 + [] == o0;
  }

  /** One name imported: the next handle goes to the end of the keys and of the display order,
      and its record and row are added. */
  lemma AppendName(names: seq<string>, x: string, k0: seq<Handle>, o0: seq<Handle>,
                   r0: map<Handle, Rec>, i0: map<Handle, Item>, n0: Handle,
                   keys: seq<Handle>, order: seq<Handle>, rows: map<Handle, Rec>, items: map<Handle, Item>,
                   next: Handle)
    requires next == n0 + |names|
    requires keys == k0 + Range(n0, |names|) && order == o0 + Range(n0, |names|)
    requires rows == r0 + ImportedRows(names, n0) && items == i0 + ImportedItems(names, n0)
    ensures keys + [next] == k0 + Range(n0, |names + [x]|) && order + [next] == o0 + Range(n0, |names + [x]|)
    ensures rows[next := ImportedRec(x)] == r0 + ImportedRows(names + [x], n0)
    ensures items[next := ImportedItem(x)] == i0 + ImportedItems(names + [x], n0)
  {
    var n := |names|;
    RangeStep(k0, n0, n);
    RangeStep(o0, n0, n);
    ImportedSnoc(names, n0, x);
    MergeUpdate(r0, ImportedRows(names, n0), n0 + n, ImportedRec(x));
    MergeUpdate(i0, ImportedItems(names, n0), n0 + n, ImportedItem(x));
  }

  /** The loop of clear_data over the keys of `self.rows`, clearing each record and its row. */
  method ClearEach(ks: seq<Handle>, r0: map<Handle, Rec>, i0: map<Handle, Item>)
      returns (rows: map<Handle, Rec>, items: map<Handle, Item>)
    requires forall h :: h in ks ==> h in r0 && h in i0
    requires forall h :: h in r0 || h in i0 ==> h in ks
    ensures rows == ClearedRows(r0) && items == ClearedItems(i0)
  {
    rows, items := r0, i0;
    var i := 0;
    while i < |ks|
      invariant 0 <= i <= |ks|
      invariant rows == ClearedRowsUpTo(r0, ks, i) && items == ClearedItemsUpTo(i0, ks, i)
    {
      var h := ks[i];
      items := items[h := ClearedItem(items[h])];
      rows := rows[h := ClearedRec(rows[h])];
      i := i + 1;
    }
    ClearedAll(r0, i0, ks);
  }

  /** The loop of delete_all_table: `for item in list(self.rows.keys()): self.tree.delete(item)`.
      Every row of the Treeview is a key of `self.rows`, so the Treeview ends up empty. */
  method DeleteFromTree(ks: seq<Handle>, o0: seq<Handle>, i0: map<Handle, Item>)
      returns (order: seq<Handle>, items: map<Handle, Item>)
    requires forall h :: h in o0 ==> h in ks
    requires forall h :: h in i0 ==> h in ks
    ensures order == [] && items == map[]
  {
    order, items := o0, i0;
    var i := 0;
    while i < |ks|
      invariant 0 <= i <= |ks|
      invariant order == Gone(o0, ks, i) && items == Dropped(i0, ks, i)
    {
      order := Minus(order, {ks[i]});
      items := items - {ks[i]};
      i := i + 1;
    }
    GoneElems(o0, ks, |ks|);
    DroppedElems(i0, ks, |ks|);
    assert ks[..|ks|] == ks;
    MinusAll(o0, ks);
    DroppedAll(i0, ks);
  }

  /** The loop of delete_selected_rows: each selected row in turn leaves the Treeview and
      `self.rows`. */
  method RemoveAll(sel: seq<Handle>, k0: seq<Handle>, r0: map<Handle, Rec>, o0: seq<Handle>,
                   i0: map<Handle, Item>)
      returns (keys: seq<Handle>, rows: map<Handle, Rec>, order: seq<Handle>, items: map<Handle, Item>)
    requires forall h :: h in sel ==> h in r0
    ensures keys == Minus(k0, Elems(sel)) && rows == r0 - Elems(sel)
    ensures order == Minus(o0, Elems(sel)) && items == i0 - Elems(sel)
  {
    keys, rows, order, items := k0, r0, o0, i0;
    var i := 0;
    while i < |sel|
      invariant 0 <= i <= |sel|
      invariant keys == Gone(k0, sel, i) && order == Gone(o0, sel, i)
      invariant rows == Dropped(r0, sel, i) && items == Dropped(i0, sel, i)
    {
      var h := sel[i];
      keys := Minus(keys, {h});
      order := Minus(order, {h});
      rows := rows - {h};
      items := items - {h};
      i := i + 1;
    }
    RemovedAll(sel, k0, r0, o0, i0);
  }

  /** Once every selected handle has been taken out, the selection is gone from all four. */
  lemma RemovedAll(sel: seq<Handle>, k0: seq<Handle>, r0: map<Handle, Rec>, o0: seq<Handle>,
                   i0: map<Handle, Item>)
    ensures Gone(k0, sel, |sel|) == Minus(k0, Elems(sel)) && Gone(o0, sel, |sel|) == Minus(o0, Elems(sel))
    ensures Dropped(r0, sel, |sel|) == r0 - Elems(sel) && Dropped(i0, sel, |sel|) == i0 - Elems(sel)
  {
    GoneElems(k0, sel, |sel|);
    GoneElems(o0, sel, |sel|);
    DroppedElems(r0, sel, |sel|);
    DroppedElems(i0, sel, |sel|);
    assert sel[..|sel|] == sel;
  }

  /** Removing rows from the records, the keys, the display and the Treeview keeps the table
      consistent and the rows synced. */
  lemma RemoveConsistent(keys: seq<Handle>, rows: map<Handle, Rec>, order: seq<Handle>,
                         items: map<Handle, Item>, next: Handle, gone: set<Handle>)
    requires Consistent(keys, rows, order, items, next)
    ensures Consistent(Minus(keys, gone), rows - gone, Minus(order, gone), items - gone, next)
    ensures AllAgree(items, rows) ==> AllAgree(items - gone, rows - gone)
  {
    MinusDistinct(keys, gone);
    MinusDistinct(order, gone);
  }

  /** The loop of load_data: each saved row becomes a Treeview row and a record under the next
      handle of a fresh Treeview. */
  method LoadRows(rec: SaveRecord, zero: string) returns (ks: seq<Handle>, rs: map<Handle, Rec>, its: map<Handle, Item>)
    ensures ks == Iota(|rec.rows|) && rs == LoadedRows(rec) && its == LoadedItems(rec, zero)
  {
    ks, rs, its := [], map[], map[];
    var i := 0;
    while i < |rec.rows|
      invariant 0 <= i <= |rec.rows|
      invariant ks == Iota(i) && rs == LoadedRowsUpTo(rec, i) && its == LoadedItemsUpTo(rec, zero, i)
    {
      LoadedStep(rec, zero, i);
      rs := rs[i := LoadedRec(rec.rows[i])];
      its := its[i := LoadedItem(rec.rows[i], zero)];
      ks := ks + [i];
      i := i + 1;
    }
  }

  /** A loaded record makes a consistent table, synced when the saved cells agree with the
      saved fields. */
  lemma LoadedConsistent(rec: SaveRecord, zero: string)
    ensures var n := |rec.rows|;
      Consistent(Iota(n), LoadedRows(rec), Iota(n), LoadedItems(rec, zero), n)
    ensures RecordSynced(rec) ==> AllAgree(LoadedItems(rec, zero), LoadedRows(rec))
  {
    var n := |rec.rows|;
    forall h ensures h in Iota(n) <==> h in LoadedRows(rec) {
      if h in LoadedRows(rec) {
        assert Iota(n)[h] == h;
      }
    }
  }

  /** Numbering touches no cell that repeats a record field. */
  lemma RenumberSynced(keys: seq<Handle>, rows: map<Handle, Rec>, order: seq<Handle>,
                       m: map<Handle, Item>, next: Handle)
    requires Consistent(keys, rows, order, m, next)
    ensures Consistent(keys, rows, order, Renumber(m, order), next)
    ensures AllAgree(m, rows) ==> AllAgree(Renumber(m, order), rows)
  {
    var r := Renumber(m, order);
    forall h | h in rows && h in r
      ensures Agrees(r[h].values, rows[h]) == Agrees(m[h].values, rows[h])
    {
      UnnumberedAgrees(r[h], m[h], rows[h]);
    }
  }

  lemma UnnumberedAgrees(a: Item, b: Item, r: Rec)
    requires Unnumbered(a) == Unnumbered(b)
    ensures Agrees(a.values, r) == Agrees(b.values, r)
  {
    assert a.values.fio == Unnumbered(a).values.fio && b.values.fio == Unnumbered(b).values.fio;
  }

  lemma ElemsSnoc(s: seq<Handle>, i: nat)
    requires i < |s|
    ensures Elems(s[..i + 1]) == Elems(s[..i]) + {s[i]}
  {
    assert s[..i + 1] == s[..i] + [s[i]];
  }

  lemma DistinctFresh(s: seq<Handle>, i: nat)
    requires Distinct(s) && i < |s|
    ensures s[i] !in s[..i] && s[i] !in Elems(s[..i])
  {
  }

  /** One `tree.move(x, "", "end")` of sort_table's loop: the row leaves its place and becomes
      the last child, after the rows already moved. */
  function Move(order: seq<Handle>, x: Handle): seq<Handle> {
    Minus(order, {x}) + [x]
  }

  /** The children after sort_table has moved the first `i` rows of `sorted` to the end. */
  ghost function Moved(o0: seq<Handle>, sorted: seq<Handle>, i: nat): seq<Handle>
    requires i <= |sorted|
  {
    Minus(o0, Elems(sorted[..i])) + sorted[..i]
  }

  lemma MoveStep(o0: seq<Handle>, sorted: seq<Handle>, i: nat)
    requires Distinct(sorted) && i < |sorted|
    ensures Move(Moved(o0, sorted, i), sorted[i]) == Moved(o0, sorted, i + 1)
  {
    var x := sorted[i];
    var e := Elems(sorted[..i]);
    var a := Minus(o0, e);
    var done := sorted[..i];
    assert sorted[..i + 1] == done + [x];
    DistinctFresh(sorted, i);
    ElemsSnoc(sorted, i);
    MinusAppend(a, done, {x});
    MinusNothing(done, {x});
    var a' := Minus(o0, Elems(sorted[..i + 1]));
    MinusThen(a, o0, e, x, Elems(sorted[..i + 1]));
    assert Minus(a + done, {x}) == a' + done;
    assert Move(a + done, x) == (a' + done) + [x];
    assert (a' + done) + [x] == a' + (done + [x]);
  }

  lemma MovedNone(o0: seq<Handle>, sorted: seq<Handle>)
    ensures Moved(o0, sorted, 0) == o0
  {
    assert Elems(sorted[..0]) == {};
    MinusNothing(o0, {});
  }

  lemma MovedAll(o0: seq<Handle>, sorted: seq<Handle>)
    requires forall h :: h in o0 ==> h in sorted
    ensures Moved(o0, sorted, |sorted|) == sorted
  {
    assert sorted[..|sorted|] == sorted;
    MinusAll(o0, sorted);
  }

  /** Sorting the display order keeps the table consistent. */
  lemma SortKeeps(keys: seq<Handle>, rows: map<Handle, Rec>, order: seq<Handle>,
                  items: map<Handle, Item>, next: Handle)
    requires Consistent(keys, rows, order, items, next)
    ensures Consistent(keys, rows, SortByName(order, items), items, next)
  {
    SortDistinct(order, items);
  }

  /** sort_table's loop: `tree.move(i, "", "end")` for each handle of `sorted` in turn. */
  method MoveEach(o0: seq<Handle>, sorted: seq<Handle>) returns (order: seq<Handle>)
    requires Distinct(sorted) && forall h :: h in o0 ==> h in sorted
    ensures order == sorted
  {
    order := o0;
    MovedNone(o0, sorted);
    var i := 0;
    while i < |sorted|
      invariant 0 <= i <= |sorted|
      invariant order == Moved(o0, sorted, i)
    {
      MoveStep(o0, sorted, i);
      order := Move(order, sorted[i]);
      i := i + 1;
    }
    MovedAll(o0, sorted);
  }

  /** update_numbers' loop: `tree.set(item, "num", idx)` along the display order. */
  method NumberEach(i0: map<Handle, Item>, order: seq<Handle>) returns (items: map<Handle, Item>)
    requires forall h :: h in order ==> h in i0
    ensures items == Renumber(i0, order)
  {
    items := i0;
    var i := 0;
    while i < |order|
      invariant 0 <= i <= |order|
      invariant items == RenumberUpTo(i0, order, i)
    {
      var h := order[i];
      items := items[h := Numbered(items[h], i + 1)];
      i := i + 1;
    }
  }

  /** `s` after the first `i` handles of `sel` have been taken out one by one. */
  ghost function Gone(s: seq<Handle>, sel: seq<Handle>, i: nat): seq<Handle>
    requires i <= |sel|
  {
    if i == 0 then s else Minus(Gone(s, sel, i - 1), {sel[i - 1]})
  }

  /** Taking handles out one by one takes out all of them. */
  lemma {:induction false} GoneElems(s: seq<Handle>, sel: seq<Handle>, i: nat)
    requires i <= |sel|
    ensures Gone(s, sel, i) == Minus(s, Elems(sel[..i]))
  {
    if i == 0 {
      assert Elems(sel[..0]) == {};
      MinusNothing(s, {});
    } else {
      var e, x := Elems(sel[..i - 1]), sel[i - 1];
      GoneElems(s, sel, i - 1);
      ElemsSnoc(sel, i - 1);
      MinusThen(Gone(s, sel, i - 1), s, e, x, Elems(sel[..i]));
    }
  }

  /** `m` after the first `i` handles of `sel` have been deleted one by one. */
  ghost function Dropped<V>(m: map<Handle, V>, sel: seq<Handle>, i: nat): map<Handle, V>
    requires i <= |sel|
  {
    if i == 0 then m else Dropped(m, sel, i - 1) - {sel[i - 1]}
  }

  lemma {:induction false} DroppedElems<V>(m: map<Handle, V>, sel: seq<Handle>, i: nat)
    requires i <= |sel|
    ensures Dropped(m, sel, i) == m - Elems(sel[..i])
  {
    if i == 0 {
      assert Elems(sel[..0]) == {};
    } else {
      DroppedElems(m, sel, i - 1);
      ElemsSnoc(sel, i - 1);
    }
  }

  lemma DroppedAll<V>(m: map<Handle, V>, s: seq<Handle>)
    requires forall h :: h in m ==> h in s
    ensures m - Elems(s) == map[]
  {
    forall h ensures h !in m - Elems(s) {
      if h in m {
        assert h in Elems(s);
      }
    }
    assert (m - Elems(s)).Keys == {};
  }

  /** Clearing keeps the name and offset cells and sets both statuses to Present. */
  lemma ClearedAgree(items: map<Handle, Item>, rows: map<Handle, Rec>)
    ensures AllAgree(items, rows) ==>
      AllAgree(ClearedItems(items), ClearedRows(rows))
  {
  }

    /** The records after clear_data's loop has visited the first `i` keys. */
  function ClearedRowsUpTo(r0: map<Handle, Rec>, ks: seq<Handle>, i: nat): (m: map<Handle, Rec>)
    requires i <= |ks|
    ensures m.Keys == r0.Keys
  {
    if i == 0 then r0
    else
      var m := ClearedRowsUpTo(r0, ks, i - 1);
      if ks[i - 1] in m then m[ks[i - 1] := ClearedRec(m[ks[i - 1]])] else m
  }

  /** The Treeview rows after clear_data's loop has visited the first `i` keys. */
  function ClearedItemsUpTo(i0: map<Handle, Item>, ks: seq<Handle>, i: nat): (m: map<Handle, Item>)
    requires i <= |ks|
    ensures m.Keys == i0.Keys
  {
    if i == 0 then i0
    else
      var m := ClearedItemsUpTo(i0, ks, i - 1);
      if ks[i - 1] in m then m[ks[i - 1] := ClearedItem(m[ks[i - 1]])] else m
  }

  /** After the first `i` keys, exactly the rows under those keys are cleared. */
  lemma {:induction false} ClearedUpTo(r0: map<Handle, Rec>, i0: map<Handle, Item>, ks: seq<Handle>, i: nat)
    requires i <= |ks|
    ensures forall h :: h in r0 ==>
      ClearedRowsUpTo(r0, ks, i)[h] == if h in ks[..i] then ClearedRec(r0[h]) else r0[h]
    ensures forall h :: h in i0 ==>
      ClearedItemsUpTo(i0, ks, i)[h] == if h in ks[..i] then ClearedItem(i0[h]) else i0[h]
  {
    if i > 0 {
      ClearedUpTo(r0, i0, ks, i - 1);
      assert ks[..i] == ks[..i - 1] + [ks[i - 1]];
    }
  }

  /** Once every key is visited, every record and row is cleared. */
  lemma ClearedAll(r0: map<Handle, Rec>, i0: map<Handle, Item>, ks: seq<Handle>)
    requires forall h :: h in r0 || h in i0 ==> h in ks
    ensures ClearedRowsUpTo(r0, ks, |ks|) == ClearedRows(r0)
    ensures ClearedItemsUpTo(i0, ks, |ks|) == ClearedItems(i0)
  {
    ClearedUpTo(r0, i0, ks, |ks|);
    assert ks[..|ks|] == ks;
  }

  lemma {:induction false} MinusAll(o0: seq<Handle>, s: seq<Handle>)
    requires forall h :: h in o0 ==> h in s
    ensures Minus(o0, Elems(s)) == []
    decreases |o0|
  {
    if o0 != [] {
      assert o0[|o0| - 1] in Elems(s);
      MinusAll(o0[..|o0| - 1], s);
    }
  }

  /** The loop of add_row's duplicate check over the records in dict order: one prompt per record
      with the same lower-cased name, `ask(k)` answering the k-th, stopping at the first "no". */
  method AskEach(fio: string, recs: seq<Rec>, ask: nat -> bool) returns (proceed: bool)
    ensures proceed <==> forall k :: 0 <= k < DupCount(fio, recs) ==> ask(k)
  {
    var i := 0;
    var k := 0;
    while i < |recs|
      invariant 0 <= i <= |recs|
      invariant k == DupCount(fio, recs[..i])
      invariant forall j :: 0 <= j < k ==> ask(j)
    {
      assert recs[..i + 1][..i] == recs[..i];
      if Lower(fio) == Lower(recs[i].fio) {
        if !ask(k) {
          DupCountPrefix(fio, recs, i + 1);
          return false;
        }
        k := k + 1;
      }
      i := i + 1;
    }
    assert recs[..|recs|] == recs;
    return true;
  }

  lemma {:induction false} DupCountPrefix(fio: string, recs: seq<Rec>, i: nat)
    requires i <= |recs|
    ensures DupCount(fio, recs[..i]) <= DupCount(fio, recs)
    decreases |recs|
  {
    if i < |recs| {
      assert recs[..|recs| - 1][..i] == recs[..i];
      DupCountPrefix(fio, recs[..|recs| - 1], i);
    } else {
      assert recs[..i] == recs;
    }
  }
}
