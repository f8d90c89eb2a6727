/** The record save_data writes to data.json and load_data reads back:
    {"start": ..., "rows": [{"values", "fact", "arrival", "status"}, ...]}. */
module Persist {
  import opened Base
  import opened Roster

  datatype SavedRow = SavedRow(values: Values, fact: Option<Time>, arrival: Offset, status: Status)

  datatype SaveRecord = SaveRecord(start: Option<Time>, rows: seq<SavedRow>)

  /** The saved row of one person: the Treeview values plus the record's fact, arrival and status. */
  function SavedRowOf(it: Item, r: Rec): SavedRow {
    SavedRow(it.values, r.fact, r.arrival, r.status)
  }

  /** `for i, r in self.rows.items()`: one saved row per record, in dict order. */
  function SavedRows(keys: seq<Handle>, rows: map<Handle, Rec>, items: map<Handle, Item>): (s: seq<SavedRow>)
    ensures (forall h :: h in keys ==> h in rows && h in items) ==>
      |s| == |keys| &&
      forall i :: 0 <= i < |keys| ==> s[i] == SavedRowOf(items[keys[i]], rows[keys[i]])
  {
    if keys == [] then []
    else
      var h := keys[|keys| - 1];
      SavedRows(keys[..|keys| - 1], rows, items) +
        (if h in rows && h in items then [SavedRowOf(items[h], rows[h])] else [])
  }

  /** save_data. */
  function SaveOf(start: Option<Time>, keys: seq<Handle>, rows: map<Handle, Rec>,
                  items: map<Handle, Item>): SaveRecord {
    SaveRecord(start, SavedRows(keys, rows, items))
  }

  /** load_data's entry of `self.rows` for a saved row: "fio" is taken from `values[2]`. */
  function LoadedRec(row: SavedRow): Rec {
    Rec(row.values.fio, row.arrival, row.fact, row.status)
  }

  /** load_data's Treeview row: the saved values, coloured by apply_color. */
  function LoadedItem(row: SavedRow, zero: string): Item {
    Item(row.values, Classify(row.status, row.values.late, row.fact.Some?, zero))
  }

  /** The handles a fresh Treeview gives to `n` inserted rows. */
  function Iota(n: nat): (s: seq<Handle>)
    ensures |s| == n && forall i :: 0 <= i < n ==> s[i] == i
  {
    if n == 0 then [] else Iota(n - 1) + [n - 1]
  }

  /** load_data's `self.rows`: the k-th saved row under the k-th handle. */
  function LoadedRows(rec: SaveRecord): map<Handle, Rec> {
    LoadedRowsUpTo(rec, |rec.rows|)
  }

  /** load_data's Treeview rows: the k-th saved row under the k-th handle. */
  function LoadedItems(rec: SaveRecord, zero: string): map<Handle, Item> {
    LoadedItemsUpTo(rec, zero, |rec.rows|)
  }

  /** The records of the first `n` saved rows. */
  function LoadedRowsUpTo(rec: SaveRecord, n: nat): (m: map<Handle, Rec>)
    requires n <= |rec.rows|
    ensures forall i :: i in m <==> 0 <= i < n
  {
    map i | 0 <= i < n :: LoadedRec(rec.rows[i])
  }

  /** The Treeview rows of the first `n` saved rows. */
  function LoadedItemsUpTo(rec: SaveRecord, zero: string, n: nat): (m: map<Handle, Item>)
    requires n <= |rec.rows|
    ensures forall i :: i in m <==> 0 <= i < n
  {
    map i | 0 <= i < n :: LoadedItem(rec.rows[i], zero)
  }

  /** Loading one more saved row adds its record and its Treeview row under the next handle. */
  lemma LoadedStep(rec: SaveRecord, zero: string, n: nat)
    requires n < |rec.rows|
    ensures LoadedRowsUpTo(rec, n + 1) == LoadedRowsUpTo(rec, n)[n := LoadedRec(rec.rows[n])]
    ensures LoadedItemsUpTo(rec, zero, n + 1) == LoadedItemsUpTo(rec, zero, n)[n := LoadedItem(rec.rows[n], zero)]
  {
  }

  /** A record whose saved cells agree with its saved arrival and status, as save_data writes them. */
  predicate RecordSynced(rec: SaveRecord) {
    forall i :: 0 <= i < |rec.rows| ==>
      rec.rows[i].values.arr == rec.rows[i].arrival && rec.rows[i].values.status == rec.rows[i].status
  }

  /** Loading a record and saving it again writes the same record. */
  lemma SaveAfterLoad(rec: SaveRecord, zero: string)
    ensures SaveOf(rec.start, Iota(|rec.rows|), LoadedRows(rec), LoadedItems(rec, zero)) == rec
  {
    var n := |rec.rows|;
    var s := SavedRows(Iota(n), LoadedRows(rec), LoadedItems(rec, zero));
    assert |s| == n;
    forall i | 0 <= i < n ensures s[i] == rec.rows[i] {
    }
  }

  /** Saving and loading again restores the start time and, row by row in dict order, the
      displayed values and the record (its fio read back from the values), provided the
      displayed name is the record's name. */
  lemma LoadAfterSave(start: Option<Time>, keys: seq<Handle>, rows: map<Handle, Rec>,
                      items: map<Handle, Item>, zero: string)
    requires forall h :: h in keys ==> h in rows && h in items && items[h].values.fio == rows[h].fio
    ensures SaveOf(start, keys, rows, items).start == start
    ensures |SaveOf(start, keys, rows, items).rows| == |keys|
    ensures forall i :: 0 <= i < |keys| ==>
      LoadedRows(SaveOf(start, keys, rows, items))[i] == rows[keys[i]] &&
      LoadedItems(SaveOf(start, keys, rows, items), zero)[i].values == items[keys[i]].values
  {
    var rec := SaveOf(start, keys, rows, items);
    forall i | 0 <= i < |keys|
      ensures LoadedRows(rec)[i] == rows[keys[i]] && LoadedItems(rec, zero)[i].values == items[keys[i]].values
    {
      assert rec.rows[i] == SavedRowOf(items[keys[i]], rows[keys[i]]);
    }
  }
}
