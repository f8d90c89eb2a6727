/** Display order: sort_table's stable sort of the Treeview rows by lower-cased "fio", and
    update_numbers' renumbering 1..n. */
module Ordering {
  import opened Base
  import opened Text
  import opened Roster

  /** The sort key of a row: `self.tree.set(i, "fio").lower()`. */
  function Key(m: map<Handle, Item>, h: Handle): string {
    if h in m then Lower(m[h].values.fio) else []
  }

  /** Ascending by key. */
  ghost predicate Sorted(s: seq<Handle>, m: map<Handle, Item>) {
    forall i, j :: 0 <= i < j < |s| ==> LexLe(Key(m, s[i]), Key(m, s[j]))
  }

  /** The rows of `s` whose key is `k`, in their order. */
  function SameKey(s: seq<Handle>, m: map<Handle, Item>, k: string): seq<Handle> {
    if s == [] then []
    else SameKey(s[..|s| - 1], m, k) + (if Key(m, s[|s| - 1]) == k then [s[|s| - 1]] else [])
  }

  /** Inserts `x` after every row whose key is at most its own. */
  function Insert(x: Handle, s: seq<Handle>, m: map<Handle, Item>): seq<Handle> {
    if s == [] || LexLe(Key(m, s[|s| - 1]), Key(m, x)) then s + [x]
    else Insert(x, s[..|s| - 1], m) + [s[|s| - 1]]
  }

  /** `items.sort(key=...)`: Python's list sort, which is stable. */
  function SortByName(s: seq<Handle>, m: map<Handle, Item>): seq<Handle> {
    if s == [] then [] else Insert(s[|s| - 1], SortByName(s[..|s| - 1], m), m)
  }

  lemma {:induction false} InsertPermutation(x: Handle, s: seq<Handle>, m: map<Handle, Item>)
    ensures multiset(Insert(x, s, m)) == multiset(s) + multiset{x}
    decreases |s|
  {
    if !(s == [] || LexLe(Key(m, s[|s| - 1]), Key(m, x))) {
      InitLast(s);
      InsertPermutation(x, s[..|s| - 1], m);
    }
  }

  lemma LexLeReflexive(a: string)
    ensures LexLe(a, a)
  {
  }

  lemma {:induction false} InsertSorted(x: Handle, s: seq<Handle>, m: map<Handle, Item>)
    requires Sorted(s, m)
    ensures Sorted(Insert(x, s, m), m)
    decreases |s|
  {
    var kx := Key(m, x);
    if s == [] {
    } else if LexLe(Key(m, s[|s| - 1]), kx) {
      var r := s + [x];
      forall i, j | 0 <= i < j < |r| ensures LexLe(Key(m, r[i]), Key(m, r[j])) {
        if j == |s| && i < |s| - 1 {
          LexLeTransitive(Key(m, s[i]), Key(m, s[|s| - 1]), kx);
        } else if j == |s| {
          LexLeReflexive(kx);
        }
      }
    } else {
      var s' := s[..|s| - 1];
      var last := s[|s| - 1];
      var t := Insert(x, s', m);
      InsertSorted(x, s', m);
      InsertPermutation(x, s', m);
      LexLeTotal(Key(m, last), kx);
      var r := t + [last];
      assert r == Insert(x, s, m);
      forall i, j | 0 <= i < j < |r| ensures LexLe(Key(m, r[i]), Key(m, r[j])) {
        if j == |t| {
          var e := t[i];
          assert e in multiset(t);
          if e == x {
          } else {
            assert e in multiset(s');
            var k :| 0 <= k < |s'| && s'[k] == e;
            assert s[k] == e;
          }
        }
      }
    }
  }

  /** Appending one row extends the rows of key `k` by it exactly when its key is `k`. */
  lemma SameKeySnoc(s: seq<Handle>, y: Handle, m: map<Handle, Item>, k: string)
    ensures SameKey(s + [y], m, k) == SameKey(s, m, k) + (if Key(m, y) == k then [y] else [])
  {
    assert (s + [y])[..|s + [y]| - 1] == s;
  }

  lemma {:induction false} InsertSameKey(x: Handle, s: seq<Handle>, m: map<Handle, Item>, k: string)
    ensures SameKey(Insert(x, s, m), m, k) == SameKey(s, m, k) + (if Key(m, x) == k then [x] else [])
    decreases |s|
  {
    if s == [] || LexLe(Key(m, s[|s| - 1]), Key(m, x)) {
      SameKeySnoc(s, x, m, k);
    } else {
      var s' := s[..|s| - 1];
      var last := s[|s| - 1];
      var t := Insert(x, s', m);
      var xs := if Key(m, x) == k then [x] else [];
      var ls := if Key(m, last) == k then [last] else [];
      InitLast(s);
      InsertSameKey(x, s', m, k);
      SameKeySnoc(t, last, m, k);
      SameKeySnoc(s', last, m, k);
      if xs != [] && ls != [] {
        LexLeReflexive(Key(m, x));
        assert false;
      }
      SwapTail(SameKey(s', m, k), xs, ls);
    }
  }

  /** Two sequences of which one is empty can be appended in either order. */
  lemma SwapTail<T>(a: seq<T>, xs: seq<T>, ls: seq<T>)
    requires xs == [] || ls == []
    ensures (a + xs) + ls == (a + ls) + xs
  {
  }

  /** sort_table leaves every row in the table. */
  lemma {:induction false} SortPermutation(s: seq<Handle>, m: map<Handle, Item>)
    ensures multiset(SortByName(s, m)) == multiset(s)
    ensures |SortByName(s, m)| == |s|
    decreases |s|
  {
    if s != [] {
      var s', x := s[..|s| - 1], s[|s| - 1];
      InitLast(s);
      assert multiset(s) == multiset(s') + multiset{x};
      SortPermutation(s', m);
      InsertPermutation(x, SortByName(s', m), m);
    }
    assert |multiset(SortByName(s, m))| == |SortByName(s, m)|;
  }

  /** After sort_table the rows are in ascending order of lower-cased name. */
  lemma {:induction false} SortSorted(s: seq<Handle>, m: map<Handle, Item>)
    ensures Sorted(SortByName(s, m), m)
    decreases |s|
  {
    if s != [] {
      SortSorted(s[..|s| - 1], m);
      InsertSorted(s[|s| - 1], SortByName(s[..|s| - 1], m), m);
    }
  }

  /** The sort is stable: rows whose lower-cased names are equal keep their relative order. */
  lemma {:induction false} SortStable(s: seq<Handle>, m: map<Handle, Item>, k: string)
    ensures SameKey(SortByName(s, m), m, k) == SameKey(s, m, k)
    decreases |s|
  {
    if s != [] {
      SortStable(s[..|s| - 1], m, k);
      InsertSameKey(s[|s| - 1], SortByName(s[..|s| - 1], m), m, k);
    }
  }

  /** Sorting a distinct sequence yields a distinct sequence with the same elements. */
  lemma SortDistinct(s: seq<Handle>, m: map<Handle, Item>)
    requires Distinct(s)
    ensures Distinct(SortByName(s, m))
    ensures forall h :: h in SortByName(s, m) <==> h in s
  {
    SortPermutation(s, m);
    DistinctPermutation(s, SortByName(s, m));
    forall h ensures h in SortByName(s, m) <==> h in s {
      assert h in SortByName(s, m) <==> h in multiset(SortByName(s, m));
      assert h in s <==> h in multiset(s);
    }
  }

  /** The row with its "num" cell set to `n`. */
  function Numbered(it: Item, n: nat): Item {
    it.(values := it.values.(num := Some(n)))
  }

  /** Everything of a row except its "num" cell. */
  function Unnumbered(it: Item): Item {
    it.(values := it.values.(num := None))
  }

  /** update_numbers: `for idx, item in enumerate(order, start=1): tree.set(item, "num", idx)`. */
  function Renumber(m: map<Handle, Item>, order: seq<Handle>): (r: map<Handle, Item>)
    ensures r.Keys == m.Keys
    ensures forall h :: h in m && h !in order ==> r[h] == m[h]
    ensures forall h :: h in m ==> Unnumbered(r[h]) == Unnumbered(m[h])
  {
    RenumberKeeps(m, order, |order|);
    RenumberUpTo(m, order, |order|)
  }

  /** The rows after the first `i` turns of update_numbers' loop. */
  function RenumberUpTo(m: map<Handle, Item>, order: seq<Handle>, i: nat): (r: map<Handle, Item>)
    requires i <= |order|
    ensures r.Keys == m.Keys
  {
    if i == 0 then m
    else
      var h := order[i - 1];
      var r := RenumberUpTo(m, order, i - 1);
      if h in r then r[h := Numbered(r[h], i)] else r
  }

  /** The first `i` turns touch only the "num" cells of the first `i` rows in display order. */
  lemma {:induction false} RenumberKeeps(m: map<Handle, Item>, order: seq<Handle>, i: nat)
    requires i <= |order|
    ensures forall h :: h in m && h !in order[..i] ==> RenumberUpTo(m, order, i)[h] == m[h]
    ensures forall h :: h in m ==> Unnumbered(RenumberUpTo(m, order, i)[h]) == Unnumbered(m[h])
  {
    if i > 0 {
      RenumberKeeps(m, order, i - 1);
      assert order[..i] == order[..i - 1] + [order[i - 1]];
    }
  }

  /** update_numbers gives the row at display position j the number j + 1 and changes nothing
      else in it. */
  lemma RenumberNumbers(m: map<Handle, Item>, order: seq<Handle>)
    requires Distinct(order)
    ensures forall j :: 0 <= j < |order| && order[j] in m ==>
      Renumber(m, order)[order[j]] == Numbered(m[order[j]], j + 1)
  {
    RenumberUpToNumbers(m, order, |order|);
  }

  lemma {:induction false} RenumberUpToNumbers(m: map<Handle, Item>, order: seq<Handle>, i: nat)
    requires Distinct(order) && i <= |order|
    ensures forall j :: 0 <= j < i && order[j] in m ==>
      RenumberUpTo(m, order, i)[order[j]] == Numbered(m[order[j]], j + 1)
  {
    if i > 0 {
      var h := order[i - 1];
      var r := RenumberUpTo(m, order, i - 1);
      RenumberUpToNumbers(m, order, i - 1);
      forall j | 0 <= j < i && order[j] in m
        ensures RenumberUpTo(m, order, i)[order[j]] == Numbered(m[order[j]], j + 1)
      {
        if j < i - 1 {
          assert order[j] != h;
          assert r[order[j]] == Numbered(m[order[j]], j + 1);
        } else {
          assert h !in order[..i - 1];
          RenumberKeeps(m, order, i - 1);
          assert r[h] == m[h];
        }
      }
    }
  }

  /** The display after sort_table and update_numbers: ascending by lower-cased name, and the
      row at display position j numbered j + 1. */
  ghost predicate Arranged(order: seq<Handle>, m: map<Handle, Item>) {
    Sorted(order, m) &&
    forall j :: 0 <= j < |order| && order[j] in m ==> m[order[j]].values.num == Some(j + 1)
  }

  /** Sorting a distinct display order and then renumbering arranges it. */
  lemma Reordered(s: seq<Handle>, m: map<Handle, Item>)
    requires Distinct(s)
    ensures Arranged(SortByName(s, m), Renumber(m, SortByName(s, m)))
  {
    var o := SortByName(s, m);
    var r := Renumber(m, o);
    SortSorted(s, m);
    SortDistinct(s, m);
    RenumberNumbers(m, o);
    forall h | h in m
      ensures Key(r, h) == Key(m, h)
    {
      assert Unnumbered(r[h]).values.fio == Unnumbered(m[h]).values.fio;
    }
    assert forall h :: Key(r, h) == Key(m, h);
  }
}
