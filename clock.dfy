/** Clock texts: the time of day `strftime("%H:%M")` and `strftime("%H:%M:%S")` print, and a
    reader that splits a colon-separated text of decimal fields back into numbers. */
module Clock {
  import opened Base
  import opened Digits
  import opened Roster

  /** The fields of a text between its colons. */
  function Split(s: string): (fields: seq<string>)
    ensures |fields| >= 1
  {
    if s == [] then [[]]
    else
      var f := Split(s[..|s| - 1]);
      var c := s[|s| - 1];
      if c == ':' then f + [[]] else f[..|f| - 1] + [f[|f| - 1] + [c]]
  }

  /** The fields written one after another, a colon between each two. */
  function Join(fields: seq<string>): string {
    if fields == [] then []
    else if |fields| == 1 then fields[0]
    else Join(fields[..|fields| - 1]) + ":" + fields[|fields| - 1]
  }

  predicate AllFieldsDigits(fields: seq<string>) {
    forall i :: 0 <= i < |fields| ==> AllDigits(fields[i])
  }

  /** The values of the fields, when every one of them is a string of digits. */
  function ParseFields(fields: seq<string>): (r: Option<seq<nat>>)
    ensures r.Some? <==> AllFieldsDigits(fields)
    ensures r.Some? ==> |r.value| == |fields| && forall i :: 0 <= i < |fields| ==> r.value[i] == ParseDec(fields[i])
  {
    if fields == [] then Some([])
    else
      var last := fields[|fields| - 1];
      var r := ParseFields(fields[..|fields| - 1]);
      if r.Some? && AllDigits(last) then Some(r.value + [ParseDec(last)])
      else
        assert !AllDigits(fields[|fields| - 1]) || !AllFieldsDigits(fields[..|fields| - 1]);
        None
  }

  /** The numbers a clock text shows. */
  function ReadClock(s: string): Option<seq<nat>> {
    ParseFields(Split(s))
  }

  /** Digits written after a text extend its last field. */
  lemma {:induction false} SplitDigits(a: string, b: string)
    requires AllDigits(b)
    ensures Split(a + b) == Split(a)[..|Split(a)| - 1] + [Split(a)[|Split(a)| - 1] + b]
    decreases |b|
  {
    if b == [] {
      assert a + b == a;
      assert Split(a)[|Split(a)| - 1] + b == Split(a)[|Split(a)| - 1];
    } else {
      var b' := b[..|b| - 1];
      assert (a + b)[..|a + b| - 1] == a + b';
      assert IsDigit(b[|b| - 1]);
      SplitDigits(a, b');
      var f := Split(a);
      var g := Split(a + b');
      assert |g| == |f| && g[..|g| - 1] == f[..|f| - 1] && g[|g| - 1] == f[|f| - 1] + b';
      assert Split(a + b) == g[..|g| - 1] + [g[|g| - 1] + [b[|b| - 1]]];
      assert f[|f| - 1] + b' + [b[|b| - 1]] == f[|f| - 1] + b;
    }
  }

  /** Splitting joined fields of digits gives the fields back. */
  lemma {:induction false} SplitJoin(fields: seq<string>)
    requires fields != [] && AllFieldsDigits(fields)
    ensures Split(Join(fields)) == fields
  {
    var last := fields[|fields| - 1];
    if |fields| == 1 {
      SplitField(last);
      assert fields == [last];
    } else {
      var init := fields[..|fields| - 1];
      assert AllFieldsDigits(init) by {
        forall i | 0 <= i < |init| ensures AllDigits(init[i]) {
          assert init[i] == fields[i];
        }
      }
      SplitJoin(init);
      SplitJoinStep(init, last);
      InitLast(fields);
    }
  }

  /** A single field of digits splits into itself. */
  lemma SplitField(last: string)
    requires AllDigits(last)
    ensures Split(last) == [last]
  {
    SplitDigits([], last);
    assert [] + last == last;
  }

  lemma SplitJoinStep(init: seq<string>, last: string)
    requires init != [] && Split(Join(init)) == init && AllDigits(last)
    ensures Split(Join(init + [last])) == init + [last]
  {
    var j := Join(init) + ":";
    assert j[..|j| - 1] == Join(init);
    assert Split(j) == init + [[]];
    SplitDigits(j, last);
    assert (init + [[]])[..|init|] == init;
    assert [] + last == last;
    assert (init + [last])[..|init|] == init;
    assert Join(init + [last]) == j + last;
  }

  lemma JoinThree(a: string, b: string, c: string)
    ensures Join([a, b, c]) == a + ":" + b + ":" + c
  {
    assert [a, b][..1] == [a];
    assert Join([a, b]) == a + ":" + b;
    assert [a, b, c][..2] == [a, b];
  }

  /** Reading joined fields of digits gives their values. */
  lemma ReadJoin(fields: seq<string>)
    requires fields != [] && AllFieldsDigits(fields)
    ensures ReadClock(Join(fields)).Some?
    ensures |ReadClock(Join(fields)).value| == |fields|
    ensures forall i :: 0 <= i < |fields| ==> ReadClock(Join(fields)).value[i] == ParseDec(fields[i])
  {
    SplitJoin(fields);
  }

  /** Two zero-padded numbers read back as those numbers. */
  lemma ReadPair(a: nat, b: nat, w: nat)
    ensures ReadClock(Join([Padded(a, w), Padded(b, w)])) == Some([a, b])
  {
    var fields := [Padded(a, w), Padded(b, w)];
    ReadJoin(fields);
    ParsePadded(a, w);
    ParsePadded(b, w);
    var r := ReadClock(Join(fields)).value;
    assert r == [a, b];
  }

  /** Three zero-padded numbers read back as those numbers. */
  lemma ReadTriple(a: nat, wa: nat, b: nat, c: nat, w: nat)
    ensures ReadClock(Join([Padded(a, wa), Padded(b, w), Padded(c, w)])) == Some([a, b, c])
  {
    var fields := [Padded(a, wa), Padded(b, w), Padded(c, w)];
    ReadJoin(fields);
    ParsePadded(a, wa);
    ParsePadded(b, w);
    ParsePadded(c, w);
    var r := ReadClock(Join(fields)).value;
    assert r == [a, b, c];
  }

  function HourOfDay(t: Time): nat {
    t / HourUs % 24
  }

  function MinuteOfHour(t: Time): nat {
    t / MinuteUs % 60
  }

  function SecondOfMinute(t: Time): nat {
    t / SecondUs % 60
  }

  /** `t.strftime("%H:%M")`: reads back as the hour of the day and the minute of the hour. */
  function HourMinute(t: Time): (s: string)
    ensures ReadClock(s) == Some([HourOfDay(t), MinuteOfHour(t)])
    ensures |s| == 5
  {
    ReadPair(HourOfDay(t), MinuteOfHour(t), 2);
    PaddedWidth(HourOfDay(t), 2);
    PaddedWidth(MinuteOfHour(t), 2);
    Join([Padded(HourOfDay(t), 2), Padded(MinuteOfHour(t), 2)])
  }

  /** `t.strftime("%H:%M:%S")`: reads back as the hour, minute and second. */
  function HourMinuteSecond(t: Time): (s: string)
    ensures ReadClock(s) == Some([HourOfDay(t), MinuteOfHour(t), SecondOfMinute(t)])
    ensures |s| == 8
  {
    ReadTriple(HourOfDay(t), 2, MinuteOfHour(t), SecondOfMinute(t), 2);
    PaddedWidth(HourOfDay(t), 2);
    PaddedWidth(MinuteOfHour(t), 2);
    PaddedWidth(SecondOfMinute(t), 2);
    var fields := [Padded(HourOfDay(t), 2), Padded(MinuteOfHour(t), 2), Padded(SecondOfMinute(t), 2)];
    assert fields[..2] == [fields[0], fields[1]] && [fields[0], fields[1]][..1] == [fields[0]];
    assert Join(fields[..2]) == fields[0] + ":" + fields[1];
    assert Join(fields) == fields[0] + ":" + fields[1] + ":" + fields[2];
    Join(fields)
  }
}
