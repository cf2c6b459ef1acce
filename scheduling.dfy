/** The re-dating of the service's schedule reply: its day buckets, in reply
    order, are re-keyed as the start date plus 0, 1, 2, ... days. */
module Scheduling {
  import opened Wrappers
  import opened Calendar
  import opened IsoDate
  import Lex

  /** One `{"time": ..., "task": ..., "duration": ...}` block; none of its
      fields is computed on. */
  datatype Block = Block(time: string, task: string, duration: real)

  /** One entry of a schedule mapping, in mapping order. */
  datatype DayBucket = DayBucket(key: string, blocks: seq<Block>)

  /** What `self.schedule` can hold: a JSON object as an ordered list of
      buckets, or whatever other JSON value the reply parsed to. */
  datatype ScheduleValue = Days(buckets: seq<DayBucket>) | NonObject(json: string)

  /** What the call and `json.loads` produce. */
  datatype ScheduleReply =
    | ScheduleServiceError
    | ScheduleInvalidJson
    | ScheduleParsed(value: ScheduleValue)

  /** The re-dated schedule, or `None` for the `OverflowError` of a date past
      9999-12-31. */
  function Redated(bs: seq<DayBucket>, start: Date): (r: Option<seq<DayBucket>>)
    requires InRange(start)
    ensures r.Some? ==> |r.value| == |bs|
    ensures r.Some? ==> forall i :: 0 <= i < |bs| ==> r.value[i].blocks == bs[i].blocks
  {
    if forall i :: 0 <= i < |bs| ==> AddDays(start, i).Some? then
      Some(seq(|bs|, i requires 0 <= i < |bs| =>
        DayBucket(FormatDate(AddDays(start, i).value), bs[i].blocks)))
    else None
  }

  /** The `enumerate` loop building `final_schedule`. */
  method RedateBuckets(bs: seq<DayBucket>, start: Date) returns (r: Option<seq<DayBucket>>)
    requires InRange(start)
    ensures r == Redated(bs, start)
  {
    var done: seq<DayBucket> := [];
    var i := 0;
    assert |Redated(bs[..0], start).value| == 0;
    while i < |bs|
      invariant 0 <= i <= |bs|
      invariant Redated(bs[..i], start) == Some(done)
    {
      var current := AddDays(start, i);
      if current.None? {
        RedatedStops(bs, start, i);
        return None;
      }
      RedatedExtends(bs, start, i);
      done := done + [DayBucket(FormatDate(current.value), bs[i].blocks)];
      i := i + 1;
    }
    assert bs[..i] == bs;
    r := Some(done);
  }

  /** One more bucket whose date exists extends the re-dated prefix by it. */
  lemma RedatedExtends(bs: seq<DayBucket>, start: Date, i: nat)
    requires InRange(start) && i < |bs| && Redated(bs[..i], start).Some?
    requires AddDays(start, i).Some?
    ensures Redated(bs[..i + 1], start)
            == Some(Redated(bs[..i], start).value
                    + [DayBucket(FormatDate(AddDays(start, i).value), bs[i].blocks)])
  {
    var p, q := bs[..i], bs[..i + 1];
    assert forall k :: 0 <= k < |q| ==> AddDays(start, k).Some? by {
      forall k | 0 <= k < |q| ensures AddDays(start, k).Some? {
        if k < i {
          assert k < |p|;
        }
      }
    }
    var a, b := Redated(p, start).value, Redated(q, start).value;
    forall k | 0 <= k < i ensures b[k] == a[k] {
      assert q[k] == p[k];
    }
    SnocEqual(b, a);
  }

  lemma SnocEqual(b: seq<DayBucket>, a: seq<DayBucket>)
    requires |b| == |a| + 1
    requires forall k :: 0 <= k < |a| ==> b[k] == a[k]
    ensures b == a + [b[|a|]]
  {
  }

  /** A date past 9999-12-31 for some bucket makes the whole re-dating fail. */
  lemma RedatedStops(bs: seq<DayBucket>, start: Date, i: nat)
    requires InRange(start) && i < |bs| && AddDays(start, i).None?
    ensures Redated(bs, start).None?
  {
  }

  /** The i-th key is the start date plus i days, in YYYY-MM-DD form; the
      reply's own labels are gone and each bucket's blocks are carried over in
      order. */
  lemma RedatedShape(bs: seq<DayBucket>, start: Date, i: nat)
    requires InRange(start) && Redated(bs, start).Some? && i < |bs|
    ensures |Redated(bs, start).value| == |bs|
    ensures Redated(bs, start).value[i].blocks == bs[i].blocks
    ensures ParseDate(Redated(bs, start).value[i].key).Some?
    ensures Ordinal(ParseDate(Redated(bs, start).value[i].key).value) == Ordinal(start) + i
  {
    var d := AddDays(start, i).value;
    AddDaysOrdinal(start, i);
    ParseFormat(d);
  }

  /** Keys are strictly increasing as strings, hence distinct, so no entry of
      `final_schedule` overwrites another: it has one entry per bucket. */
  lemma RedatedIncreasing(bs: seq<DayBucket>, start: Date, i: nat, j: nat)
    requires InRange(start) && Redated(bs, start).Some? && i < j < |bs|
    ensures Lex.Less(Redated(bs, start).value[i].key, Redated(bs, start).value[j].key)
    ensures Redated(bs, start).value[i].key != Redated(bs, start).value[j].key
  {
    var d, e := AddDays(start, i).value, AddDays(start, j).value;
    StepIncreasing(start, i, j);
    FormatDateOrder(d, e);
    Lex.LessIrreflexive(FormatDate(d));
  }

  /** Re-dating fails exactly when the last bucket's date would pass 9999-12-31. */
  lemma RedatedDefinedIff(bs: seq<DayBucket>, start: Date)
    requires InRange(start)
    ensures Redated(bs, start).Some? <==> Ordinal(start) + |bs| - 1 <= MaxOrdinal
  {
    if Ordinal(start) + |bs| - 1 <= MaxOrdinal {
      forall i | 0 <= i < |bs| ensures AddDays(start, i).Some? {
        AddDaysOverflow(start, i);
      }
    } else {
      AddDaysOverflow(start, |bs| - 1);
    }
  }

  /** The reply's literal labels do not matter, only the order and the blocks. */
  lemma RedatedIgnoresKeys(bs: seq<DayBucket>, cs: seq<DayBucket>, start: Date)
    requires InRange(start) && |bs| == |cs|
    requires forall i :: 0 <= i < |bs| ==> bs[i].blocks == cs[i].blocks
    ensures Redated(bs, start) == Redated(cs, start)
  {
    if forall i :: 0 <= i < |bs| ==> AddDays(start, i).Some? {
      assert Redated(bs, start).value == Redated(cs, start).value;
    }
  }

  /** From 2025-01-01, two buckets (whatever their labels) become 2025-01-01
      and 2025-01-02, in that order, their blocks unchanged. */
  lemma RedatedExample(first: DayBucket, second: DayBucket)
    ensures Redated([first, second], Date(2025, 1, 1))
            == Some([DayBucket("2025-01-01", first.blocks), DayBucket("2025-01-02", second.blocks)])
  {
    var start := Date(2025, 1, 1);
    assert AddDays(start, 0) == Some(start);
    assert Step(start, 1) == Date(2025, 1, 2);
    assert AddDays(start, 1) == Some(Date(2025, 1, 2));
    assert FormatDate(start) == "2025-01-01";
    assert FormatDate(Date(2025, 1, 2)) == "2025-01-02";
    forall i | 0 <= i < 2 ensures AddDays(start, i).Some? {
      assert i == 0 || i == 1;
    }
    var r := Redated([first, second], start).value;
    assert r[0] == DayBucket("2025-01-01", first.blocks);
    assert r[1] == DayBucket("2025-01-02", second.blocks);
    assert |r| == 2 && r == [r[0], r[1]];
  }
}
