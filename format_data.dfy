/**
 * The client-side bucketing utility: folds hourly activity records into exactly
 * 24 buckets for hours 0..23, skipping error-marked records and summing records
 * that share an hour; and the fixed-width rendering of an IP address.
 */
module FormatData {

  /** One record of the hourly activity feed: `{hour, SNI, Packet, err}`. */
  datatype ActivityRecord = ActivityRecord(hour: int, sni: int, packet: int, err: int)

  /** One output slot: `{hour, SNI, Packet}`. */
  datatype Bucket = Bucket(hour: int, sni: int, packet: int)

  /** An SNI total and a packet total, accumulated together. */
  datatype Counts = Counts(sni: int, packet: int)

  function Plus(a: Counts, b: Counts): Counts {
    Counts(a.sni + b.sni, a.packet + b.packet)
  }

  const NoCounts := Counts(0, 0)
  const HoursPerDay := 24
  const IpWidth := 15

  /** The utility skips a record exactly when its error flag is 1. */
  predicate IsError(r: ActivityRecord) {
    r.err == 1
  }

  /** What record `r` adds to the totals of hour `h`. */
  function Contribution(r: ActivityRecord, h: int): Counts {
    if IsError(r) || r.hour != h then NoCounts else Counts(r.sni, r.packet)
  }

  /**
   * Reference definition of a bucket's content: the sums of SNI and of Packet
   * over the records of `data` that are not error-marked and have hour `h`.
   */
  function HourTotal(data: seq<ActivityRecord>, h: int): Counts
    decreases |data|
  {
    if data == [] then NoCounts
    else Plus(HourTotal(data[..|data| - 1], h), Contribution(data[|data| - 1], h))
  }

  /** The 24 buckets the utility promises for `data`. */
  function Grouped(data: seq<ActivityRecord>): (buckets: seq<Bucket>)
    ensures |buckets| == HoursPerDay
    ensures forall i :: 0 <= i < HoursPerDay ==> buckets[i].hour == i
  {
    seq(HoursPerDay, i => Bucket(i, HourTotal(data, i).sni, HourTotal(data, i).packet))
  }

  /** `acc` holds, for every hour, the totals of the records of `seen`; a missing hour has none. */
  ghost predicate Accumulated(acc: map<int, Counts>, seen: seq<ActivityRecord>) {
    && (forall h :: h in acc ==> acc[h] == HourTotal(seen, h))
    && (forall h :: h !in acc ==> HourTotal(seen, h) == NoCounts)
  }

  /** One step of the `reduce`: the dictionary after record `k` accounts for `data[..k + 1]`. */
  lemma AccumulateStep(data: seq<ActivityRecord>, k: int, acc: map<int, Counts>, acc': map<int, Counts>)
    requires 0 <= k < |data|
    requires Accumulated(acc, data[..k])
    requires IsError(data[k]) ==> acc' == acc
    requires !IsError(data[k]) ==>
      var prev := if data[k].hour in acc then acc[data[k].hour] else NoCounts;
      acc' == acc[data[k].hour := Plus(prev, Counts(data[k].sni, data[k].packet))]
    ensures Accumulated(acc', data[..k + 1])
  {
    forall h ensures h in acc' ==> acc'[h] == HourTotal(data[..k + 1], h)
      ensures h !in acc' ==> HourTotal(data[..k + 1], h) == NoCounts
    {
      HourTotalPrefix(data, k, h);
    }
  }

  /**
   * The `reduce` step of groupDataByHour: a dictionary from hour to running
   * totals, updated record by record; error-marked records are passed over.
   */
  method AccumulateByHour(data: seq<ActivityRecord>) returns (acc: map<int, Counts>)
    ensures forall h :: h in acc ==> acc[h] == HourTotal(data, h)
    ensures forall h :: h !in acc ==> HourTotal(data, h) == NoCounts
  {
    acc := map[];
    var k := 0;
    while k < |data|
      invariant 0 <= k <= |data|
      invariant Accumulated(acc, data[..k])
    {
      var curr := data[k];
      ghost var before := acc;
      if curr.err != 1 {
        if curr.hour !in acc {
          acc := acc[curr.hour := NoCounts];
        }
        acc := acc[curr.hour := Plus(acc[curr.hour], Counts(curr.sni, curr.packet))];
      }
      AccumulateStep(data, k, before, acc);
      k := k + 1;
    }
    assert data[..k] == data;
  }

  /**
   * groupDataByHour: an empty input gives 24 zero buckets directly; otherwise
   * the accumulated dictionary is read out for hours 0..23, a missing hour
   * reading as zero.
   */
  method GroupDataByHour(data: seq<ActivityRecord>) returns (buckets: seq<Bucket>)
    ensures buckets == Grouped(data)
  {
    if |data| == 0 {
      buckets := seq(HoursPerDay, i => Bucket(i, 0, 0));
      return;
    }
    var grouped := AccumulateByHour(data);
    buckets := seq(HoursPerDay, i =>
      Bucket(i, if i in grouped then grouped[i].sni else 0, if i in grouped then grouped[i].packet else 0));
  }

  /** Extending a prefix by one record adds that record's contribution. */
  lemma HourTotalPrefix(data: seq<ActivityRecord>, k: int, h: int)
    requires 0 <= k < |data|
    ensures HourTotal(data[..k + 1], h) == Plus(HourTotal(data[..k], h), Contribution(data[k], h))
    ensures Contribution(data[k], h) == NoCounts ==> HourTotal(data[..k + 1], h) == HourTotal(data[..k], h)
  {
    assert data[..k + 1] == data[..k] + [data[k]];
    HourTotalSnoc(data[..k], data[k], h);
  }

  /** An empty input yields 24 buckets with zero counts. */
  lemma EmptyInputGivesZeroBuckets()
    ensures forall i :: 0 <= i < HoursPerDay ==> Grouped([])[i] == Bucket(i, 0, 0)
  {
  }

  /** Unfolding step: appending one record adds its contribution. */
  lemma HourTotalSnoc(init: seq<ActivityRecord>, x: ActivityRecord, h: int)
    ensures HourTotal(init + [x], h) == Plus(HourTotal(init, h), Contribution(x, h))
  {
    var s := init + [x];
    assert s[..|s| - 1] == init;
    assert s[|s| - 1] == x;
  }

  /** Totals over a concatenation are the sums of the totals over the parts. */
  lemma {:induction false} HourTotalAppend(a: seq<ActivityRecord>, b: seq<ActivityRecord>, h: int)
    ensures HourTotal(a + b, h) == Plus(HourTotal(a, h), HourTotal(b, h))
    decreases |b|
  {
    if b == [] {
      assert a + b == a;
    } else {
      var b', x := b[..|b| - 1], b[|b| - 1];
      assert b == b' + [x];
      HourTotalAppend(a, b', h);
      HourTotalAppendStep(a, b', x, h);
    }
  }

  /** One step of `HourTotalAppend`: the property survives appending a record to the second part. */
  lemma HourTotalAppendStep(a: seq<ActivityRecord>, b: seq<ActivityRecord>, x: ActivityRecord, h: int)
    requires HourTotal(a + b, h) == Plus(HourTotal(a, h), HourTotal(b, h))
    ensures HourTotal(a + (b + [x]), h) == Plus(HourTotal(a, h), HourTotal(b + [x], h))
  {
    calc {
      HourTotal(a + (b + [x]), h);
      { assert a + (b + [x]) == (a + b) + [x]; }
      HourTotal((a + b) + [x], h);
      { HourTotalSnoc(a + b, x, h); }
      Plus(HourTotal(a + b, h), Contribution(x, h));
      Plus(Plus(HourTotal(a, h), HourTotal(b, h)), Contribution(x, h));
      Plus(HourTotal(a, h), Plus(HourTotal(b, h), Contribution(x, h)));
      { HourTotalSnoc(b, x, h); }
      Plus(HourTotal(a, h), HourTotal(b + [x], h));
    }
  }

  /** A record that contributes nothing to hour `h`, wherever it sits, leaves that hour's totals unchanged. */
  lemma SilentRecordIgnored(a: seq<ActivityRecord>, r: ActivityRecord, b: seq<ActivityRecord>, h: int)
    requires Contribution(r, h) == NoCounts
    ensures HourTotal(a + [r] + b, h) == HourTotal(a + b, h)
  {
    HourTotalAppend(a + [r], b, h);
    HourTotalSnoc(a, r, h);
    HourTotalAppend(a, b, h);
  }

  /** An error-marked record, wherever it sits, changes no hour's totals and no bucket. */
  lemma ErrorRecordExcluded(a: seq<ActivityRecord>, r: ActivityRecord, b: seq<ActivityRecord>)
    requires IsError(r)
    ensures forall h :: HourTotal(a + [r] + b, h) == HourTotal(a + b, h)
    ensures Grouped(a + [r] + b) == Grouped(a + b)
  {
    forall h ensures HourTotal(a + [r] + b, h) == HourTotal(a + b, h) {
      SilentRecordIgnored(a, r, b, h);
    }
  }

  /** A record whose hour is outside 0..23, wherever it sits, changes no bucket. */
  lemma OutOfRangeRecordIgnored(a: seq<ActivityRecord>, r: ActivityRecord, b: seq<ActivityRecord>)
    requires r.hour < 0 || r.hour >= HoursPerDay
    ensures Grouped(a + [r] + b) == Grouped(a + b)
  {
    forall h | 0 <= h < HoursPerDay ensures HourTotal(a + [r] + b, h) == HourTotal(a + b, h) {
      SilentRecordIgnored(a, r, b, h);
    }
  }

  /** Taking one record out of the middle removes exactly its contribution. */
  lemma HourTotalRemoveAt(b: seq<ActivityRecord>, j: int, h: int)
    requires 0 <= j < |b|
    ensures HourTotal(b, h) == Plus(HourTotal(b[..j] + b[j + 1..], h), Contribution(b[j], h))
  {
    var before, after := b[..j], b[j + 1..];
    assert b == before + [b[j]] + after;
    HourTotalSnoc(before, b[j], h);
    HourTotalAppend(before + [b[j]], after, h);
    HourTotalAppend(before, after, h);
  }

  /** Reordering the records (any permutation) leaves every hour's totals unchanged. */
  lemma {:induction false} HourTotalPermutation(a: seq<ActivityRecord>, b: seq<ActivityRecord>, h: int)
    requires multiset(a) == multiset(b)
    ensures HourTotal(a, h) == HourTotal(b, h)
    decreases |a|
  {
    if a == [] {
      assert |b| == |multiset(b)| == 0;
    } else {
      var x := a[|a| - 1];
      var a' := a[..|a| - 1];
      assert a == a' + [x];
      assert x in multiset(b);
      var j :| 0 <= j < |b| && b[j] == x;
      var b' := b[..j] + b[j + 1..];
      assert b == b[..j] + [x] + b[j + 1..];
      calc {
        multiset(a');
        multiset(a) - multiset{x};
        multiset(b) - multiset{x};
        multiset(b[..j]) + multiset(b[j + 1..]);
        multiset(b');
      }
      HourTotalPermutation(a', b', h);
      HourTotalRemoveAt(b, j, h);
    }
  }

  /** Reordering the input records leaves the output unchanged. */
  lemma GroupedPermutationInvariant(a: seq<ActivityRecord>, b: seq<ActivityRecord>)
    requires multiset(a) == multiset(b)
    ensures Grouped(a) == Grouped(b)
  {
    forall h | 0 <= h < HoursPerDay ensures HourTotal(a, h) == HourTotal(b, h) {
      HourTotalPermutation(a, b, h);
    }
  }

  /** No two records share an hour. */
  predicate DistinctHours(rs: seq<ActivityRecord>) {
    forall i, j :: 0 <= i < j < |rs| ==> rs[i].hour != rs[j].hour
  }

  /** An hour that no record carries has zero totals. */
  lemma {:induction false} AbsentHourTotal(rs: seq<ActivityRecord>, h: int)
    requires forall i :: 0 <= i < |rs| ==> rs[i].hour != h
    ensures HourTotal(rs, h) == NoCounts
    decreases |rs|
  {
    if rs != [] {
      var init, x := rs[..|rs| - 1], rs[|rs| - 1];
      assert forall i :: 0 <= i < |init| ==> init[i].hour != h;
      AbsentHourTotal(init, h);
      assert Contribution(x, h) == NoCounts;
    }
  }

  /** When hours are distinct, an hour's totals are exactly what its one record contributes. */
  lemma {:induction false} DistinctHourTotal(rs: seq<ActivityRecord>, k: int)
    requires DistinctHours(rs)
    requires 0 <= k < |rs|
    ensures HourTotal(rs, rs[k].hour) == Contribution(rs[k], rs[k].hour)
    decreases |rs|
  {
    var h := rs[k].hour;
    var init, x := rs[..|rs| - 1], rs[|rs| - 1];
    assert rs == init + [x];
    HourTotalSnoc(init, x, h);
    if k == |rs| - 1 {
      assert forall i :: 0 <= i < |init| ==> init[i].hour != h;
      AbsentHourTotal(init, h);
    } else {
      assert init[k] == rs[k];
      assert DistinctHours(init);
      DistinctHourTotal(init, k);
    }
  }

  /** The buckets, read back as records without an error flag. */
  function AsRecords(buckets: seq<Bucket>): (rs: seq<ActivityRecord>)
    ensures |rs| == |buckets|
    ensures forall i :: 0 <= i < |rs| ==>
      rs[i].hour == buckets[i].hour && rs[i].sni == buckets[i].sni &&
      rs[i].packet == buckets[i].packet && !IsError(rs[i])
  {
    seq(|buckets|, i requires 0 <= i < |buckets| =>
      ActivityRecord(buckets[i].hour, buckets[i].sni, buckets[i].packet, 0))
  }

  /** Bucketing its own output again changes nothing. */
  lemma GroupedIdempotent(data: seq<ActivityRecord>)
    ensures Grouped(AsRecords(Grouped(data))) == Grouped(data)
  {
    var rs := AsRecords(Grouped(data));
    assert DistinctHours(rs);
    forall h | 0 <= h < HoursPerDay ensures HourTotal(rs, h) == HourTotal(data, h) {
      DistinctHourTotal(rs, h);
    }
  }

  /**
   * formatIPAddress: left-pads `ip` with spaces to width 15; a longer string is
   * returned unchanged.
   */
  function FormatIPAddress(ip: string): (r: string)
    ensures |r| == if |ip| < IpWidth then IpWidth else |ip|
    ensures r[|r| - |ip|..] == ip
    ensures forall i :: 0 <= i < |r| - |ip| ==> r[i] == ' '
  {
    if |ip| < IpWidth then seq(IpWidth - |ip|, _ => ' ') + ip else ip
  }

  /** The three properties above determine the padded string completely. */
  lemma FormatIPAddressUnique(ip: string, s: string)
    requires |s| == if |ip| < IpWidth then IpWidth else |ip|
    requires s[|s| - |ip|..] == ip
    requires forall i :: 0 <= i < |s| - |ip| ==> s[i] == ' '
    ensures s == FormatIPAddress(ip)
  {
    var r := FormatIPAddress(ip);
    forall i | 0 <= i < |s| ensures s[i] == r[i] {
      if i >= |s| - |ip| {
        assert s[i] == s[|s| - |ip|..][i - (|s| - |ip|)];
        assert r[i] == r[|r| - |ip|..][i - (|r| - |ip|)];
      }
    }
  }

  /** Padding an already padded address changes nothing. */
  lemma FormatIPAddressIdempotent(ip: string)
    ensures FormatIPAddress(FormatIPAddress(ip)) == FormatIPAddress(ip)
  {
  }
}
