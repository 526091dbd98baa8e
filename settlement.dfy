/** What finishing a workout computes, stated as functions: the aggregate of a day's samples,
    the points and cash updates applied once per day bucket in ascending day order, and the
    archiving of the open buckets. The methods of ExerciseService are proved against these. */
module Settlement {
  import opened Errors
  import opened Datastore
  import Keys

  /** `{velocity, points, kcal}` of a response. */
  datatype ExerciseResult = ExerciseResult(velocity: real, points: real, kcal: real)

  const Zero := ExerciseResult(0.0, 0.0, 0.0)

  /** The quantity of a sample that is being summed. */
  datatype Measure = Velocity | Points | Kcal

  function Of(s: Sample, m: Measure): real {
    match m
    case Velocity => s.velocity
    case Points => s.points
    case Kcal => s.kcal
  }

  /** The sum of one measure over the samples at `keys`, added in listing order. */
  ghost function Total(bucket: Bucket, keys: set<string>, m: Measure): real
    requires keys <= bucket.Keys
    decreases keys
  {
    if keys == {} then 0.0
    else
      var k := Keys.Least(keys);
      Of(bucket[k], m) + Total(bucket, keys - {k}, m)
  }

  /** Any sample can be added first: the sum does not depend on the order `Object.keys` gives. */
  lemma {:induction false} TotalRemove(bucket: Bucket, keys: set<string>, m: Measure, k: string)
    requires keys <= bucket.Keys && k in keys
    ensures Total(bucket, keys, m) == Of(bucket[k], m) + Total(bucket, keys - {k}, m)
    decreases keys
  {
    var l := Keys.Least(keys);
    if k != l {
      TotalRemove(bucket, keys - {l}, m, k);
      assert Keys.IsLeast(l, keys - {k});
      Keys.LeastUnique(l, Keys.Least(keys - {k}), keys - {k});
      assert keys - {l} - {k} == keys - {k} - {l};
    }
  }

  /** The per-bucket accumulators of `finishUserExerciseActivity`: summed points and kcal, and
      the summed velocity divided by the number of samples. The branch for an empty bucket
      only keeps the function total: a stored bucket is never empty. */
  ghost function Aggregate(bucket: Bucket): ExerciseResult {
    var n := |bucket.Keys|;
    var velocity := Total(bucket, bucket.Keys, Velocity);
    ExerciseResult(
      if n != 0 then velocity / n as real else velocity,
      Total(bucket, bucket.Keys, Points),
      Total(bucket, bucket.Keys, Kcal))
  }

  /** The profile values read once, before any bucket is settled (`|| 0` and `?? 0` agree on
      an absent or zero number). */
  datatype Snapshot = Snapshot(daily: real, month: real, cashes: real)

  function SnapshotOf(p: Profile): Snapshot {
    Snapshot(p.dailyPoints.GetOr(0.0), p.monthPoints.GetOr(0.0), p.cashes.GetOr(0.0))
  }

  /** The part of a day's points above 10000 that is carried into the month. */
  function Carry(points: real): (c: real)
    ensures c >= 0.0
    ensures points <= 10000.0 ==> c == 0.0
    ensures points > 10000.0 ==> points == 10000.0 + c
  {
    if points > 10000.0 then points - 10000.0 else 0.0
  }

  /** The cash balance after converting the snapshot's daily points: the previous balance is
      counted twice, plus 500 above 10000 points or one unit per 20 points otherwise. */
  function CashAfter(snap: Snapshot): (c: real)
    ensures snap.daily > 10000.0 ==> c == 2.0 * snap.cashes + 500.0
    ensures snap.daily <= 10000.0 ==> c == 2.0 * snap.cashes + (snap.daily / 20.0).Floor as real
  {
    snap.cashes
    + (if snap.daily > 10000.0 then snap.cashes + 500.0
       else snap.cashes + (snap.daily / 20.0).Floor as real)
  }

  /** The points transaction of one bucket: both totals come from the snapshot, not from the
      current profile, so a later bucket overwrites an earlier one. */
  function PointsStep(p: Profile, snap: Snapshot, points: real): Profile {
    p.(dailyPoints := Some(snap.daily + points),
       monthPoints := Some(snap.month + (snap.daily + Carry(points))))
  }

  /** The cash transaction of one bucket: a no-op for today's bucket. */
  function CashStep(p: Profile, snap: Snapshot, day: string, today: string): Profile {
    if day != today then p.(cashes := Some(CashAfter(snap)), dailyPoints := Some(0.0)) else p
  }

  /** Both transactions of one bucket, in the order they are issued. */
  function SettleDay(p: Profile, snap: Snapshot, day: string, today: string, points: real): Profile {
    CashStep(PointsStep(p, snap, points), snap, day, today)
  }

  /** The profile after settling the buckets at `days`, oldest first. */
  ghost function Settle(p: Profile, snap: Snapshot, doing: map<string, Bucket>, days: set<string>, today: string): Profile
    requires days <= doing.Keys
    decreases days
  {
    if days == {} then p
    else
      var d := Keys.Least(days);
      Settle(SettleDay(p, snap, d, today, Aggregate(doing[d]).points), snap, doing, days - {d}, today)
  }

  /** Only the last day settled decides the points, and cash is converted (once, from the
      snapshot) exactly when some day other than today is settled; nothing else changes. */
  lemma {:induction false} SettleClosedForm(p: Profile, snap: Snapshot, doing: map<string, Bucket>, days: set<string>, today: string)
    requires days != {} && days <= doing.Keys
    ensures var g := Keys.Greatest(days);
      var points := Aggregate(doing[g]).points;
      Settle(p, snap, doing, days, today) == p.(
        dailyPoints := Some(if g == today then snap.daily + points else 0.0),
        monthPoints := Some(snap.month + (snap.daily + Carry(points))),
        cashes := if days != {today} then Some(CashAfter(snap)) else p.cashes)
    decreases days
  {
    var l := Keys.Least(days);
    var rest := days - {l};
    var q := SettleDay(p, snap, l, today, Aggregate(doing[l]).points);
    Keys.GreatestAfterLeast(days);
    if rest != {} {
      SettleClosedForm(q, snap, doing, rest, today);
      if rest == {today} {
        assert l != today && days != {today};
      }
    }
  }

  /** `{...done, ...doing}` of one day: the open samples win on a shared time key. */
  function Merge(done: Bucket, doing: Bucket): (m: Bucket)
    ensures m.Keys == done.Keys + doing.Keys
    ensures forall t :: t in doing ==> m[t] == doing[t]
    ensures forall t :: t in done && t !in doing ==> m[t] == done[t]
  {
    done + doing
  }

  /** done/<day>, with an absent bucket read as empty. */
  function BucketAt(log: map<string, Bucket>, day: string): Bucket {
    if day in log then log[day] else map[]
  }

  /** The archive after every open bucket is merged into it. */
  function Archive(doing: map<string, Bucket>, done: map<string, Bucket>): map<string, Bucket> {
    map d | d in doing.Keys + done.Keys :: if d in doing then Merge(BucketAt(done, d), doing[d]) else done[d]
  }

  /** Archiving loses no sample: a sample is archived under (day, time) exactly when it was
      open or archived there before, and the open one wins. */
  lemma ArchiveContents(doing: map<string, Bucket>, done: map<string, Bucket>, day: string, time: string)
    ensures var a := Archive(doing, done);
      && (day in a && time in a[day] <==>
            (day in doing && time in doing[day]) || (day in done && time in done[day]))
      && (day in doing && time in doing[day] ==> a[day][time] == doing[day][time])
      && (day in done && time in done[day] && !(day in doing && time in doing[day]) ==>
            a[day][time] == done[day][time])
  {
  }

  /** The buckets of `m` at `days`. */
  function Restrict(m: map<string, Bucket>, days: set<string>): (r: map<string, Bucket>)
    ensures r.Keys == m.Keys * days
    ensures forall d :: d in r ==> r[d] == m[d]
  {
    map d | d in m.Keys * days :: m[d]
  }

  /** Archiving one more day is one more merge into done/<day>. */
  lemma ArchiveStep(doing: map<string, Bucket>, done: map<string, Bucket>, days: set<string>, d: string)
    requires d in doing && d !in days
    ensures var before := Archive(Restrict(doing, days), done);
      Archive(Restrict(doing, days + {d}), done) == before[d := Merge(BucketAt(before, d), doing[d])]
  {
    var r, r' := Restrict(doing, days), Restrict(doing, days + {d});
    var before, after := Archive(r, done), Archive(r', done);
    assert BucketAt(before, d) == BucketAt(done, d);
    var stepped := before[d := Merge(BucketAt(done, d), doing[d])];
    assert after.Keys == stepped.Keys;
    forall k | k in after
      ensures after[k] == stepped[k]
    {
      if k == d {
        assert after[k] == Merge(BucketAt(done, d), doing[d]);
      } else {
        assert (k in r') == (k in r);
        if k in r {
          assert r'[k] == r[k];
        }
      }
    }
  }
}
