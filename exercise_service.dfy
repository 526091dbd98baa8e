/** The exercise service of src/exercise/exercise.service.ts: recording activity samples,
    starting and finishing a workout, and reading points and the day's record. The clock is
    `now` with its calendar `decompose`; the points policy table is a parameter. */
module ExerciseService {
  import opened Errors
  import opened Datastore
  import opened Dates
  import opened Calculator
  import opened Settlement
  import Keys

  const NotFoundUserInfo := HttpError(NotFound, "NOT FOUND USER INFO")
  const NoUser := HttpError(NotFound, "NO_USER")
  const NoUserInfo := HttpError(BadRequest, "NO_USERINFO")
  const NoUserBirth := HttpError(BadRequest, "NO_USER_BIRTH")
  const NoUserSex := HttpError(BadRequest, "NO_USER_SEX")
  const NoUserWeight := HttpError(BadRequest, "NO_USER_WEIGHT")

  /** The checks in front of a trace, in order: the node exists, it is truthy, and it has a
      truthy birth date, sex and weight. Each error is reported exactly when every earlier
      check passed and its own failed. */
  function TraceUserCheck(node: Option<UserNode>): (r: Result<Profile>)
    ensures r == Err(NoUser) <==> node.None?
    ensures r == Err(NoUserInfo) <==> node == Some(FalsyScalar)
    ensures r == Err(NoUserBirth) <==> node.Some? && node.value.Object? && !Truthy(node.value.profile.birth)
    ensures r == Err(NoUserSex) <==>
      (node.Some? && node.value.Object? && Truthy(node.value.profile.birth) && !Truthy(node.value.profile.sex))
    ensures r == Err(NoUserWeight) <==>
      (node.Some? && node.value.Object? && Truthy(node.value.profile.birth) && Truthy(node.value.profile.sex)
       && !TruthyNumber(node.value.profile.weight))
    ensures r.Ok? <==>
      (node.Some? && node.value.Object? && Truthy(node.value.profile.birth) && Truthy(node.value.profile.sex)
       && TruthyNumber(node.value.profile.weight))
    ensures r.Ok? ==> r.value == node.value.profile
  {
    match node
    case None => Err(NoUser)
    case Some(FalsyScalar) => Err(NoUserInfo)
    case Some(Object(p)) =>
      if !Truthy(p.birth) then Err(NoUserBirth)
      else if !Truthy(p.sex) then Err(NoUserSex)
      else if !TruthyNumber(p.weight) then Err(NoUserWeight)
      else Ok(p)
  }

  /** The transaction on doing/<day>/<time>: the first sample written there stays. */
  function InsertFirst(log: ExerciseLog, day: string, time: string, s: Sample): (r: ExerciseLog)
    ensures r.done == log.done
    ensures r.doing.Keys == log.doing.Keys + {day}
    ensures time in r.doing[day]
    ensures day in log.doing && time in log.doing[day] ==> r.doing[day][time] == log.doing[day][time]
    ensures !(day in log.doing && time in log.doing[day]) ==> r.doing[day][time] == s
    ensures forall d :: d in log.doing && d != day ==> r.doing[d] == log.doing[d]
    ensures forall t :: t in r.doing[day] && t != time ==> t in BucketAt(log.doing, day) && r.doing[day][t] == log.doing[day][t]
    ensures forall t :: t in BucketAt(log.doing, day) ==> t in r.doing[day]
  {
    if day in log.doing && time in log.doing[day] then log
    else log.(doing := log.doing[day := BucketAt(log.doing, day)[time := s]])
  }

  /** Writing a sample again, or any other sample, to a filled slot changes nothing. */
  lemma InsertFirstIdempotent(log: ExerciseLog, day: string, time: string, s: Sample, s': Sample)
    ensures InsertFirst(InsertFirst(log, day, time, s), day, time, s') == InsertFirst(log, day, time, s)
  {
  }

  /** The transaction on exercise/<uid>/doing/<day>/<time>. */
  method RecordSample(db: Database, uid: string, day: string, time: string, s: Sample)
    modifies db
    ensures db.exercise == old(db.exercise)[uid := InsertFirst(old(db.LogOf(uid)), day, time, s)]
    ensures db.users == old(db.users) && db.verifications == old(db.verifications)
    ensures db.accounts == old(db.accounts)
  {
    db.exercise := db.exercise[uid := InsertFirst(db.LogOf(uid), day, time, s)];
  }

  /** `sendUserActivityTrace`: checks the profile, computes points and kcal from the request
      and stores the sample at doing/<day>/<time> unless one is already there. The response
      is computed from the request whether or not the sample was stored. A points lookup
      that throws (an unparsable birth year, an unknown sex) becomes 500 before any write. */
  method SendUserActivityTrace(db: Database, policy: PointsPolicy, uid: string, velocity: real,
                               date: Option<int>, movetime: real, now: int, decompose: int -> DateTime)
    returns (r: Result<ExerciseResult>)
    requires NonZeroMinimums(policy)
    modifies db
    ensures db.users == old(db.users) && db.verifications == old(db.verifications)
    ensures db.accounts == old(db.accounts)
    ensures var check := TraceUserCheck(Lookup(old(db.users), uid));
      && (check.Err? ==> r == Err(check.failure) && db.exercise == old(db.exercise))
      && (check.Ok? ==>
            var p := check.value;
            var points := CalcPoints(velocity, policy, p.birth.value, p.sex.value, decompose(now).year);
            && (points.None? ==> r == Err(CommonThrow(Uncoded)) && db.exercise == old(db.exercise))
            && (points.Some? ==>
                  var kcal := CalcKcal(velocity, p.weight.value, movetime);
                  && r == Ok(ExerciseResult(velocity, points.value, kcal))
                  && db.exercise == old(db.exercise)[uid := InsertFirst(old(db.LogOf(uid)),
                       DateKey(date, now, decompose), TimeKey(date, now, decompose),
                       Sample(velocity, points.value, kcal, movetime))]))
  {
    var check := TraceUserCheck(Lookup(db.users, uid));
    if check.Err? {
      return Err(check.failure);
    }
    var p := check.value;
    var accessDate := DateKey(date, now, decompose);
    var accessTime := TimeKey(date, now, decompose);
    var points := CalcPoints(velocity, policy, p.birth.value, p.sex.value, decompose(now).year);
    if points.None? {
      return Err(CommonThrow(Uncoded));
    }
    var kcal := CalcKcal(velocity, p.weight.value, movetime);
    RecordSample(db, uid, accessDate, accessTime, Sample(velocity, points.value, kcal, movetime));
    r := Ok(ExerciseResult(velocity, points.value, kcal));
  }

  /** `{ ...node, doing: true }`. */
  function Started(node: UserNode): (n: UserNode)
    ensures n.Object? && n.profile.doing == Flag(true)
    ensures n.profile == Fields(node).(doing := Flag(true))
  {
    Object(Fields(node).(doing := Flag(true)))
  }

  /** `startUserExerciseActivity`: 404 for a missing user, otherwise sets `doing` and leaves
      every other field as it was. */
  method StartUserExerciseActivity(db: Database, uid: string) returns (r: Result<()>)
    modifies db
    ensures uid !in old(db.users) ==> r == Err(NotFoundUserInfo) && db.users == old(db.users)
    ensures uid in old(db.users) ==> r == Ok(()) && db.users == old(db.users)[uid := Started(old(db.users)[uid])]
    ensures db.exercise == old(db.exercise) && db.verifications == old(db.verifications)
    ensures db.accounts == old(db.accounts)
  {
    if uid !in db.users {
      return Err(NotFoundUserInfo);
    }
    db.users := db.users[uid := Started(db.users[uid])];
    r := Ok(());
  }

  /** The accumulators of one bucket. Samples are visited in whatever order the keys come;
      the sums do not depend on it. */
  method AggregateBucket(bucket: Bucket) returns (r: ExerciseResult)
    ensures r == Aggregate(bucket)
  {
    var points, kcal, velocity := 0.0, 0.0, 0.0;
    var times := bucket.Keys;
    while times != {}
      invariant times <= bucket.Keys
      invariant points + Total(bucket, times, Points) == Total(bucket, bucket.Keys, Points)
      invariant kcal + Total(bucket, times, Kcal) == Total(bucket, bucket.Keys, Kcal)
      invariant velocity + Total(bucket, times, Velocity) == Total(bucket, bucket.Keys, Velocity)
      decreases times
    {
      var t :| t in times;
      TotalRemove(bucket, times, Points, t);
      TotalRemove(bucket, times, Kcal, t);
      TotalRemove(bucket, times, Velocity, t);
      points := points + bucket[t].points;
      kcal := kcal + bucket[t].kcal;
      velocity := velocity + bucket[t].velocity;
      times := times - {t};
    }
    var n := |bucket.Keys|;
    if n != 0 {
      velocity := velocity / n as real;
    }
    r := ExerciseResult(velocity, points, kcal);
  }

  /** Writing a node twice keeps the second write. */
  lemma UpdateTwice<K, V>(m: map<K, V>, k: K, a: V, b: V)
    ensures m[k := a][k := b] == m[k := b]
  {
  }

  /** The points and cash transactions of every open bucket, oldest day first; returns the
      accumulators of the last bucket. */
  method SettleBuckets(db: Database, uid: string, doing: map<string, Bucket>, today: string)
    returns (last: ExerciseResult)
    requires uid in db.users && doing != map[]
    modifies db
    ensures uid in db.users
    ensures var p0 := Fields(old(db.users)[uid]);
      db.users == old(db.users)[uid := Object(Settle(p0, SnapshotOf(p0), doing, doing.Keys, today))]
    ensures last == Aggregate(doing[Keys.Greatest(doing.Keys)])
    ensures db.exercise == old(db.exercise) && db.verifications == old(db.verifications)
    ensures db.accounts == old(db.accounts)
  {
    var p0 := Fields(db.users[uid]);
    var snap := SnapshotOf(p0);
    var days := doing.Keys;
    assert days != {} by {
      var d :| d in doing;
    }
    var remaining, settled := days, {};
    var p := p0;
    last := Zero;
    while remaining != {}
      invariant settled + remaining == days && settled * remaining == {}
      invariant settled == {} ==> db.users == old(db.users)
      invariant settled != {} ==> db.users == old(db.users)[uid := Object(p)]
      invariant Settle(p, snap, doing, remaining, today) == Settle(p0, snap, doing, days, today)
      invariant settled != {} ==> last == Aggregate(doing[Keys.Greatest(settled)])
      invariant forall a, b :: a in settled && b in remaining ==> Keys.Less(a, b)
      invariant db.exercise == old(db.exercise) && db.verifications == old(db.verifications)
      invariant db.accounts == old(db.accounts)
      decreases remaining
    {
      Keys.LeastExists(remaining);
      var day :| Keys.IsLeast(day, remaining);
      Keys.LeastUnique(day, Keys.Least(remaining), remaining);
      last := AggregateBucket(doing[day]);
      UpdateTwice(old(db.users), uid, Object(p), Object(SettleDay(p, snap, day, today, last.points)));
      p := SettleDay(p, snap, day, today, last.points);
      db.users := db.users[uid := Object(p)];
      assert Keys.IsGreatest(day, settled + {day});
      Keys.GreatestUnique(day, Keys.Greatest(settled + {day}), settled + {day});
      remaining, settled := remaining - {day}, settled + {day};
    }
    assert settled == days;
  }

  /** The two transactions of one day: the open samples are merged into done/<day>, and
      doing/<day> is removed. */
  method ArchiveDay(db: Database, uid: string, day: string, bucket: Bucket)
    modifies db
    ensures var log := old(db.LogOf(uid));
      db.exercise == old(db.exercise)[uid := ExerciseLog(log.doing - {day},
                                                         log.done[day := Merge(BucketAt(log.done, day), bucket)])]
    ensures db.users == old(db.users) && db.verifications == old(db.verifications)
    ensures db.accounts == old(db.accounts)
  {
    var log := db.LogOf(uid);
    db.exercise := db.exercise[uid := ExerciseLog(log.doing - {day},
                                                  log.done[day := Merge(BucketAt(log.done, day), bucket)])];
  }

  /** Archiving one more open day moves the log from one loop state to the next. */
  lemma ArchiveProgress(doing: map<string, Bucket>, done: map<string, Bucket>, left: set<string>, day: string)
    requires left <= doing.Keys && day in left
    ensures var cur := ExerciseLog(Restrict(doing, left), Archive(Restrict(doing, doing.Keys - left), done));
      ExerciseLog(cur.doing - {day}, cur.done[day := Merge(BucketAt(cur.done, day), doing[day])])
        == ExerciseLog(Restrict(doing, left - {day}), Archive(Restrict(doing, doing.Keys - (left - {day})), done))
  {
    ArchiveStep(doing, done, doing.Keys - left, day);
    assert doing.Keys - (left - {day}) == (doing.Keys - left) + {day};
    assert Restrict(doing, left) - {day} == Restrict(doing, left - {day});
  }

  /** Every open bucket merged into done/<day> and removed from doing, in any order. */
  method ArchiveBuckets(db: Database, uid: string)
    modifies db
    ensures var log := old(db.LogOf(uid));
      db.exercise == old(db.exercise)[uid := ExerciseLog(map[], Archive(log.doing, log.done))]
    ensures db.users == old(db.users) && db.verifications == old(db.verifications)
    ensures db.accounts == old(db.accounts)
  {
    var log := db.LogOf(uid);
    var doing, done := log.doing, log.done;
    assert Restrict(doing, doing.Keys) == doing;
    assert Archive(Restrict(doing, {}), done) == done;
    db.exercise := db.exercise[uid := ExerciseLog(doing, done)];
    var left := doing.Keys;
    while left != {}
      invariant left <= doing.Keys
      invariant db.exercise == old(db.exercise)[uid := ExerciseLog(Restrict(doing, left), Archive(Restrict(doing, doing.Keys - left), done))]
      invariant db.users == old(db.users) && db.verifications == old(db.verifications)
      invariant db.accounts == old(db.accounts)
      decreases left
    {
      var day :| day in left;
      ghost var next := ExerciseLog(Restrict(doing, left - {day}), Archive(Restrict(doing, doing.Keys - (left - {day})), done));
      ArchiveProgress(doing, done, left, day);
      ArchiveDay(db, uid, day, doing[day]);
      UpdateTwice(old(db.exercise), uid, ExerciseLog(Restrict(doing, left), Archive(Restrict(doing, doing.Keys - left), done)), next);
      left := left - {day};
    }
    assert Restrict(doing, {}) == map[];
    assert doing.Keys - left == doing.Keys;
  }

  /** `finishUserExerciseActivity`: 404 for a missing user; with no open buckets the response
      is all zeros and nothing is written (not even `doing`); otherwise every open bucket is
      settled oldest first against the profile as it was read, archived, and `doing` is
      cleared. The response is the aggregate of the newest bucket. */
  method FinishUserExerciseActivity(db: Database, uid: string, now: int, decompose: int -> DateTime)
    returns (r: Result<ExerciseResult>)
    modifies db
    ensures uid !in old(db.users) ==>
      r == Err(NotFoundUserInfo) && db.users == old(db.users) && db.exercise == old(db.exercise)
    ensures uid in old(db.users) && old(db.LogOf(uid)).doing == map[] ==>
      r == Ok(Zero) && db.users == old(db.users) && db.exercise == old(db.exercise)
    ensures uid in old(db.users) && old(db.LogOf(uid)).doing != map[] ==>
      var log := old(db.LogOf(uid));
      var p0 := Fields(old(db.users)[uid]);
      var settled := Settle(p0, SnapshotOf(p0), log.doing, log.doing.Keys, DateKey(None, now, decompose));
      && r == Ok(Aggregate(log.doing[Keys.Greatest(log.doing.Keys)]))
      && db.users == old(db.users)[uid := Object(settled.(doing := Flag(false)))]
      && db.exercise == old(db.exercise)[uid := ExerciseLog(map[], Archive(log.doing, log.done))]
    ensures db.verifications == old(db.verifications) && db.accounts == old(db.accounts)
  {
    if uid !in db.users {
      return Err(NotFoundUserInfo);
    }
    var doing := db.LogOf(uid).doing;
    if doing == map[] {
      return Ok(Zero);
    }
    var today := DateKey(None, now, decompose);
    ghost var p0 := Fields(db.users[uid]);
    ghost var settled := Settle(p0, SnapshotOf(p0), doing, doing.Keys, today);
    var last := SettleBuckets(db, uid, doing, today);
    ArchiveBuckets(db, uid);
    db.users := db.users[uid := Object(Fields(db.users[uid]).(doing := Flag(false)))];
    UpdateTwice(old(db.users), uid, Object(settled), Object(settled.(doing := Flag(false))));
    r := Ok(last);
  }

  /** `getUserDailyPoints`: 404 for a missing user, otherwise the stored daily points or 0. */
  function GetUserDailyPoints(users: map<string, UserNode>, uid: string): (r: Result<real>)
    ensures uid !in users <==> r == Err(NotFoundUserInfo)
    ensures uid in users && Fields(users[uid]).dailyPoints.None? ==> r == Ok(0.0)
    ensures uid in users && Fields(users[uid]).dailyPoints.Some? ==> r == Ok(Fields(users[uid]).dailyPoints.value)
  {
    if uid !in users then Err(NotFoundUserInfo) else Ok(Fields(users[uid]).dailyPoints.GetOr(0.0))
  }

  /** `getUserExerciseRecord`: today's archived bucket, or no record when there is none (an
      empty bucket does not exist in the database). It never fails. */
  function GetUserExerciseRecord(exercise: map<string, ExerciseLog>, uid: string, now: int,
                                 decompose: int -> DateTime): (r: Result<Option<Bucket>>)
    ensures r.Ok?
    ensures var today := DateKey(None, now, decompose);
      && (r.value.Some? <==> uid in exercise && today in exercise[uid].done && exercise[uid].done[today] != map[])
      && (r.value.Some? ==> r.value.value == exercise[uid].done[today])
  {
    var today := DateKey(None, now, decompose);
    if uid in exercise && BucketAt(exercise[uid].done, today) != map[] then Ok(Some(exercise[uid].done[today]))
    else Ok(None)
  }

  /** After a finish that settled some day, the daily points read back as the last day's
      total on top of the snapshot when that day is today, and as 0 otherwise. */
  lemma DailyPointsAfterFinish(users: map<string, UserNode>, uid: string, doing: map<string, Bucket>, today: string)
    requires uid in users && doing != map[]
    ensures var p0 := Fields(users[uid]);
      var settled := Settle(p0, SnapshotOf(p0), doing, doing.Keys, today);
      var g := Keys.Greatest(doing.Keys);
      GetUserDailyPoints(users[uid := Object(settled.(doing := Flag(false)))], uid)
        == Ok(if g == today then SnapshotOf(p0).daily + Aggregate(doing[g]).points else 0.0)
  {
    var d :| d in doing;
    var p0 := Fields(users[uid]);
    SettleClosedForm(p0, SnapshotOf(p0), doing, doing.Keys, today);
  }

  /** After a finish, today's record holds today's archived samples with the open ones merged
      over them; a finish with no open bucket for today leaves the record as it was. */
  lemma RecordAfterFinish(exercise: map<string, ExerciseLog>, uid: string, log: ExerciseLog, now: int,
                          decompose: int -> DateTime)
    ensures var today := DateKey(None, now, decompose);
      var after := exercise[uid := ExerciseLog(map[], Archive(log.doing, log.done))];
      && (today in log.doing && log.doing[today] != map[] ==>
            GetUserExerciseRecord(after, uid, now, decompose)
              == Ok(Some(Merge(BucketAt(log.done, today), log.doing[today]))))
      && (today !in log.doing ==>
            GetUserExerciseRecord(after, uid, now, decompose)
              == GetUserExerciseRecord(exercise[uid := log], uid, now, decompose))
  {
    var today := DateKey(None, now, decompose);
    if today in log.doing && log.doing[today] != map[] {
      var t :| t in log.doing[today];
      assert t in Merge(BucketAt(log.done, today), log.doing[today]);
    }
  }
}
