/** The users service of src/users/users.service.ts: the profile, cash and workout-state
    projections of users/<uid>, and account deletion. */
module UsersService {
  import opened Errors
  import opened Datastore
  import opened Calculator
  import opened Settlement
  import ExerciseService

  const NotFoundUserInfo := HttpError(NotFound, "NOT FOUND USER INFO")
  const DoingExercise := HttpError(BadRequest, "DOING EXERCISE")

  /** The error code the identity provider reports for a uid it does not know. */
  const UserNotFoundCode := "auth/user-not-found"

  /** `tmpAge > 70 ? 70 : tmpAge < 20 ? 20 : tmpAge`. */
  function UsersClamp(age: int): int {
    if age > 70 then 70 else if age < 20 then 20 else age
  }

  /** The two clamps pick the same band for every age, even though one compares strictly and
      the other does not. */
  lemma ClampsAgree(age: int)
    ensures UsersClamp(age) == ClampBand(age)
    ensures 20 <= UsersClamp(age) <= 70
  {
  }

  /** The band the profile reads its thresholds from: the calculator's, with this clamp. */
  function ProfileBand(birth: string, currentYear: int): (r: Option<Band>)
    ensures r == AgeBand(birth, currentYear)
  {
    match ParseInt(Prefix4(birth))
    case None => None
    case Some(y) =>
      var age := DecadeAge(y, currentYear);
      ClampsAgree(age);
      ClampedDecadeIsBand(age);
      Some(UsersClamp(age))
  }

  /** The `data` of a profile response. */
  datatype UserView = UserView(
    name: Option<string>,
    email: Option<string>,
    birth: string,
    sex: string,
    dailyPoints: real,
    monthPoints: real,
    cashes: real,
    weight: Option<real>,
    minGetPoint: real,
    maxGetPoint: real)

  /** `getUserProfile`: 404 for a missing user; a missing birth date, an unparsable year or a
      sex other than "M" and "W" makes the policy lookup throw a TypeError, which becomes 500.
      Absent point and cash totals read as 0, the weight is the `Weight` field, and the two
      thresholds are those of the user's band and sex. */
  function GetUserProfile(users: map<string, UserNode>, uid: string, policy: PointsPolicy,
                          currentYear: int): (r: Result<UserView>)
    ensures uid !in users <==> r == Err(NotFoundUserInfo)
    ensures uid in users ==>
      var p := Fields(users[uid]);
      && (r.Ok? <==> p.birth.Some? && AgeBand(p.birth.value, currentYear).Some? && p.sex.Some?
                     && SexKey(p.sex.value).Some?)
      && (!r.Ok? ==> r == Err(InternalError))
      && (r.Ok? ==>
            var th := policy(AgeBand(p.birth.value, currentYear).value, SexKey(p.sex.value).value);
            && r.value.name == p.name && r.value.email == p.email
            && r.value.birth == p.birth.value && r.value.sex == p.sex.value
            && r.value.dailyPoints == p.dailyPoints.GetOr(0.0)
            && r.value.monthPoints == p.monthPoints.GetOr(0.0)
            && r.value.cashes == p.cashes.GetOr(0.0)
            && r.value.weight == p.Weight
            && r.value.minGetPoint == th.minVelo && r.value.maxGetPoint == th.maxVelo)
  {
    if uid !in users then Err(NotFoundUserInfo)
    else
      var p := Fields(users[uid]);
      if p.birth.None? then Err(CommonThrow(Uncoded))
      else
        match (ProfileBand(p.birth.value, currentYear), if p.sex.Some? then SexKey(p.sex.value) else None)
        case (Some(band), Some(sex)) =>
          var th := policy(band, sex);
          Ok(UserView(p.name, p.email, p.birth.value, p.sex.value,
                      p.dailyPoints.GetOr(0.0), p.monthPoints.GetOr(0.0), p.cashes.GetOr(0.0),
                      p.Weight, th.minVelo, th.maxVelo))
        case _ => Err(CommonThrow(Uncoded))
  }

  /** `getUserCashes`: 404 for a missing user, otherwise the balance, absent read as 0. */
  function GetUserCashes(users: map<string, UserNode>, uid: string): (r: Result<real>)
    ensures uid !in users <==> r == Err(NotFoundUserInfo)
    ensures uid in users ==> r == Ok(Fields(users[uid]).cashes.GetOr(0.0))
  {
    if uid !in users then Err(NotFoundUserInfo) else Ok(Fields(users[uid]).cashes.GetOr(0.0))
  }

  /** `getDoing`: 404 for a missing user, otherwise the `doing` field, absent read as false
      and any other value returned as it is. */
  function GetDoing(users: map<string, UserNode>, uid: string): (r: Result<Doing>)
    ensures uid !in users <==> r == Err(NotFoundUserInfo)
    ensures uid in users && Fields(users[uid]).doing == Unset ==> r == Ok(Flag(false))
    ensures uid in users && Fields(users[uid]).doing != Unset ==> r == Ok(Fields(users[uid]).doing)
  {
    if uid !in users then Err(NotFoundUserInfo)
    else
      match Fields(users[uid]).doing
      case Unset => Ok(Flag(false))
      case d => Ok(d)
  }

  /** The refusals of a deletion: a missing user, and a user whose `doing` is exactly `true`. */
  function DeleteCheck(users: map<string, UserNode>, uid: string): (r: Option<HttpError>)
    ensures r == Some(NotFoundUserInfo) <==> uid !in users
    ensures r == Some(DoingExercise) <==> uid in users && Fields(users[uid]).doing == Flag(true)
    ensures r.None? <==> uid in users && Fields(users[uid]).doing != Flag(true)
  {
    if uid !in users then Some(NotFoundUserInfo)
    else if Fields(users[uid]).doing == Flag(true) then Some(DoingExercise)
    else None
  }

  /** A deletion is refused for a workout in progress exactly when `getDoing` reports `true`;
      an absent flag or a truthy value other than `true` does not block it. */
  lemma DeleteRefusedIffDoing(users: map<string, UserNode>, uid: string)
    requires uid in users
    ensures DeleteCheck(users, uid) == Some(DoingExercise) <==> GetDoing(users, uid) == Ok(Flag(true))
  {
  }

  /** `deleteUserInfo`: a refused deletion changes nothing. Otherwise users/<uid> is removed,
      then exercise/<uid>, then the account; an unknown account fails the last step with 500
      after the first two removals have happened. */
  method DeleteUserInfo(db: Database, uid: string) returns (r: Result<()>)
    modifies db
    ensures var check := DeleteCheck(old(db.users), uid);
      && (check.Some? ==>
            (r == Err(check.value) && db.users == old(db.users)
             && db.exercise == old(db.exercise) && db.accounts == old(db.accounts)))
      && (check.None? ==>
            && db.users == old(db.users) - {uid}
            && db.exercise == old(db.exercise) - {uid}
            && db.accounts == old(db.accounts) - {uid}
            && (uid in old(db.accounts) ==> r == Ok(()))
            && (uid !in old(db.accounts) ==> r == Err(InternalError)))
    ensures db.verifications == old(db.verifications)
  {
    var check := DeleteCheck(db.users, uid);
    if check.Some? {
      return Err(CommonThrow(Http(check.value)));
    }
    db.users := db.users - {uid};
    db.exercise := db.exercise - {uid};
    if uid !in db.accounts {
      return Err(CommonThrow(Coded(UserNotFoundCode)));
    }
    db.accounts := db.accounts - {uid};
    r := Ok(());
  }

  /** Starting a workout blocks deletion, and `getDoing` reports it. */
  lemma StartBlocksDelete(users: map<string, UserNode>, uid: string)
    requires uid in users
    ensures var started := users[uid := ExerciseService.Started(users[uid])];
      && GetDoing(started, uid) == Ok(Flag(true))
      && DeleteCheck(started, uid) == Some(DoingExercise)
  {
  }

  /** Finishing a workout that settled some day clears the flag, so deletion is allowed
      again. */
  lemma FinishAllowsDelete(users: map<string, UserNode>, uid: string, doing: map<string, Bucket>, today: string)
    requires uid in users && doing != map[]
    ensures var p0 := Fields(users[uid]);
      var finished := users[uid := Object(Settle(p0, SnapshotOf(p0), doing, doing.Keys, today).(doing := Flag(false)))];
      && GetDoing(finished, uid) == Ok(Flag(false))
      && DeleteCheck(finished, uid).None?
  {
  }

  /** After a finish that settled some day other than today, the balance read back is the
      converted one: twice the old balance plus the bonus for the old daily points. A finish
      that settled only today leaves the balance as it was. */
  lemma CashesAfterFinish(users: map<string, UserNode>, uid: string, doing: map<string, Bucket>, today: string)
    requires uid in users && doing != map[]
    ensures var p0 := Fields(users[uid]);
      var snap := SnapshotOf(p0);
      var finished := users[uid := Object(Settle(p0, snap, doing, doing.Keys, today).(doing := Flag(false)))];
      && (doing.Keys != {today} ==> GetUserCashes(finished, uid) == Ok(CashAfter(snap)))
      && (doing.Keys == {today} ==> GetUserCashes(finished, uid) == GetUserCashes(users, uid))
  {
    var p0 := Fields(users[uid]);
    SettleClosedForm(p0, SnapshotOf(p0), doing, doing.Keys, today);
  }
}
