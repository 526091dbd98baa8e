/** The realtime-database tree the services read and write, as one object with a map per
    top-level node:
      users/<uid>                       a user's profile
      exercise/<uid>/doing/<day>/<time> samples of the workout in progress
      exercise/<uid>/done/<day>/<time>  archived samples
      email_verifications/<hash>, password_reset/<hash>   pending verification codes
    and the set of accounts of the identity provider. An absent child and an empty one are
    the same thing in the database; the model reads both as "absent". */
module Datastore {
  import opened Errors

  /** The `doing` field of a profile: absent, a boolean, or some other (truthy) value. */
  datatype Doing = Unset | Flag(value: bool) | Other

  /** The fields of users/<uid> the services read. `weight` is what the exercise service
      reads; `Weight` (capital W) is what the profile projection reads. */
  datatype Profile = Profile(
    name: Option<string>,
    email: Option<string>,
    emailId: Option<string>,
    birth: Option<string>,
    sex: Option<string>,
    weight: Option<real>,
    Weight: Option<real>,
    dailyPoints: Option<real>,
    monthPoints: Option<real>,
    cashes: Option<real>,
    doing: Doing)

  const EmptyProfile := Profile(None, None, None, None, None, None, None, None, None, None, Unset)

  /** The value stored at users/<uid>: an object, or a falsy scalar (such as 0 or false),
      which has no fields and spreads into an empty object. */
  datatype UserNode = Object(profile: Profile) | FalsyScalar

  /** The fields of a node as property reads and `{...node}` see them. */
  function Fields(node: UserNode): Profile {
    match node
    case Object(p) => p
    case FalsyScalar => EmptyProfile
  }

  /** A child as `once('value')` reads it: `None` when it does not exist. */
  function Lookup<K, V>(m: map<K, V>, k: K): (r: Option<V>)
    ensures r.Some? <==> k in m
    ensures r.Some? ==> r.value == m[k]
  {
    if k in m then Some(m[k]) else None
  }

  /** A JavaScript string is truthy when it is not empty. */
  predicate Truthy(s: Option<string>) {
    s.Some? && s.value != ""
  }

  /** A JavaScript number is truthy when it is not 0 (NaN is not modelled). */
  predicate TruthyNumber(x: Option<real>) {
    x.Some? && x.value != 0.0
  }

  /** One activity sample, stored under its time key. */
  datatype Sample = Sample(velocity: real, points: real, kcal: real, movetime: real)

  /** The samples of one day, by time key. The database never stores an empty object, so a
      stored bucket has at least one sample; the type also admits the empty map, a state the
      program never reaches. */
  type Bucket = map<string, Sample>

  /** exercise/<uid>: the open workout's buckets and the archived ones, by day key. */
  datatype ExerciseLog = ExerciseLog(doing: map<string, Bucket>, done: map<string, Bucket>)

  const EmptyLog := ExerciseLog(map[], map[])

  /** The two verification collections. */
  datatype Namespace = EmailVerifications | PasswordReset

  /** `<collection>/<hash of the email>`. */
  datatype RecordKey = RecordKey(namespace: Namespace, digest: string)

  /** A verification record, or a falsy value stored in its place. The `createdAt` server
      timestamp is written but never read, and is not modelled. */
  datatype VerificationNode = Entry(authNumber: Option<string>, expiresAt: Option<int>) | FalsyValue

  /** The database and the identity provider's accounts. */
  class Database {
    var users: map<string, UserNode>
    var exercise: map<string, ExerciseLog>
    var verifications: map<RecordKey, VerificationNode>
    var accounts: set<string>

    constructor()
      ensures users == map[] && exercise == map[] && verifications == map[] && accounts == {}
    {
      users := map[];
      exercise := map[];
      verifications := map[];
      accounts := {};
    }

    /** exercise/<uid>, with an absent node read as the empty log. */
    function LogOf(uid: string): ExerciseLog
      reads this
    {
      if uid in exercise then exercise[uid] else EmptyLog
    }
  }
}
