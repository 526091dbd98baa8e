/** The verification ledger of src/auth/auth.service.ts: issuing a six-digit code for an
    e-mail address (sign-up or password reset) and consuming it. Records live at
    <collection>/<hash of the address>; the hash, the clock, the random draw and the outcome of
    sending the mail are parameters. */
module AuthService {
  import opened Errors
  import opened Decimal
  import opened Datastore

  /** Five minutes, in milliseconds. */
  const ExpiryMillis := 1000 * 60 * 5

  const DuplicateEmail := HttpError(BadRequest, "DUPLICATE_EMAIL")
  const NoSignupEmail := HttpError(BadRequest, "NO_SIGNUP_EMAIL")
  const VerificationNotFound := HttpError(NotFound, "VERIFICATION_NOT_FOUND")
  const MissingVerificationData := HttpError(BadRequest, "MISSING_VERIFICATION_DATA")
  const MissingExpirationTime := HttpError(BadRequest, "MISSING_EXPIRATION_TIME")
  const VerificationExpired := HttpError(Forbidden, "VERIFICATION_EXPIRED")
  const InvalidAuthNumber := HttpError(BadRequest, "INVALID_AUTH_NUMBER")

  /** The statuses each catch block rethrows unchanged. */
  const SendRethrows: set<Status> := {BadRequest}
  const VerifyRethrows: set<Status> := {BadRequest, Forbidden, NotFound}

  /** The collection a mode selects: sign-up codes for exactly "signup", reset codes for any
      other mode. Sending and verifying use this same choice. */
  function NamespaceOf(mode: string): (n: Namespace)
    ensures n == EmailVerifications <==> mode == "signup"
    ensures n == PasswordReset <==> mode != "signup"
  {
    if mode == "signup" then EmailVerifications else PasswordReset
  }

  /** The record of an address under a mode. */
  function KeyOf(email: string, mode: string, hash: string -> string): (k: RecordKey)
    ensures k.namespace == NamespaceOf(mode) && k.digest == hash(email)
  {
    RecordKey(NamespaceOf(mode), hash(email))
  }

  /** The query `users` ordered by `emailId` and equal to `to` finds a user. */
  predicate EmailRegistered(users: map<string, UserNode>, to: string) {
    exists uid :: uid in users && users[uid].Object? && users[uid].profile.emailId == Some(to)
  }

  /** The two refusals before a code is issued: sign-up of a registered address, reset of an
      unregistered one. Any other mode passes both checks. */
  function SendPrecheck(registered: bool, mode: string): (r: Option<HttpError>)
    ensures r == Some(DuplicateEmail) <==> registered && mode == "signup"
    ensures r == Some(NoSignupEmail) <==> !registered && mode == "reset"
    ensures r.None? <==> (registered ==> mode != "signup") && (!registered ==> mode != "reset")
  {
    if registered && mode == "signup" then Some(DuplicateEmail)
    else if !registered && mode == "reset" then Some(NoSignupEmail)
    else None
  }

  /** `String(Math.floor(random * 1000000)).padStart(6, '0')` for a draw in [0, 1). */
  function AuthCode(random: real): string
    requires 0.0 <= random < 1.0
  {
    Field((random * 1000000.0).Floor as nat, 6)
  }

  /** The code is six digits and keeps its leading zeros: it reads back as the drawn number. */
  lemma AuthCodeDigits(random: real)
    requires 0.0 <= random < 1.0
    ensures var code := AuthCode(random);
      |code| == 6 && AllDigits(code) && Value(code) == (random * 1000000.0).Floor
      && 0 <= Value(code) < 1000000
  {
    var n := (random * 1000000.0).Floor;
    assert 0 <= n < 1000000;
    assert Pow10(6) == 1000000;
    FieldRoundTrip(n, 6);
  }

  /** The record written at `now`: the code and an expiry five minutes later. */
  function Issued(random: real, now: int): (v: VerificationNode)
    requires 0.0 <= random < 1.0
    ensures v.Entry? && v.authNumber == Some(AuthCode(random)) && v.expiresAt == Some(now + 300000)
  {
    Entry(Some(AuthCode(random)), Some(now + ExpiryMillis))
  }

  /** What sending the mail did. */
  datatype MailOutcome = Delivered | MailFailed(thrown: Thrown)

  /** The response once the record is written: success, or the mailer's error as the catch
      block classifies it. */
  function MailResult(mail: MailOutcome): (r: Result<()>)
    ensures mail == Delivered <==> r == Ok(())
    ensures mail.MailFailed? ==> r == Err(RethrowOrMap(mail.thrown, SendRethrows))
  {
    match mail
    case Delivered => Ok(())
    case MailFailed(t) => Err(RethrowOrMap(t, SendRethrows))
  }

  /** `sendEmailVeficationMail`: a refused request writes nothing; otherwise the whole record
      at the address's key is replaced before the mail goes out, and stays there whatever the
      mailer does. */
  method SendEmailVerificationMail(db: Database, to: string, mode: string, random: real, now: int,
                                   hash: string -> string, mail: MailOutcome)
    returns (r: Result<()>)
    requires 0.0 <= random < 1.0
    modifies db
    ensures var pre := SendPrecheck(EmailRegistered(old(db.users), to), mode);
      && (pre.Some? ==> r == Err(pre.value) && db.verifications == old(db.verifications))
      && (pre.None? ==>
            (r == MailResult(mail)
             && db.verifications == old(db.verifications)[KeyOf(to, mode, hash) := Issued(random, now)]))
    ensures db.users == old(db.users) && db.exercise == old(db.exercise) && db.accounts == old(db.accounts)
  {
    var registered := EmailRegistered(db.users, to);
    var pre := SendPrecheck(registered, mode);
    if pre.Some? {
      return Err(RethrowOrMap(Http(pre.value), SendRethrows));
    }
    var authNumber := AuthCode(random);
    var expiresAt := now + ExpiryMillis;
    var key := RecordKey(NamespaceOf(mode), hash(to));
    db.verifications := db.verifications[key := Entry(Some(authNumber), Some(expiresAt))];
    match mail
    case Delivered =>
      r := Ok(());
    case MailFailed(t) =>
      r := Err(RethrowOrMap(t, SendRethrows));
  }

  /** The checks of a verification, in order: the record exists, it is truthy, it has a
      truthy expiry, the expiry has not passed (equal is still valid), and the code matches.
      Each error is reported exactly when every earlier check passed and its own failed. */
  function VerifyCheck(node: Option<VerificationNode>, authNumber: string, now: int): (r: Option<HttpError>)
    ensures r == Some(VerificationNotFound) <==> node.None?
    ensures r == Some(MissingVerificationData) <==> node == Some(FalsyValue)
    ensures r == Some(MissingExpirationTime) <==>
      (node.Some? && node.value.Entry? && (node.value.expiresAt.None? || node.value.expiresAt == Some(0)))
    ensures r == Some(VerificationExpired) <==>
      (node.Some? && node.value.Entry? && node.value.expiresAt.Some? && node.value.expiresAt.value != 0
       && node.value.expiresAt.value < now)
    ensures r == Some(InvalidAuthNumber) <==>
      (node.Some? && node.value.Entry? && node.value.expiresAt.Some? && node.value.expiresAt.value != 0
       && node.value.expiresAt.value >= now && node.value.authNumber != Some(authNumber))
    ensures r.None? <==>
      (node.Some? && node.value.Entry? && node.value.expiresAt.Some? && node.value.expiresAt.value != 0
       && node.value.expiresAt.value >= now && node.value.authNumber == Some(authNumber))
  {
    match node
    case None => Some(VerificationNotFound)
    case Some(FalsyValue) => Some(MissingVerificationData)
    case Some(Entry(code, expiresAt)) =>
      if expiresAt.None? || expiresAt.value == 0 then Some(MissingExpirationTime)
      else if expiresAt.value < now then Some(VerificationExpired)
      else if code != Some(authNumber) then Some(InvalidAuthNumber)
      else None
  }

  /** `verifyEmailWithAuthNumber`: a failed check changes nothing; a passed one removes the
      record, so a code is consumed once. */
  method VerifyEmailWithAuthNumber(db: Database, email: string, mode: string, authNumber: string, now: int,
                                   hash: string -> string)
    returns (r: Result<()>)
    modifies db
    ensures var key := KeyOf(email, mode, hash);
      var check := VerifyCheck(Lookup(old(db.verifications), key), authNumber, now);
      && (check.Some? ==> r == Err(check.value) && db.verifications == old(db.verifications))
      && (check.None? ==> r == Ok(()) && db.verifications == old(db.verifications) - {key})
    ensures db.users == old(db.users) && db.exercise == old(db.exercise) && db.accounts == old(db.accounts)
  {
    var key := RecordKey(NamespaceOf(mode), hash(email));
    var check := VerifyCheck(Lookup(db.verifications, key), authNumber, now);
    if check.Some? {
      VerifyErrorsPassThrough(check.value);
      return Err(RethrowOrMap(Http(check.value), VerifyRethrows));
    }
    db.verifications := db.verifications - {key};
    r := Ok(());
  }

  /** The catch blocks let the service's own refusals through unchanged. */
  lemma VerifyErrorsPassThrough(e: HttpError)
    requires e in {VerificationNotFound, MissingVerificationData, MissingExpirationTime,
                   VerificationExpired, InvalidAuthNumber}
    ensures RethrowOrMap(Http(e), VerifyRethrows) == e
  {
  }

  /** A code verified with the address and mode it was sent for, no later than its expiry,
      is accepted; once consumed, verifying again reports that there is no record. */
  lemma SendThenVerify(verifications: map<RecordKey, VerificationNode>, email: string, mode: string,
                       random: real, now: int, t: int, t': int, code: string, hash: string -> string)
    requires 0.0 <= random < 1.0 && now >= 0
    requires t <= now + ExpiryMillis
    ensures var key := KeyOf(email, mode, hash);
      var sent := verifications[key := Issued(random, now)];
      && VerifyCheck(Lookup(sent, key), AuthCode(random), t).None?
      && VerifyCheck(Lookup(sent - {key}, key), code, t') == Some(VerificationNotFound)
  {
  }

  /** After a send at `now`, the issued code is accepted at time `t` exactly when `t` is at
      most five minutes later; any other code is refused while the record is valid. */
  lemma CodeValidForFiveMinutes(verifications: map<RecordKey, VerificationNode>, email: string, mode: string,
                                random: real, now: int, t: int, code: string, hash: string -> string)
    requires 0.0 <= random < 1.0 && now >= 0
    ensures var key := KeyOf(email, mode, hash);
      var sent := verifications[key := Issued(random, now)];
      && (VerifyCheck(Lookup(sent, key), AuthCode(random), t).None? <==> t <= now + 300000)
      && (t > now + 300000 ==> VerifyCheck(Lookup(sent, key), code, t) == Some(VerificationExpired))
      && (t <= now + 300000 && code != AuthCode(random) ==>
            VerifyCheck(Lookup(sent, key), code, t) == Some(InvalidAuthNumber))
  {
  }

  /** A send replaces the record: only the latest code of an address and mode is accepted. */
  lemma ResendReplacesCode(verifications: map<RecordKey, VerificationNode>, email: string, mode: string,
                           first: real, second: real, now: int, later: int, t: int, hash: string -> string)
    requires 0.0 <= first < 1.0 && 0.0 <= second < 1.0 && now >= 0 && later >= 0
    requires AuthCode(first) != AuthCode(second)
    requires t <= later + ExpiryMillis
    ensures var key := KeyOf(email, mode, hash);
      var sent := verifications[key := Issued(first, now)][key := Issued(second, later)];
      && VerifyCheck(Lookup(sent, key), AuthCode(first), t) == Some(InvalidAuthNumber)
      && VerifyCheck(Lookup(sent, key), AuthCode(second), t).None?
  {
  }

  /** The hash is not assumed to be injective: two addresses with the same digest share one
      record, so a code sent to one is accepted for the other. */
  lemma SharedDigestSharesRecord(verifications: map<RecordKey, VerificationNode>, a: string, b: string,
                                 mode: string, random: real, now: int, t: int, hash: string -> string)
    requires 0.0 <= random < 1.0 && now >= 0 && t <= now + ExpiryMillis
    requires hash(a) == hash(b)
    ensures var sent := verifications[KeyOf(a, mode, hash) := Issued(random, now)];
      VerifyCheck(Lookup(sent, KeyOf(b, mode, hash)), AuthCode(random), t).None?
  {
  }

  /** A sign-up code and a reset code of one address are separate records: issuing one leaves
      the other as it was. */
  lemma ModesAreSeparate(verifications: map<RecordKey, VerificationNode>, email: string, mode: string,
                         random: real, now: int, hash: string -> string)
    requires 0.0 <= random < 1.0
    ensures var other := if mode == "signup" then "reset" else "signup";
      var sent := verifications[KeyOf(email, mode, hash) := Issued(random, now)];
      Lookup(sent, KeyOf(email, other, hash)) == Lookup(verifications, KeyOf(email, other, hash))
  {
  }
}
