/** The input checks of src/auth/auth.controller.ts: the e-mail pattern
      ^[A-Za-z0-9]([-_.]?[A-Za-z0-9])*@[A-Za-z0-9]([-_.]?[A-Za-z0-9])*\.[A-Za-z]{2,3}$
    written out as a recognizer, the six-digit code check, and the two endpoints that run
    them before calling the auth service. */
module AuthController {
  import opened Errors
  import opened Decimal
  import opened Datastore
  import AuthService

  const InvalidEmailFormat := HttpError(BadRequest, "INVALID_EMAIL_FORMAT")
  const InvalidAuthNumberFormat := HttpError(BadRequest, "INVALID_AUTH_NUMBER_FORMAT")

  predicate Letter(c: char) {
    'A' <= c <= 'Z' || 'a' <= c <= 'z'
  }

  predicate Alnum(c: char) {
    Letter(c) || IsDigit(c)
  }

  predicate Separator(c: char) {
    c == '-' || c == '_' || c == '.'
  }

  // ---------------------------------------------------------------------------------------
  // Words: [A-Za-z0-9]([-_.]?[A-Za-z0-9])*

  /** `([-_.]?[A-Za-z0-9])*` matched against the whole of `s`. A letter or digit can only be
      the mandatory part of a repetition, so the match never has to backtrack. */
  predicate WordTail(s: string)
    decreases |s|
  {
    if s == [] then true
    else if Alnum(s[0]) then WordTail(s[1..])
    else |s| >= 2 && Separator(s[0]) && Alnum(s[1]) && WordTail(s[2..])
  }

  /** `[A-Za-z0-9]([-_.]?[A-Za-z0-9])*` matched against the whole of `s`. */
  predicate Word(s: string) {
    |s| >= 1 && Alnum(s[0]) && WordTail(s[1..])
  }

  /** Only letters, digits and separators, and every separator is followed by a letter or
      digit. */
  predicate Separated(s: string) {
    && (forall i :: 0 <= i < |s| ==> Alnum(s[i]) || Separator(s[i]))
    && (forall i :: 0 <= i < |s| - 1 && Separator(s[i]) ==> Alnum(s[i + 1]))
  }

  /** A word described without the pattern: it starts and ends with a letter or digit, uses
      only letters, digits and `-_.`, and has no two separators side by side. */
  predicate WordShape(s: string) {
    && |s| >= 1 && Alnum(s[0]) && Alnum(s[|s| - 1])
    && Separated(s)
    && (forall i :: 0 <= i < |s| - 1 ==> !(Separator(s[i]) && Separator(s[i + 1])))
  }

  lemma {:induction false} WordTailShape(s: string)
    ensures WordTail(s) <==> (s == [] || Alnum(s[|s| - 1])) && Separated(s)
    decreases |s|
  {
    if s == [] {
    } else if Alnum(s[0]) {
      var t := s[1..];
      WordTailShape(t);
      assert forall i :: 0 <= i < |t| ==> t[i] == s[i + 1];
      if WordTail(t) {
        forall i | 0 <= i < |s| - 1 && Separator(s[i])
          ensures Alnum(s[i + 1])
        {
          assert i != 0;
          assert t[i - 1] == s[i];
        }
      }
    } else if |s| >= 2 && Separator(s[0]) && Alnum(s[1]) {
      var t := s[2..];
      WordTailShape(t);
      assert forall i :: 0 <= i < |t| ==> t[i] == s[i + 2];
      if WordTail(t) {
        forall i | 0 <= i < |s| - 1 && Separator(s[i])
          ensures Alnum(s[i + 1])
        {
          if i >= 2 {
            assert t[i - 2] == s[i];
          }
        }
      }
    } else if |s| >= 2 && Separator(s[0]) {
      assert !Separated(s) by {
        assert !Alnum(s[1]);
      }
    }
  }

  /** The pattern of a word matches exactly the strings of that shape. */
  lemma WordIsShape(s: string)
    ensures Word(s) <==> WordShape(s)
  {
    if |s| >= 1 {
      var t := s[1..];
      WordTailShape(t);
      assert forall i :: 0 <= i < |t| ==> t[i] == s[i + 1];
      if Word(s) {
        assert Alnum(s[|s| - 1]) by {
          if |s| > 1 {
            assert t[|t| - 1] == s[|s| - 1];
          }
        }
        forall i | 0 <= i < |s| - 1 && Separator(s[i])
          ensures Alnum(s[i + 1])
        {
          assert t[i - 1] == s[i];
        }
      }
    }
  }

  // ---------------------------------------------------------------------------------------
  // Addresses.

  /** `[A-Za-z]{2,3}` matched against the whole of `t`. */
  predicate Tld(t: string) {
    (|t| == 2 || |t| == 3) && forall i :: 0 <= i < |t| ==> Letter(t[i])
  }

  /** What the pattern accepts: some `@` and some later `.` split the address into a word, a
      word and a top-level domain. */
  ghost predicate EmailPattern(s: string) {
    exists i, j :: SplitAt(s, i, j)
  }

  /** The position of the first `c` in `s`, or `|s|` when there is none. */
  function IndexOf(s: string, c: char): (n: nat)
    ensures n <= |s|
    ensures n < |s| ==> s[n] == c
    ensures forall k :: 0 <= k < n ==> s[k] != c
  {
    if s == [] then 0
    else if s[0] == c then 0
    else 1 + IndexOf(s[1..], c)
  }

  /** The part after the `@`: a word, a dot and a two- or three-letter domain, which can only
      be the last two or three characters. */
  predicate Domain(d: string) {
    || (|d| >= 4 && d[|d| - 3] == '.' && Tld(d[|d| - 2..]) && Word(d[..|d| - 3]))
    || (|d| >= 5 && d[|d| - 4] == '.' && Tld(d[|d| - 3..]) && Word(d[..|d| - 4]))
  }

  /** The recognizer: the word before the first `@`, then a domain. */
  predicate IsEmail(s: string) {
    var at := IndexOf(s, '@');
    at < |s| && Word(s[..at]) && Domain(s[at + 1..])
  }

  /** A word has no `@`. */
  lemma WordHasNoAt(w: string, k: int)
    requires Word(w) && 0 <= k < |w|
    ensures w[k] != '@'
  {
    WordIsShape(w);
  }

  /** The split of an accepted address: the `@` at `at`, the last `.` at `j`. */
  predicate SplitAt(s: string, at: int, j: int) {
    0 <= at < j < |s| && s[at] == '@' && s[j] == '.'
    && Word(s[..at]) && Word(s[at + 1..j]) && Tld(s[j + 1..])
  }

  /** The split the recognizer finds: the first `@`, and the dot three or four characters
      from the end. */
  lemma RecognizerSplit(s: string) returns (j: int)
    requires IsEmail(s)
    ensures SplitAt(s, IndexOf(s, '@'), j)
    ensures j == |s| - 3 || j == |s| - 4
  {
    var at := IndexOf(s, '@');
    var d := s[at + 1..];
    var n := if |d| >= 4 && d[|d| - 3] == '.' && Tld(d[|d| - 2..]) && Word(d[..|d| - 3]) then 2 else 3;
    j := |s| - n - 1;
    assert s[at + 1..j] == d[..|d| - n - 1];
    assert s[j + 1..] == d[|d| - n..];
    assert s[j] == d[|d| - n - 1];
  }

  /** A word, a dot and a top-level domain make a domain. */
  lemma DomainOfParts(d: string, n: int)
    requires 0 <= n < |d| && d[n] == '.' && Word(d[..n]) && Tld(d[n + 1..])
    ensures Domain(d)
  {
    if |d| - n - 1 == 2 {
      assert |d| >= 4 && d[|d| - 3] == '.' && Tld(d[|d| - 2..]) && Word(d[..|d| - 3]);
    } else {
      assert |d| >= 5 && d[|d| - 4] == '.' && Tld(d[|d| - 3..]) && Word(d[..|d| - 4]);
    }
  }

  /** The `@` of a split is the first one. */
  lemma SplitAtFirstAt(s: string, i: int, j: int)
    requires SplitAt(s, i, j)
    ensures IndexOf(s, '@') == i
  {
    forall k | 0 <= k < i
      ensures s[k] != '@'
    {
      WordHasNoAt(s[..i], k);
    }
  }

  /** Any split the pattern finds is the recognizer's. */
  lemma PatternSplit(s: string, i: int, j: int)
    requires SplitAt(s, i, j)
    ensures IsEmail(s)
  {
    SplitAtFirstAt(s, i, j);
    var d := s[i + 1..];
    assert d[..j - i - 1] == s[i + 1..j];
    assert d[j - i..] == s[j + 1..];
    DomainOfParts(d, j - i - 1);
  }

  /** The recognizer accepts exactly what the pattern accepts. */
  lemma IsEmailMatchesPattern(s: string)
    ensures IsEmail(s) <==> EmailPattern(s)
  {
    if IsEmail(s) {
      var j := RecognizerSplit(s);
      var at := IndexOf(s, '@');
      assert SplitAt(s, at, j);
    }
    if EmailPattern(s) {
      var i, j :| SplitAt(s, i, j);
      PatternSplit(s, i, j);
    }
  }

  /** An accepted address has exactly one `@`; the part before it is a word, so it starts and
      ends with a letter or digit, and no separator touches the `@` on either side. */
  lemma AcceptedLocalPart(s: string)
    requires IsEmail(s)
    ensures var at := IndexOf(s, '@');
      && 0 < at < |s| - 1
      && (forall k :: 0 <= k < |s| && s[k] == '@' ==> k == at)
      && WordShape(s[..at])
      && Alnum(s[at - 1]) && Alnum(s[at + 1])
  {
    var at := IndexOf(s, '@');
    var j := RecognizerSplit(s);
    var local, domain := s[..at], s[at + 1..j];
    WordIsShape(local);
    OnlyOneAt(s, at, j);
    assert s[at - 1] == local[at - 1];
    assert s[at + 1] == domain[0];
  }

  lemma OnlyOneAt(s: string, at: int, j: int)
    requires SplitAt(s, at, j)
    ensures forall k :: 0 <= k < |s| && s[k] == '@' ==> k == at
  {
    var local, domain := s[..at], s[at + 1..j];
    forall k | 0 <= k < |s| && s[k] == '@'
      ensures k == at
    {
      if k < at {
        assert local[k] == s[k];
        WordHasNoAt(local, k);
      } else if at < k < j {
        assert domain[k - at - 1] == s[k];
        WordHasNoAt(domain, k - at - 1);
      }
    }
  }

  /** After the `@` comes a word in the same sense, then a `.` and two or three letters that
      end the address. */
  lemma AcceptedDomain(s: string) returns (j: int)
    requires IsEmail(s)
    ensures j == |s| - 3 || j == |s| - 4
    ensures IndexOf(s, '@') + 1 < j && s[j] == '.'
    ensures forall k :: j < k < |s| ==> Letter(s[k])
    ensures WordShape(s[IndexOf(s, '@') + 1..j])
  {
    var at := IndexOf(s, '@');
    j := RecognizerSplit(s);
    var tld := s[j + 1..];
    WordIsShape(s[at + 1..j]);
    forall k | j < k < |s|
      ensures Letter(s[k])
    {
      assert tld[k - j - 1] == s[k];
    }
  }

  // ---------------------------------------------------------------------------------------
  // Codes and the endpoints.

  /** `^\d{6}$`: exactly six ASCII digits. */
  predicate IsAuthNumber(s: string) {
    |s| == 6 && AllDigits(s)
  }

  /** Every code the service issues passes the controller's check. */
  lemma IssuedCodePassesCheck(random: real)
    requires 0.0 <= random < 1.0
    ensures IsAuthNumber(AuthService.AuthCode(random))
  {
    AuthService.AuthCodeDigits(random);
  }

  /** The checks of the verify endpoint: the address first, then the code. */
  function VerifyInputCheck(email: string, authNumber: string): (r: Option<HttpError>)
    ensures r == Some(InvalidEmailFormat) <==> !IsEmail(email)
    ensures r == Some(InvalidAuthNumberFormat) <==> IsEmail(email) && !IsAuthNumber(authNumber)
    ensures r.None? <==> IsEmail(email) && IsAuthNumber(authNumber)
  {
    if !IsEmail(email) then Some(InvalidEmailFormat)
    else if !IsAuthNumber(authNumber) then Some(InvalidAuthNumberFormat)
    else None
  }

  /** `POST auth/email`: a malformed address is refused before the service runs; otherwise the
      service's response is passed on (it only throws HttpExceptions, which pass through). */
  method RequestEmailVerification(db: Database, email: string, mode: string, random: real, now: int,
                                  hash: string -> string, mail: AuthService.MailOutcome)
    returns (r: Result<()>)
    requires 0.0 <= random < 1.0
    modifies db
    ensures !IsEmail(email) ==> r == Err(InvalidEmailFormat) && db.verifications == old(db.verifications)
    ensures IsEmail(email) ==>
      var pre := AuthService.SendPrecheck(AuthService.EmailRegistered(old(db.users), email), mode);
      && (pre.Some? ==> r == Err(pre.value) && db.verifications == old(db.verifications))
      && (pre.None? ==>
            (r == AuthService.MailResult(mail)
             && db.verifications == old(db.verifications)[AuthService.KeyOf(email, mode, hash) :=
                                                            AuthService.Issued(random, now)]))
    ensures db.users == old(db.users) && db.exercise == old(db.exercise) && db.accounts == old(db.accounts)
  {
    if !IsEmail(email) {
      return Err(ControllerThrow(Http(InvalidEmailFormat)));
    }
    r := AuthService.SendEmailVerificationMail(db, email, mode, random, now, hash, mail);
    if r.Err? {
      r := Err(ControllerThrow(Http(r.failure)));
    }
  }

  /** `POST auth/verify`: the address is checked before the code, both before the service
      runs; otherwise the service's response is passed on. */
  method VerifyEmailWithAuthNumber(db: Database, email: string, mode: string, authNumber: string, now: int,
                                   hash: string -> string)
    returns (r: Result<()>)
    modifies db
    ensures var input := VerifyInputCheck(email, authNumber);
      var key := AuthService.KeyOf(email, mode, hash);
      var check := AuthService.VerifyCheck(Lookup(old(db.verifications), key), authNumber, now);
      && (input.Some? ==> r == Err(input.value) && db.verifications == old(db.verifications))
      && (input.None? && check.Some? ==> r == Err(check.value) && db.verifications == old(db.verifications))
      && (input.None? && check.None? ==> r == Ok(()) && db.verifications == old(db.verifications) - {key})
    ensures db.users == old(db.users) && db.exercise == old(db.exercise) && db.accounts == old(db.accounts)
  {
    var input := VerifyInputCheck(email, authNumber);
    if input.Some? {
      return Err(ControllerThrow(Http(input.value)));
    }
    r := AuthService.VerifyEmailWithAuthNumber(db, email, mode, authNumber, now, hash);
    if r.Err? {
      r := Err(ControllerThrow(Http(r.failure)));
    }
  }
}
