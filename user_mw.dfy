/** The login middlewares of src/middlewares/user.middleware.ts: the user
    lookup by e-mail, the verified-e-mail guard, the password check with its
    attempt counter on the user_security row, and the e-mail code
    validator.  The bcrypt comparison is a boolean given to the model. */
module UserMw {
  import opened Common
  import opened Strings
  import opened Store

  /** The JavaScript value of `email_verified` as the driver hands it over. */
  datatype Flag = FlagBool(b: bool) | FlagNum(n: int) | FlagText(t: string) | FlagNone

  /** A row of `users` (its id is its index plus one), as far as login
      reads it. */
  datatype User = User(email: string, passwordHash: string, emailVerified: Flag)

  /** loadUserByEmail: 400 for a missing or empty e-mail, 404 when no user
      has it, else the first match becomes `res.locals.user` (its index). */
  function LoadUserByEmail(users: seq<User>, email: Field): (r: Result<nat, Outcome>)
    ensures r == Err(Respond(400, "Email is required")) <==> !FieldTruthy(email)
    ensures r == Err(Respond(404, "User not found")) <==>
      FieldTruthy(email) && forall j :: 0 <= j < |users| ==> users[j].email != email.s
    ensures r.Ok? ==> r.value < |users| && users[r.value].email == FieldText(email)
                      && forall j :: 0 <= j < r.value ==> users[j].email != FieldText(email)
  {
    if !FieldTruthy(email) then Err(Respond(400, "Email is required"))
    else match FirstWhere(users, (u: User) => u.email == email.s, 0)
      case None => Err(Respond(404, "User not found"))
      case Some(i) => Ok(i)
  }

  /** requireEmailVerified: on only for `true`, `1` or `'1'`. */
  function RequireEmailVerified(v: Flag): (o: Outcome)
    ensures o == Next <==> v == FlagBool(true) || v == FlagNum(1) || v == FlagText("1")
    ensures o != Next ==> o == Respond(403, "Email not verified")
  {
    if v == FlagBool(true) || v == FlagNum(1) || v == FlagText("1") then Next
    else Respond(403, "Email not verified")
  }

  /** The TINYINT column read back as 0 or 1 passes exactly when it is 1,
      while the text "true" and other numbers are refused. */
  lemma EmailVerifiedValues(n: int)
    ensures RequireEmailVerified(FlagNum(n)) == Next <==> n == 1
    ensures RequireEmailVerified(FlagText("true")) != Next
    ensures RequireEmailVerified(FlagBool(false)) != Next && RequireEmailVerified(FlagNone) != Next
  {
    assert FlagText("true") != FlagText("1") by {
      assert "true"[0] != "1"[0];
    }
  }

  /** `Math.max(0, attempts - 1)`. */
  function Remaining(attempts: int): (r: nat)
    ensures attempts > 0 ==> r == attempts - 1
    ensures attempts <= 0 ==> r == 0
  {
    if attempts - 1 > 0 then attempts - 1 else 0
  }

  /** `n` failures in a row, each through `Remaining`, leave
      `max(0, attempts - n)`. */
  function Drain(attempts: int, n: nat): int
    decreases n
  {
    if n == 0 then attempts else Drain(Remaining(attempts), n - 1)
  }

  lemma {:induction false} DrainFloor(attempts: int, n: nat)
    requires n >= 1
    ensures Drain(attempts, n) == if attempts - n > 0 then attempts - n else 0
    decreases n
  {
    if n > 1 {
      DrainFloor(Remaining(attempts), n - 1);
    }
  }

  const LockedMessage := "UserSecurity locked"

  /** What isPasswordCorrect answers and what it leaves in the attempt
      counter of the caller's security row (None: there is no row). */
  function PasswordStep(attempts: Option<int>, passwordMatch: bool): (r: (Outcome, Option<int>))
  {
    match attempts
    case None =>
      if passwordMatch then (Next, None) else (Respond(401, "Incorrect password"), None)
    case Some(a) =>
      if a <= 0 then (Respond(401, LockedMessage), attempts)
      else if !passwordMatch then
        var remaining := Remaining(a);
        if remaining <= 0 then (Respond(401, LockedMessage), Some(remaining))
        else (Respond(401, "Incorrect password, you have " + NatText(remaining) + " attempts left"),
              Some(remaining))
      else (Next, Some(if a < 5 then 5 else a))
  }

  /** The counter's rules: a locked row (attempts <= 0) is refused whatever
      the password and keeps its counter; a wrong password costs one
      attempt and says "locked" exactly when none are left; a right one
      goes on and tops the counter up to 5; without a row nothing is
      counted. */
  lemma PasswordStepRules(attempts: Option<int>, passwordMatch: bool)
    ensures var (o, after) := PasswordStep(attempts, passwordMatch);
      (after.None? <==> attempts.None?)
      && (o == Next <==> passwordMatch && (attempts.None? || attempts.value > 0))
      && (o != Next ==> o.status == 401)
      && (attempts.Some? && attempts.value <= 0 ==> o == Respond(401, LockedMessage) && after == attempts)
      && (attempts.Some? && attempts.value > 0 && !passwordMatch ==>
            after == Some(attempts.value - 1) && (o == Respond(401, LockedMessage) <==> attempts.value == 1))
      && (attempts.Some? && attempts.value > 0 && passwordMatch ==>
            after.value >= 5 && after.value >= attempts.value
            && (attempts.value >= 5 ==> after == attempts))
      && (attempts.None? && !passwordMatch ==> o == Respond(401, "Incorrect password"))
  {
    if attempts.Some? && attempts.value > 0 && !passwordMatch {
      var m := "Incorrect password, you have " + NatText(attempts.value - 1) + " attempts left";
      assert m[0] == 'I' && LockedMessage[0] == 'U';
    }
  }

  /** The counter after a run of logins on one row, each right or wrong. */
  function Replay(attempts: int, tries: seq<bool>): int
    decreases tries
  {
    if tries == [] then attempts else Replay(PasswordStep(Some(attempts), tries[0]).1.value, tries[1..])
  }

  /** A locked row stays locked, whatever passwords follow. */
  lemma {:induction false} LockedStaysLocked(attempts: int, tries: seq<bool>)
    requires attempts <= 0
    ensures Replay(attempts, tries) == attempts
  {
    if tries != [] {
      LockedStaysLocked(attempts, tries[1..]);
    }
  }

  /** As many wrong passwords in a row as there are attempts left lock the
      row; from a counter of at most 5 and at least 0, any run keeps it
      between 0 and 5. */
  lemma {:induction false} WrongPasswordsLock(attempts: nat, tries: seq<bool>)
    requires |tries| >= attempts && forall k :: 0 <= k < |tries| ==> !tries[k]
    ensures Replay(attempts, tries) == 0
  {
    if tries != [] {
      if attempts == 0 {
        LockedStaysLocked(0, tries);
      } else {
        WrongPasswordsLock(attempts - 1, tries[1..]);
      }
    }
  }

  lemma {:induction false} ReplayBounds(attempts: int, tries: seq<bool>)
    requires 0 <= attempts <= 5
    ensures 0 <= Replay(attempts, tries) <= 5
    decreases tries
  {
    if tries != [] {
      ReplayBounds(PasswordStep(Some(attempts), tries[0]).1.value, tries[1..]);
    }
  }

  /** isPasswordCorrect on the caller's security row `sec` (None: no row in
      `res.locals`): the counter is written back only where the source
      calls updateAttemptsLeft, and nothing else changes. */
  method IsPasswordCorrect(db: Db, sec: Option<nat>, passwordMatch: bool) returns (o: Outcome)
    requires sec.Some? ==> sec.value < |db.security|
    modifies db`security
    ensures sec.None? ==> db.security == old(db.security) && (o, None) == PasswordStep(None, passwordMatch)
    ensures sec.Some? ==>
      var row := old(db.security[sec.value]);
      var (o', after) := PasswordStep(Some(row.attempts), passwordMatch);
      o == o' && db.security == old(db.security)[sec.value := row.(attempts := after.value)]
  {
    if sec.Some? && db.security[sec.value].attempts <= 0 {
      return Respond(401, LockedMessage);
    }
    if !passwordMatch {
      if sec.Some? {
        var i := sec.value;
        var remaining := Remaining(db.security[i].attempts);
        db.security := db.security[i := db.security[i].(attempts := remaining)];
        if remaining <= 0 {
          return Respond(401, LockedMessage);
        }
        return Respond(401, "Incorrect password, you have " + NatText(remaining) + " attempts left");
      }
      return Respond(401, "Incorrect password");
    }
    if sec.Some? && db.security[sec.value].attempts < 5 {
      var i := sec.value;
      db.security := db.security[i := db.security[i].(attempts := 5)];
    }
    return Next;
  }

  const CodeRequired := "code is required"
  const CodeNotString := "code must be a string"
  const CodeNotSixDigits := "code must be 6 digits"

  predicate SixDigits(s: string) {
    |s| == 6 && AllDigits(s)
  }

  /** codeValid: `exists` (stops the chain), `isString`, then the trimmed
      text must match `^\d{6}$`; the messages of the failed checks. */
  function CodeFailures(code: Field): (r: seq<string>)
    ensures r == [] <==> code.Str? && SixDigits(Trim(code.s))
    ensures code.Absent? ==> r == [CodeRequired]
    ensures code.Null? ==> r == [CodeNotString, CodeNotSixDigits]
  {
    if code.Absent? then [CodeRequired]
    else if code.Null? then
      // null fails isString, and reads as the empty text for the pattern
      [CodeNotString, CodeNotSixDigits]
    else if !SixDigits(Trim(code.s)) then [CodeNotSixDigits]
    else []
  }

  /** Text made of digits alone is accepted exactly when it is six long. */
  lemma CodeDigits(d: string)
    requires AllDigits(d)
    ensures CodeFailures(Str(d)) == if |d| == 6 then [] else [CodeNotSixDigits]
  {
    DigitsTrimmed(d);
    if |d| != 6 {
      CodeWrongLength(d);
    }
  }

  /** A string whose trimmed text is not six long gets the one message. */
  lemma CodeWrongLength(s: string)
    requires |Trim(s)| != 6
    ensures CodeFailures(Str(s)) == [CodeNotSixDigits]
  {
  }

  /** Text of digits has nothing to trim. */
  lemma DigitsTrimmed(d: string)
    requires AllDigits(d)
    ensures Trim(d) == d
  {
    if d != [] {
      assert IsDigit(d[0]) && IsDigit(d[|d| - 1]);
    }
    assert TrimLeft(d) == d;
  }
}
