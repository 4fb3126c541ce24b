/** The two-factor login middlewares of
    src/middlewares/user-security.middleware.ts: the token validator, the
    security-row lookup, the registration of a 2FA secret, and the token
    check with its attempt counter.  The TOTP check and the generated
    secret are given to the model. */
module UserSecurityMw {
  import opened Common
  import opened Strings
  import opened Store
  import opened Validators
  import opened UserMw

  const TokenRequired := "Token in body is required"
  const TokenNotSix := "Token must be 6 digits"
  const TokenNotNumeric := "Token must be numeric"

  /** tokenValid2FA: `exists`, `isLength` 6..6 and `isNumeric`, each
      stopping the chain when it fails; the message of the failed check. */
  function TokenFailures(token: Field): (r: seq<string>)
    ensures |r| <= 1
    ensures r == [] <==> token.Str? && |token.s| == 6 && IsNumeric(token.s)
    ensures token.Absent? <==> r == [TokenRequired]
  {
    if token.Absent? then [TokenRequired]
    else if MeasuredLength(FieldText(token)) != 6 then
      assert TokenNotSix[6] != TokenRequired[6];
      if token.Str? && IsNumeric(token.s) then
        NumericMeasured(token.s);
        [TokenNotSix]
      else [TokenNotSix]
    else if !IsNumeric(FieldText(token)) then
      assert TokenNotNumeric[6] != TokenRequired[6];
      [TokenNotNumeric]
    else
      NumericMeasured(token.s);
      []
  }

  /** Six characters that `isNumeric` takes pass, so a sign or a decimal
      point gets through ("+12345", "1.2345"); a letter does not; null is
      read as the empty string. */
  lemma TokenExamples()
    ensures TokenFailures(Str("123456")) == []
    ensures TokenFailures(Str("+12345")) == []
    ensures TokenFailures(Str("1.2345")) == []
    ensures TokenFailures(Str("12345a")) == [TokenNotNumeric]
    ensures TokenFailures(Null) == [TokenNotSix]
  {
    TokenDigits();
    TokenSign();
    TokenPoint();
    TokenLetter();
  }

  lemma TokenDigits()
    ensures TokenFailures(Str("123456")) == []
  {
    assert SignStripped("123456") == "123456" && AllDigits("123456");
    SixNumeric("123456");
  }

  lemma TokenSign()
    ensures TokenFailures(Str("+12345")) == []
  {
    assert SignStripped("+12345") == "12345" && AllDigits("12345");
    SixNumeric("+12345");
  }

  lemma TokenPoint()
    ensures TokenFailures(Str("1.2345")) == []
  {
    var t := "1.2345";
    assert SignStripped(t) == t;
    assert t[..1] == "1" && t[2..] == "2345" && AllDigits("1") && AllDigits("2345");
    SixNumeric(t);
  }

  lemma TokenLetter()
    ensures TokenFailures(Str("12345a")) == [TokenNotNumeric]
  {
    var u := "12345a";
    assert SignStripped(u) == u;
    if IsNumeric(u) {
      NumericChar(u, 5);
    }
    SixNotNumeric(u);
  }

  /** Six characters of numeric text pass. */
  lemma SixNumeric(t: string)
    requires |t| == 6 && IsNumeric(t)
    ensures TokenFailures(Str(t)) == []
  {
  }

  /** Six characters, none a presentation selector, that are not numeric
      get the numeric message. */
  lemma SixNotNumeric(t: string)
    requires |t| == 6 && !IsNumeric(t)
    requires forall i :: 0 <= i < |t| ==> !IsPresentationSelector(t[i])
    ensures TokenFailures(Str(t)) == [TokenNotNumeric]
  {
    MeasuredPlain(t);
  }

  /** A truthy `secret_2fa`: stored and not empty. */
  predicate HasSecret(row: Security) {
    row.secret.Some? && row.secret.value != []
  }

  const NoSecretMessage := "UserSecurity does not have 2FA enabled"

  /** What validate2FAToken answers and the security row after it. */
  function TokenStep(row: Security, tokenValid: bool): (r: (Outcome, Security))
  {
    if !HasSecret(row) then (Respond(400, NoSecretMessage), row)
    else if !tokenValid then
      var remaining := Remaining(row.attempts);
      (Respond(401, "Invalid 2FA token, attempts left: " + NatText(remaining)), row.(attempts := remaining))
    else (Next, row)
  }

  /** Without a secret nothing changes; a wrong token costs one attempt,
      floored at 0; a right token goes on and leaves the counter alone,
      even on a row whose attempts are used up. */
  lemma TokenStepRules(row: Security, tokenValid: bool)
    ensures var (o, after) := TokenStep(row, tokenValid);
      after.userId == row.userId && after.secret == row.secret
      && (!HasSecret(row) ==> o == Respond(400, NoSecretMessage) && after == row)
      && (o == Next <==> HasSecret(row) && tokenValid)
      && (o == Next ==> after == row)
      && (HasSecret(row) && !tokenValid ==>
            o.Respond? && o.status == 401 && after.attempts == Remaining(row.attempts) && after.attempts >= 0
            && (row.attempts > 0 ==> after.attempts == row.attempts - 1))
  {
  }

  /** `n` wrong tokens in a row leave `max(0, attempts - n)`. */
  function WrongTokens(row: Security, n: nat): Security
    decreases n
  {
    if n == 0 then row else WrongTokens(TokenStep(row, false).1, n - 1)
  }

  lemma {:induction false} WrongTokensDrain(row: Security, n: nat)
    requires HasSecret(row)
    ensures WrongTokens(row, n) == row.(attempts := Drain(row.attempts, n))
    decreases n
  {
    if n > 0 {
      var next := TokenStep(row, false).1;
      WrongTokensDrain(next, n - 1);
      assert next.(attempts := Drain(next.attempts, n - 1)) == row.(attempts := Drain(row.attempts, n));
    }
  }

  /** validate2FAToken: the checks read `res.locals.userSecurity`, the
      snapshot taken when the row was looked up earlier in the chain; after
      a wrong token only the `attempts` column of row `sec` (the snapshot's
      id) is written, with the snapshot's count less one. */
  method Validate2FAToken(db: Db, sec: nat, snapshot: Security, tokenValid: bool) returns (o: Outcome)
    requires sec < |db.security|
    modifies db`security
    ensures o == TokenStep(snapshot, tokenValid).0
    ensures HasSecret(snapshot) && !tokenValid ==>
      db.security == old(db.security)[sec := old(db.security[sec]).(attempts := TokenStep(snapshot, false).1.attempts)]
    ensures !HasSecret(snapshot) || tokenValid ==> db.security == old(db.security)
  {
    if !HasSecret(snapshot) {
      return Respond(400, NoSecretMessage);
    }
    if !tokenValid {
      var remaining := Remaining(snapshot.attempts);
      db.security := db.security[sec := db.security[sec].(attempts := remaining)];
      return Respond(401, "Invalid 2FA token, attempts left: " + NatText(remaining));
    }
    return Next;
  }

  const NotSecurityMessage := "Not an userSecurity"

  /** getUserSecurityByUserId: `WHERE user_id = ?` with `res.locals.id`;
      an unset id (None) is sent as NULL and matches no row.  403 when
      nothing matches, else the first row becomes `res.locals.userSecurity`. */
  function GetUserSecurityByUserId(rows: seq<Security>, localsId: Option<int>): (r: Result<nat, Outcome>)
    ensures r.Err? <==> localsId.None? || forall j :: 0 <= j < |rows| ==> rows[j].userId != localsId.value
    ensures r.Err? ==> r.error == Respond(403, NotSecurityMessage)
    ensures r.Ok? ==> r.value < |rows| && rows[r.value].userId == localsId.value
                      && forall j :: 0 <= j < r.value ==> rows[j].userId != localsId.value
  {
    if localsId.None? then Err(Respond(403, NotSecurityMessage))
    else match FirstWhere(rows, (row: Security) => row.userId == localsId.value, 0)
      case None => Err(Respond(403, NotSecurityMessage))
      case Some(i) => Ok(i)
  }

  /** The lookups at the head of the 2FA login chain as written:
      loadUserByEmail puts the user in `res.locals.user`, and
      getUserSecurityByUserId reads `res.locals.id`, which no handler of
      the chain sets. */
  function LoginSecurityLookup(users: seq<User>, rows: seq<Security>, email: Field): (r: Result<nat, Outcome>)
  {
    match LoadUserByEmail(users, email)
    case Err(o) => Err(o)
    case Ok(_) => GetUserSecurityByUserId(rows, None)
  }

  /** As written the chain never finds a security row: every login that
      gets past the user lookup is refused with 403, even for a user whose
      row exists (user 1, a@b.c, with a row of its own). */
  lemma LoginSecurityLookupRefuses(users: seq<User>, rows: seq<Security>, email: Field)
    ensures LoginSecurityLookup(users, rows, email).Err?
    ensures LoadUserByEmail(users, email).Ok? ==>
      LoginSecurityLookup(users, rows, email) == Err(Respond(403, NotSecurityMessage))
    ensures LoginSecurityLookup([User("a@b.c", "h", FlagNum(1))], [Security(1, Some("s"), 5)], Str("a@b.c"))
            == Err(Respond(403, NotSecurityMessage))
  {
    assert LoadUserByEmail([User("a@b.c", "h", FlagNum(1))], Str("a@b.c")) == Ok(0);
  }

  /** The chain with the loaded user's id (its index plus one). */
  function LoginSecurityLookupCorrected(users: seq<User>, rows: seq<Security>, email: Field): (r: Result<nat, Outcome>)
  {
    match LoadUserByEmail(users, email)
    case Err(o) => Err(o)
    case Ok(i) => GetUserSecurityByUserId(rows, Some(i + 1))
  }

  /** With the user's id the row is found exactly when the user has one,
      and it is that user's row. */
  lemma LoginSecurityLookupFinds(users: seq<User>, rows: seq<Security>, email: Field)
    ensures var r := LoginSecurityLookupCorrected(users, rows, email);
      var u := LoadUserByEmail(users, email);
      (r.Ok? <==> u.Ok? && exists j :: 0 <= j < |rows| && rows[j].userId == u.value + 1)
      && (r.Ok? ==> r.value < |rows| && rows[r.value].userId == u.value + 1)
      && (u.Err? ==> r == Err(u.error))
    ensures LoginSecurityLookupCorrected([User("a@b.c", "h", FlagNum(1))], [Security(1, Some("s"), 5)], Str("a@b.c"))
            == Ok(0)
  {
    assert LoadUserByEmail([User("a@b.c", "h", FlagNum(1))], Str("a@b.c")) == Ok(0);
  }

  const RegisteredMessage := "UserSecurity registered with 2FA successfully"
  const AskTokenMessage := "UserSecurity logged in, please provide the 2FA token"

  /** What check2FA answers and the row after it: without a secret the
      generated one is stored (an empty one would be stored as NULL) and
      the login stops with 201; without a token it stops with 200. */
  function Check2FAStep(row: Security, token: Field, generated: string): (r: (Outcome, Security))
  {
    if !HasSecret(row) then
      (Respond(201, RegisteredMessage), row.(secret := if generated != [] then Some(generated) else None))
    else if !FieldTruthy(token) then (Respond(200, AskTokenMessage), row)
    else (Next, row)
  }

  /** A stored secret is never replaced; the login goes on only with a
      secret and a token; after a registration the next attempt with a
      token goes on, and one without a token is asked for it. */
  lemma Check2FARules(row: Security, token: Field, generated: string, token2: Field, generated2: string)
    ensures var (o, after) := Check2FAStep(row, token, generated);
      (HasSecret(row) ==> after == row)
      && (o == Next <==> HasSecret(row) && FieldTruthy(token))
      && (after.userId == row.userId && after.attempts == row.attempts)
      && (!HasSecret(row) && generated != [] ==>
            o == Respond(201, RegisteredMessage) && after.secret == Some(generated)
            && Check2FAStep(after, token2, generated2).1 == after
            && (Check2FAStep(after, token2, generated2).0 == Next <==> FieldTruthy(token2)))
  {
  }

  /** check2FA on row `sec`. */
  method Check2FA(db: Db, sec: nat, token: Field, generated: string) returns (o: Outcome)
    requires sec < |db.security|
    modifies db`security
    ensures |db.security| == |old(db.security)|
    ensures (o, db.security[sec]) == Check2FAStep(old(db.security[sec]), token, generated)
    ensures db.security == old(db.security)[sec := db.security[sec]]
  {
    var row := db.security[sec];
    if !HasSecret(row) {
      var stored := if generated != [] then Some(generated) else None;
      db.security := db.security[sec := row.(secret := stored)];
      return Respond(201, RegisteredMessage);
    }
    if !FieldTruthy(token) {
      return Respond(200, AskTokenMessage);
    }
    return Next;
  }
}
