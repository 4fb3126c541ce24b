/** The e-mail verification codes (src/models/email-verification.ts): a
    code row is created unused with a 15-minute lifetime, codes are
    invalidated per user or one by one, and the finders read the newest
    row.  `now` stands for MySQL's UTC_TIMESTAMP(), in seconds. */
module EmailVerification {
  import opened Common
  import opened Store

  /** `INTERVAL 15 MINUTE`. */
  const Lifetime := 15 * 60

  /** createCode: appends an unused code expiring 15 minutes from now. */
  method CreateCode(db: Db, userId: int, tokenHash: string, now: int)
    modifies db`emailCodes
    ensures db.emailCodes == old(db.emailCodes) + [EmailCode(userId, tokenHash, now + Lifetime, false, now)]
  {
    db.emailCodes := db.emailCodes + [EmailCode(userId, tokenHash, now + Lifetime, false, now)];
  }

  /** The table after `SET used = 1 WHERE user_id = ? AND used = 0`. */
  function Invalidated(codes: seq<EmailCode>, userId: int): (r: seq<EmailCode>)
    ensures |r| == |codes|
  {
    seq(|codes|, i requires 0 <= i < |codes| =>
      if codes[i].userId == userId && !codes[i].used then codes[i].(used := true) else codes[i])
  }

  /** invalidateAll: every unused code of the user is marked used, row by row. */
  method InvalidateAll(db: Db, userId: int)
    modifies db`emailCodes
    ensures db.emailCodes == Invalidated(old(db.emailCodes), userId)
  {
    var i := 0;
    while i < |db.emailCodes|
      invariant 0 <= i <= |db.emailCodes| == |old(db.emailCodes)|
      invariant forall j :: 0 <= j < i ==> db.emailCodes[j] == Invalidated(old(db.emailCodes), userId)[j]
      invariant forall j :: i <= j < |db.emailCodes| ==> db.emailCodes[j] == old(db.emailCodes)[j]
    {
      var c := db.emailCodes[i];
      if c.userId == userId && !c.used {
        db.emailCodes := db.emailCodes[i := c.(used := true)];
      }
      i := i + 1;
    }
  }

  /** The WHERE clause of findValidCode. */
  predicate Valid(c: EmailCode, userId: int, tokenHash: string, now: int) {
    c.userId == userId && c.tokenHash == tokenHash && !c.used && c.expiresAt >= now
  }

  /** findValidCode: the row with the highest id among the first `n` that
      satisfies the WHERE clause (`ORDER BY id DESC LIMIT 1`). */
  function LastValid(codes: seq<EmailCode>, userId: int, tokenHash: string, now: int, n: nat): (r: Option<nat>)
    requires n <= |codes|
    ensures r.None? <==> forall j :: 0 <= j < n ==> !Valid(codes[j], userId, tokenHash, now)
    ensures r.Some? ==> r.value < n && Valid(codes[r.value], userId, tokenHash, now)
                        && forall j :: r.value < j < n ==> !Valid(codes[j], userId, tokenHash, now)
  {
    if n == 0 then None
    else if Valid(codes[n - 1], userId, tokenHash, now) then Some(n - 1)
    else LastValid(codes, userId, tokenHash, now, n - 1)
  }

  function FindValidCode(codes: seq<EmailCode>, userId: int, tokenHash: string, now: int): (r: Option<nat>)
    ensures r.None? <==> forall j :: 0 <= j < |codes| ==> !Valid(codes[j], userId, tokenHash, now)
    ensures r.Some? ==> r.value < |codes| && Valid(codes[r.value], userId, tokenHash, now)
                        && forall j :: r.value < j < |codes| ==> !Valid(codes[j], userId, tokenHash, now)
  {
    LastValid(codes, userId, tokenHash, now, |codes|)
  }

  /** markUsed: the code with that id (index plus one) is marked used. */
  method MarkUsed(db: Db, id: int)
    modifies db`emailCodes
    ensures 1 <= id <= |old(db.emailCodes)| ==>
      db.emailCodes == old(db.emailCodes)[id - 1 := old(db.emailCodes)[id - 1].(used := true)]
    ensures !(1 <= id <= |old(db.emailCodes)|) ==> db.emailCodes == old(db.emailCodes)
  {
    if 1 <= id <= |db.emailCodes| {
      db.emailCodes := db.emailCodes[id - 1 := db.emailCodes[id - 1].(used := true)];
    }
  }

  /** lastSentAt: the `created_at` of the user's newest code, used or
      expired alike. */
  function LastSentAt(codes: seq<EmailCode>, userId: int): (r: Option<int>)
    ensures r.None? <==> forall j :: 0 <= j < |codes| ==> codes[j].userId != userId
    ensures r.Some? ==> exists i :: 0 <= i < |codes| && codes[i].userId == userId && codes[i].createdAt == r.value
                                    && forall j :: i < j < |codes| ==> codes[j].userId != userId
  {
    if codes == [] then None
    else
      var n := |codes| - 1;
      if codes[n].userId == userId then Some(codes[n].createdAt)
      else
        var front := codes[..n];
        var r := LastSentAt(front, userId);
        assert forall j :: 0 <= j < n ==> front[j] == codes[j];
        if r.None? then r
        else
          var i :| 0 <= i < n && front[i].userId == userId && front[i].createdAt == r.value
                   && forall j :: i < j < n ==> front[j].userId != userId;
          assert codes[i].userId == userId && codes[i].createdAt == r.value;
          r
  }

  /** After invalidateAll(u) no code of u is valid, whatever the hash and
      the time, and every other user's finder answers as before. */
  lemma {:induction false} InvalidateAllClears(codes: seq<EmailCode>, u: int, v: int, tokenHash: string, now: int)
    ensures FindValidCode(Invalidated(codes, u), u, tokenHash, now).None?
    ensures v != u ==> FindValidCode(Invalidated(codes, u), v, tokenHash, now) == FindValidCode(codes, v, tokenHash, now)
  {
    var inv := Invalidated(codes, u);
    forall j | 0 <= j < |codes| ensures !Valid(inv[j], u, tokenHash, now) {
    }
    if v != u {
      forall j | 0 <= j < |codes| ensures Valid(inv[j], v, tokenHash, now) == Valid(codes[j], v, tokenHash, now) {
      }
      SameValidity(codes, inv, v, tokenHash, now, |codes|);
    }
  }

  /** Two tables whose rows agree on the WHERE clause give the same row. */
  lemma {:induction false} SameValidity(a: seq<EmailCode>, b: seq<EmailCode>, userId: int, tokenHash: string, now: int, n: nat)
    requires n <= |a| == |b|
    requires forall j :: 0 <= j < |a| ==> Valid(a[j], userId, tokenHash, now) == Valid(b[j], userId, tokenHash, now)
    ensures LastValid(a, userId, tokenHash, now, n) == LastValid(b, userId, tokenHash, now, n)
  {
    if n > 0 {
      SameValidity(a, b, userId, tokenHash, now, n - 1);
    }
  }

  /** A code just created is the one found for its user and hash until it
      expires 15 minutes later, and not after; lastSentAt then reports its
      creation time. */
  lemma NewCodeFound(codes: seq<EmailCode>, userId: int, tokenHash: string, now: int, t: int)
    ensures var after := codes + [EmailCode(userId, tokenHash, now + Lifetime, false, now)];
      (t <= now + Lifetime ==> FindValidCode(after, userId, tokenHash, t) == Some(|codes|))
      && (t > now + Lifetime ==> FindValidCode(after, userId, tokenHash, t) == FindValidCode(codes, userId, tokenHash, t))
      && LastSentAt(after, userId) == Some(now)
  {
    var after := codes + [EmailCode(userId, tokenHash, now + Lifetime, false, now)];
    if t > now + Lifetime {
      assert forall j :: 0 <= j < |codes| ==> after[j] == codes[j];
      SameValidity(after[..|codes|], codes, userId, tokenHash, t, |codes|);
      assert after[..|codes|] == codes;
      PrefixValid(after, userId, tokenHash, t, |codes|);
    }
  }

  /** The finder over the first `n` rows looks only at those rows. */
  lemma {:induction false} PrefixValid(codes: seq<EmailCode>, userId: int, tokenHash: string, now: int, n: nat)
    requires n <= |codes|
    ensures LastValid(codes, userId, tokenHash, now, n) == LastValid(codes[..n], userId, tokenHash, now, n)
    decreases n
  {
    if n > 0 {
      PrefixValid(codes, userId, tokenHash, now, n - 1);
      PrefixValid(codes[..n], userId, tokenHash, now, n - 1);
      assert codes[..n][..n - 1] == codes[..n - 1];
    }
  }

  /** A code marked used is never found again. */
  lemma MarkedNeverFound(codes: seq<EmailCode>, id: int, userId: int, tokenHash: string, now: int)
    requires 1 <= id <= |codes|
    ensures FindValidCode(codes[id - 1 := codes[id - 1].(used := true)], userId, tokenHash, now) != Some(id - 1)
  {
  }
}
