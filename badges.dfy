/** Badges (src/models/badges.ts): the lookup by code, the get-or-insert of
    a badge through the allow-list INSERT builder, and the grant row. */
module Badges {
  import opened Common
  import opened Store
  import SqlBuilder

  /** getBadgeByCode, first row: the index of the first badge with that code. */
  function GetBadgeByCode(badges: seq<Badge>, code: string): (r: Option<nat>)
    ensures r.None? <==> forall j :: 0 <= j < |badges| ==> badges[j].code != code
    ensures r.Some? ==> r.value < |badges| && badges[r.value].code == code
                        && forall j :: 0 <= j < r.value ==> badges[j].code != code
  {
    FirstWhere(badges, (b: Badge) => b.code == code, 0)
  }

  /** The object upsertBadge hands to `insertRow('badges', b)`. */
  function BadgeFields(b: Badge): (r: SqlBuilder.Fields)
    ensures SqlBuilder.Keys(r) == ["code", "name", "description", "rarity"]
    ensures SqlBuilder.Defined(r) == r
  {
    var r := [("code", SqlBuilder.Text(b.code)), ("name", SqlBuilder.Text(b.name)),
              ("description", SqlBuilder.Text(b.description)), ("rarity", SqlBuilder.Text(b.rarity))];
    SqlBuilder.DefinedAll(r);
    r
  }

  /** What upsertBadge returns (the id, or the error the builder throws)
      and the badges table after it. */
  function Upserted(schema: SqlBuilder.Schema, badges: seq<Badge>, b: Badge): (r: (Result<int, SqlBuilder.SqlError>, seq<Badge>))
  {
    match GetBadgeByCode(badges, b.code)
    case Some(i) => (Ok(i + 1), badges)
    case None =>
      if SqlBuilder.InsertSpec(schema, "badges", BadgeFields(b)).Ok? then (Ok(|badges| + 1), badges + [b])
      else (Err(SqlBuilder.InsertSpec(schema, "badges", BadgeFields(b)).error), badges)
  }

  /** upsertBadge: an existing code returns its id; otherwise the INSERT,
      whose new id is returned. */
  method UpsertBadge(db: Db, schema: SqlBuilder.Schema, b: Badge) returns (r: Result<int, SqlBuilder.SqlError>)
    modifies db`badges
    ensures (r, db.badges) == Upserted(schema, old(db.badges), b)
  {
    var found := GetBadgeByCode(db.badges, b.code);
    if found.Some? {
      return Ok(found.value + 1);
    }
    var q := SqlBuilder.InsertRow(schema, "badges", BadgeFields(b));
    if q.Err? {
      return Err(q.error);
    }
    db.badges := db.badges + [b];
    return Ok(|db.badges|);
  }

  /** An existing code is returned with its id and nothing is inserted. */
  lemma UpsertExisting(schema: SqlBuilder.Schema, badges: seq<Badge>, b: Badge)
    requires GetBadgeByCode(badges, b.code).Some?
    ensures var (r, after) := Upserted(schema, badges, b);
      after == badges && r.Ok? && 1 <= r.value <= |badges| && badges[r.value - 1].code == b.code
  {
  }

  /** As written, `badges` is not a table of the allow-list, so a badge
      with a new code is never stored: the builder throws "Invalid table". */
  lemma UpsertNewRefused(badges: seq<Badge>, b: Badge)
    requires GetBadgeByCode(badges, b.code).None?
    ensures Upserted(SqlBuilder.ValidColumns, badges, b) == (Err(SqlBuilder.InvalidTable), badges)
  {
    assert "badges" !in SqlBuilder.ValidColumns;
  }

  /** With `badges` in the allow-list, a new code is stored and gets the
      next id; upserting the same code again returns that id and stores
      nothing, so the code stays unique. */
  lemma UpsertTwice(badges: seq<Badge>, b: Badge, b2: Badge)
    requires GetBadgeByCode(badges, b.code).None? && b2.code == b.code
    ensures var (r1, after1) := Upserted(SqlBuilder.CorrectedColumns, badges, b);
      var (r2, after2) := Upserted(SqlBuilder.CorrectedColumns, after1, b2);
      r1 == Ok(|badges| + 1) && after1 == badges + [b]
      && r2 == r1 && after2 == after1
  {
    BadgeInsertAllowed(b);
    FoundAfterInsert(badges, b, b2.code);
  }

  /** With the corrected allow-list, the insert of any badge goes through. */
  lemma BadgeInsertAllowed(b: Badge)
    ensures SqlBuilder.InsertSpec(SqlBuilder.CorrectedColumns, "badges", BadgeFields(b)).Ok?
  {
    BadgesColumns();
    var allowed := SqlBuilder.CorrectedColumns["badges"];
    assert allowed[1] == "code" && allowed[2] == "name" && allowed[3] == "description" && allowed[4] == "rarity";
    BadgeKeysIdentifiers();
    assert forall k :: k in SqlBuilder.Keys(BadgeFields(b)) ==> SqlBuilder.Fine(k, allowed);
  }

  /** The four keys of a badge and the table name are identifiers. */
  lemma BadgeKeysIdentifiers()
    ensures SqlBuilder.IsIdentifier("code") && SqlBuilder.IsIdentifier("name")
    ensures SqlBuilder.IsIdentifier("description") && SqlBuilder.IsIdentifier("rarity")
    ensures SqlBuilder.IsIdentifier("badges")
  {
  }

  /** The `badges` entry of the corrected allow-list. */
  lemma BadgesColumns()
    ensures "badges" in SqlBuilder.CorrectedColumns
    ensures SqlBuilder.CorrectedColumns["badges"] == ["id", "code", "name", "description", "rarity"]
  {
  }

  /** After appending a badge with a code no earlier badge has, the lookup
      of that code finds the new row. */
  lemma FoundAfterInsert(badges: seq<Badge>, b: Badge, code: string)
    requires GetBadgeByCode(badges, b.code).None? && code == b.code
    ensures GetBadgeByCode(badges + [b], code) == Some(|badges|)
  {
    var after := badges + [b];
    assert forall j :: 0 <= j < |badges| ==> after[j] == badges[j];
    assert after[|badges|].code == code;
    var found := GetBadgeByCode(after, code);
    assert found.Some? && !(found.value < |badges|);
  }

  /** grantBadge: one more (user, badge) row, with no duplicate check. */
  method GrantBadge(db: Db, userId: int, badgeId: int)
    modifies db`userBadges
    ensures db.userBadges == old(db.userBadges) + [UserBadge(userId, badgeId)]
  {
    db.userBadges := db.userBadges + [UserBadge(userId, badgeId)];
  }

  /** Granting the same badge twice leaves two rows for it. */
  lemma GrantTwiceCounts(grants: seq<UserBadge>, g: UserBadge)
    ensures multiset(grants + [g] + [g])[g] == multiset(grants)[g] + 2
  {
    assert multiset(grants + [g] + [g]) == multiset(grants) + multiset{g, g};
  }
}
