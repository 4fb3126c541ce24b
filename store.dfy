/** The MySQL tables the debate engine reads and writes, held in memory by
    one `Db` object.  Tables of rows in insertion order are sequences; in
    those whose rows are never deleted a row's AUTO_INCREMENT id is its
    index plus one.  `daily_user_influence` is the exception: its rows for
    a question are deleted before they are written again, and their ids
    are not modelled.  The tables keyed by a pair (likes, user roles) are
    sets, and user_stats, keyed by user id, is a map. */
module Store {
  import opened Common
  import opened Calendar

  datatype Status = Scheduled | Active | Closed | Archived

  /** A row of `questions` (its id is its index plus one). */
  datatype Question = Question(text: string, optionA: string, optionB: string,
                               published: Date, status: Status)

  /** A row of `answers`.  `userId` is None for an anonymous answer. */
  datatype Answer = Answer(questionId: int, userId: Option<int>, anonymousKey: Option<string>,
                           ipAddress: Option<string>, side: Side, body: string, likesCount: nat)

  /** A row of `participations`. */
  datatype Participation = Participation(userId: int, questionId: int)

  /** A row of `user_stats`.  XP is held in tenths of a point, which is
      exact for `ROUND(total_xp + x, 1)` with the XP amounts the code adds. */
  datatype Stats = Stats(totalXpTenths: int, influenceTotal: int, majorityHits: int,
                         powerParticipations: int, streakDays: int,
                         lastParticipation: Option<Date>, graceTokens: int)

  /** The row `ensureUserStats` inserts: every counter 0, one grace token. */
  const DefaultStats := Stats(0, 0, 0, 0, 0, None, 1)

  /** A row of `daily_user_influence`. */
  datatype InfluenceRow = InfluenceRow(questionId: int, userId: int, likesSum: int, rank: int)

  /** A row of `email_verifications`; times are seconds of UTC time. */
  datatype EmailCode = EmailCode(userId: int, tokenHash: string, expiresAt: int, used: bool, createdAt: int)

  /** A row of `roles`. */
  datatype Role = Role(id: int, name: string)

  /** A row of `badges` (its id is its index plus one). */
  datatype Badge = Badge(code: string, name: string, description: string, rarity: string)

  /** A row of `user_badges`; `meta_json` is always the empty object. */
  datatype UserBadge = UserBadge(userId: int, badgeId: int)

  /** A row of `user_security` (its id is its index plus one); `secret` is
      the stored 2FA secret, None for SQL NULL. */
  datatype Security = Security(userId: int, secret: Option<string>, attempts: int)

  class Db {
    var questions: seq<Question>
    var answers: seq<Answer>
    /** `answer_likes` as (answer id, user id) pairs, unique by its key. */
    var likes: set<(int, int)>
    var participations: seq<Participation>
    var stats: map<int, Stats>
    var influence: seq<InfluenceRow>
    var emailCodes: seq<EmailCode>
    var roles: seq<Role>
    /** `user_roles` as (user id, role id) pairs. */
    var userRoles: set<(int, int)>
    var badges: seq<Badge>
    var userBadges: seq<UserBadge>
    var security: seq<Security>

    constructor ()
      ensures questions == [] && answers == [] && likes == {} && participations == []
      ensures stats == map[] && influence == [] && emailCodes == [] && roles == []
      ensures userRoles == {} && badges == [] && userBadges == [] && security == []
    {
      questions, answers, likes, participations := [], [], {}, [];
      stats, influence, emailCodes, roles := map[], [], [], [];
      userRoles, badges, userBadges, security := {}, [], [], [];
    }
  }
}
