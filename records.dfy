/**
 * The items the three components keep in the shared DynamoDB table, their
 * primary keys (`pk`, `sk`), and the errors the controllers raise.
 */
module Records {
  import opened Common

  datatype Status = Active | Completed

  /** One point of the maze path: `{'x': x, 'y': y}`. */
  datatype Point = Point(x: int, y: int)

  /** The `required_headers` map of a header quest. */
  datatype RequiredHeaders = RequiredHeaders(questKey: string, questSequence: string, questToken: string)

  /** The primary key of an item: partition key and sort key. */
  datatype ItemKey = ItemKey(pk: string, sk: string)

  /** The record `initialize_maze` creates (phase_2.py). Timestamps are whole seconds. */
  datatype Maze = Maze(pk: string, sk: string, mazeId: string, status: Status, coordinates: seq<Point>,
                       currentPosition: nat, collectedTokens: seq<string>, attempts: nat, createdAt: int)

  /** The record `create_challenge` creates (phase_1.py). */
  datatype Challenge = Challenge(pk: string, sk: string, challengeId: string, phase: int, status: Status,
                                 requiredHeaders: RequiredHeaders, keyFragments: seq<string>, attempts: nat,
                                 createdAt: int, lastRequestTime: int, completedAt: Option<int>)

  /** The request log of the rate limiter (rate_limit.py): one timestamp per admitted request. */
  datatype RequestLog = RequestLog(pk: string, sk: string, requests: seq<int>)

  /** A stored item, of one of the three kinds; `updated_at` is left out. */
  datatype Item =
    | MazeItem(maze: Maze)
    | ChallengeItem(challenge: Challenge)
    | RequestLogItem(log: RequestLog)
  {
    function Key(): ItemKey {
      match this
      case MazeItem(m) => ItemKey(m.pk, m.sk)
      case ChallengeItem(c) => ItemKey(c.pk, c.sk)
      case RequestLogItem(l) => ItemKey(l.pk, l.sk)
    }
  }

  /** Why an operation fails: the exceptions the controllers raise, one constructor each. */
  datatype Error =
    | NotFound                  // "Maze not found" / "Challenge not found"
    | MalformedRecord           // a KeyError on an item of the wrong shape
    | IndexOutOfRange           // an IndexError on `coordinates[current_position]`
    | InvalidSolution(attempt: nat)
    | InvalidTokenCollection
    | PacingExceeded            // "Rate limit exceeded. Wait a few seconds."
    | InvalidHeaders(attempt: nat)
    | InvalidKey(attempt: nat)
    | TokenFailure              // the phase 2 token could not be minted

  /** `f"USER#{user_email}"`. */
  function UserPk(email: string): string {
    "USER#" + email
  }

  /** `f"MAZE#{maze_id}"`. */
  function MazeSk(mazeId: string): string {
    "MAZE#" + mazeId
  }

  /** `f"CHALLENGE#PHASE1#{challenge_id}"`. */
  function ChallengeSk(challengeId: string): string {
    "CHALLENGE#PHASE1#" + challengeId
  }

  const RateLimitSk: string := "RATELIMIT#API"

  function MazeKey(email: string, mazeId: string): ItemKey {
    ItemKey(UserPk(email), MazeSk(mazeId))
  }

  function ChallengeKey(email: string, challengeId: string): ItemKey {
    ItemKey(UserPk(email), ChallengeSk(challengeId))
  }

  /** `_get_rate_limit_key`. */
  function RateLimitKey(email: string): ItemKey {
    ItemKey(UserPk(email), RateLimitSk)
  }

  lemma {:induction false} PrefixInjective(p: string, a: string, b: string)
    requires p + a == p + b
    ensures a == b
  {
    assert a == (p + a)[|p|..];
    assert b == (p + b)[|p|..];
  }

  /**
   * Keys are injective in the user and the record id, and the three kinds of
   * record never share a key, so each component only ever reaches its own items.
   */
  lemma KeysDistinct(e1: string, e2: string, id1: string, id2: string)
    ensures MazeKey(e1, id1) == MazeKey(e2, id2) ==> e1 == e2 && id1 == id2
    ensures ChallengeKey(e1, id1) == ChallengeKey(e2, id2) ==> e1 == e2 && id1 == id2
    ensures RateLimitKey(e1) == RateLimitKey(e2) ==> e1 == e2
    ensures MazeKey(e1, id1) != ChallengeKey(e2, id2)
    ensures MazeKey(e1, id1) != RateLimitKey(e2)
    ensures ChallengeKey(e1, id1) != RateLimitKey(e2)
  {
    if UserPk(e1) == UserPk(e2) {
      PrefixInjective("USER#", e1, e2);
    }
    if MazeSk(id1) == MazeSk(id2) {
      PrefixInjective("MAZE#", id1, id2);
    }
    if ChallengeSk(id1) == ChallengeSk(id2) {
      PrefixInjective("CHALLENGE#PHASE1#", id1, id2);
    }
    assert MazeSk(id1)[0] == 'M' && ChallengeSk(id2)[0] == 'C' && RateLimitSk[0] == 'R';
  }
}
