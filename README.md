# binary-trail challenge engine, in Dafny

This project models the three parts of the binary-trail backend that hold real
logic. All three read one record from the shared DynamoDB table, compute, and
write the record back.

- **The crypto maze** (`Phase2Controller`, `phase2.dfy` and `encoders.dfy`):
  - A four-point random walk is stored with the maze.
  - Each point is handed out as the instruction `Navigate to (x, y)`, encoded with base64, Caesar +3, XOR 42 or reverse-then-base64 (`custom`).
  - A correctly decoded instruction earns a token and advances the position. A wrong one counts an attempt.
  - The maze completes when the concatenated tokens of every maze record under the id are submitted.
- **The header quest** (`Phase1Controller`, `phase1.dfy`):
  - A riddle embeds three header values.
  - A request that carries all three, at least twelve seconds after the previous one (measured the way `timedelta.seconds` measures it), earns a key fragment.
  - The fragments, concatenated in order, complete the challenge.
- **The sliding-window rate limiter** (`RateLimit`, `rate_limit.dfy`):
  - Each user has a log of request timestamps.
  - A request is refused when `max_requests` of them are newer than `now - window_seconds`. Otherwise it is admitted and logged.
  - Every store failure admits the request (fail open).
  - `get_remaining_requests` reports the quota left and the reset time.

Supporting modules:

- `common.dfy`: Option, Result, byte.
- `text.dfy`: `str.strip`, `str(int)`, `[::-1]`, `''.join`, `str.split`, and the code-point string order.
- `utf8.dfy`: `str.encode`, with a strict decoder as its partner.
- `base64.dfy`: `base64.b64encode` as in section 4 of RFC 4648, with a strict decoder as its partner.
- `records.dfy`: the stored items, their keys and the controllers' errors.
- `store.dfy`: the table.

How the store and the controllers are modelled:

- The table is a class `Store.Table`. Its `entries` are kept sorted by primary key, so a prefix query returns items in DynamoDB's order.
- Each controller is a class over that table. Each of its methods loads the record, changes it step by step and writes it back.
- Each method is proved equal to a pure transition function (`StepSpec`, `CompleteSpec`, `SolveSpec`, `CompletionSpec`, `CheckSpec`, `RemainingSpec`). That function returns the reply and the item written, if any.
- The promises of the source are proved about those functions, one call at a time and over whole runs of calls (`QuestInOrder`, `SolvingInOrder`, `BurstAdmitsLimit`).

Other modelling choices:

- Time is whole seconds.
- Random values (the maze and challenge ids, uuid prefixes, `random.randint`, the key fragments and tokens) are parameters. Each method requires the form the source draws them in: the maze id has the 36 characters of `str(uuid.uuid4())`, and key prefixes, fragments and tokens are 8 lower-case hexadecimal digits. The challenge id is only stored and looked up, so it is unconstrained.
- A raised exception is an `Err` of `Records.Error`.

## Behaviour as written

The model follows the code as it stands, including these points:

- `_encode_caesar` shifts only letters; digits and every other character pass through unchanged (backend/app/controllers/phase_2.py:119-124).
- The instruction is `Navigate to (x, y)`, with a space after the comma (backend/app/controllers/phase_2.py:93).
- `verify_request_headers` requires all three headers at every step. It checks no expiry, no status and no order among the secrets (backend/app/controllers/phase_1.py:86-92). `create_challenge` does not look for another active challenge (backend/app/controllers/phase_1.py:37-57).
- The `X-Quest-Sequence` header must echo the base64 form of the number that is stored, not its decimal form (backend/app/controllers/phase_1.py:21).
- `verify_solution` always encodes the next message as base64, whatever `_get_next_encoding_type` reports (backend/app/controllers/phase_2.py:80-87).
- Neither controller checks `status` before a step or a completion. On a finished maze, `verify_solution` fails with an IndexError (backend/app/controllers/phase_2.py:57-59, 91).

## Model

| member | source | states |
|---|---|---|
| Records.KeysDistinct | backend/app/controllers/phase_2.py:141-150 | maze, challenge and rate-limit keys of different users or ids never collide, and keys of different kinds never collide |
| Store.Find | backend/app/controllers/phase_2.py:141-150 | `get_item` returns an item stored under the key, and returns nothing exactly when no stored item has that key |
| Store.Upsert | backend/app/controllers/phase_2.py:152-154 | `put_item` stores the item and otherwise keeps only items already stored |
| Store.UpsertSorted | backend/app/controllers/phase_2.py:152-154 | `put_item` keeps the table in primary-key order |
| Store.FindUpsert | backend/app/controllers/phase_2.py:152-154 | after `put_item`, reading the item's key gives the new item and every other key reads as before |
| Store.CommitOthers | backend/app/controllers/phase_2.py:152-154 | writing an item leaves every other key unchanged |
| Store.Matching | backend/app/controllers/phase_2.py:160-166 | the query returns exactly the stored items in the partition whose sort key starts with the prefix |
| Store.MatchingSorted | backend/app/controllers/phase_2.py:160-166 | the query returns its items in sort-key order |
| Store.MatchingSingle | backend/app/controllers/phase_2.py:160-166 | when no other sort key extends the prefix, the query returns just the one item |
| Store.KeyLessTotal | backend/app/controllers/phase_2.py:160-166 | the key order is total, so query order is well defined |
| Store.KeyLessTransitive | backend/app/controllers/phase_2.py:160-166 | the key order is transitive |
| Store.KeyLessIrreflexive | backend/app/controllers/phase_2.py:160-166 | the key order is strict |
| Store.Table.PutItem | backend/app/controllers/phase_2.py:154 | `put_item` replaces the item with the same key and keeps the table sorted |
| Utf8.EncodeChar | backend/app/controllers/phase_2.py:115 | `str.encode` turns each code point into 1 to 4 bytes, and into exactly one byte equal to the code point for ASCII |
| Utf8.EncodeAscii | backend/app/controllers/phase_2.py:115 | ASCII text encodes byte for byte |
| Utf8.DecodeFirstOfEncodeChar | backend/app/controllers/phase_2.py:115 | the strict decoder reads back exactly the character just encoded and its length |
| Utf8.DecodeEncode | backend/app/controllers/phase_2.py:115 | decoding `s.encode()` gives `s` back |
| Base64.ValueOf | backend/app/controllers/phase_2.py:115 | the decoder's digit table is the inverse of the encoder's |
| Base64.EncodeGroup | backend/app/controllers/phase_2.py:115 | each group of 1 to 3 bytes becomes 4 characters, with `=` exactly in the positions the short group leaves empty |
| Base64.DecodeEncodeGroup | backend/app/controllers/phase_2.py:115 | decoding an encoded group gives the group back |
| Base64.EncodeLength | backend/app/controllers/phase_2.py:115 | `b64encode` of n bytes has length 4*ceil(n/3) |
| Base64.EncodePadding | backend/app/controllers/phase_2.py:115 | the encoding ends in no `=`, in `==` or in `=` as n mod 3 is 0, 1 or 2, and has no `=` anywhere else |
| Base64.EncodeAlphabet | backend/app/controllers/phase_2.py:115 | the encoding uses only the 64 digits of the alphabet and `=` |
| Base64.DecodeEncode | backend/app/controllers/phase_2.py:115 | decoding `b64encode(b)` gives `b` back |
| Encoders.DecodeEncodeBase64 | backend/app/controllers/phase_2.py:114-115 | base64-decoding, then UTF-8-decoding, the base64 message gives the message back |
| Encoders.EncodeBase64Length | backend/app/controllers/phase_2.py:114-115 | for ASCII text of length n, the message has length 4*ceil(n/3) and the padding RFC 4648 prescribes |
| Encoders.ShiftLetter | backend/app/controllers/phase_2.py:119-124 | a letter stays a letter of the same case, and any other character is unchanged |
| Encoders.Caesar | backend/app/controllers/phase_2.py:117-125 | the Caesar text has the message's length |
| Encoders.EncodeCaesar | backend/app/controllers/phase_2.py:117-125 | the character-by-character loop computes the Caesar shift of the whole message |
| Encoders.CaesarCompose | backend/app/controllers/phase_2.py:117-125 | shifting by a, then by b, is shifting by a+b |
| Encoders.CaesarInverse | backend/app/controllers/phase_2.py:117-125 | shifting by 23 undoes the +3 shift |
| Encoders.XorLowInvolution | backend/app/controllers/phase_2.py:128 | XOR with 42 twice gives back the 6-bit value |
| Encoders.XorChar | backend/app/controllers/phase_2.py:128 | `chr(ord(c) ^ 42)` changes only the low six bits of the code point, so ASCII stays ASCII |
| Encoders.XorCharInvolution | backend/app/controllers/phase_2.py:128 | XOR-42 applied twice gives back the character |
| Encoders.Xor | backend/app/controllers/phase_2.py:127-128 | the XOR text has the message's length |
| Encoders.XorInvolution | backend/app/controllers/phase_2.py:127-128 | XOR-42 is its own inverse and maps ASCII text to ASCII text |
| Text.Reverse | backend/app/controllers/phase_2.py:132 | `message[::-1]` has the character at i taken from position n-1-i |
| Text.ReverseReverse | backend/app/controllers/phase_2.py:132 | reversing twice gives the text back |
| Encoders.DecodeEncodeCustom | backend/app/controllers/phase_2.py:130-132 | base64-decoding the custom message and reversing it gives the message back |
| Encoders.NextEncodingTypeRotates | backend/app/controllers/phase_2.py:134-136 | position 0 is base64, the types repeat every four positions, and position p reports the name `['base64','caesar','xor','custom'][p % 4]` |
| Encoders.DecodeEncode | backend/app/controllers/phase_2.py:105-136 | every encoding type has a decoder that recovers the message |
| Encoders.EncodeWith | backend/app/controllers/phase_2.py:111 | dispatching on the encoding type applies that type's encoder |
| Text.NatToString | backend/app/controllers/phase_2.py:93 | `str(n)` for n >= 0 is a nonempty string of digits with no leading zero |
| Text.IntToString | backend/app/controllers/phase_2.py:93 | `str(n)` is ASCII |
| Text.ParseNatToString | backend/app/controllers/phase_2.py:93 | parsing the digits of `str(n)` gives n back |
| Text.IntToStringInjective | backend/app/controllers/phase_2.py:93 | different coordinates format differently |
| Phase2.InstructionShape | backend/app/controllers/phase_2.py:93 | the instruction is ASCII, starts with `N`, ends with `)`, and has no surrounding whitespace |
| Phase2.StripInstruction | backend/app/controllers/phase_2.py:93-94 | stripping the instruction leaves it unchanged |
| Text.TrimStartIsSuffix | backend/app/controllers/phase_2.py:94 | removing leading whitespace removes exactly a whitespace prefix, up to a non-space or the end |
| Text.TrimEndIsPrefix | backend/app/controllers/phase_2.py:94 | removing trailing whitespace removes exactly a whitespace suffix, back to a non-space or the start |
| Text.StripPadded | backend/app/controllers/phase_2.py:94 | stripping whitespace around a trimmed text gives that text |
| Text.StripIsSlice | backend/app/controllers/phase_2.py:94 | `strip()` returns the slice between a whitespace prefix and a whitespace suffix |
| Phase2.VerifyCoordinate | backend/app/controllers/phase_2.py:90-94 | checking fails with an index error exactly when the position is past the last coordinate |
| Phase2.VerifyCoordinateAcceptsPadded | backend/app/controllers/phase_2.py:90-94 | the instruction with any whitespace around it is accepted |
| Phase2.VerifyCoordinateAcceptsOnlyPadded | backend/app/controllers/phase_2.py:90-94 | whatever is accepted is the instruction with only whitespace around it |
| Phase2.PathIsWalk | backend/app/controllers/phase_2.py:96-103 | the path has one point per step, starts within 2 of the origin, and each point lies within 2 of the previous one on each axis, displaced by exactly that step |
| Phase2.GenerateMazePath | backend/app/controllers/phase_2.py:96-103 | the loop builds the 4-point random walk |
| Phase2.CreateEncodedMessages | backend/app/controllers/phase_2.py:105-112 | message i is the instruction for point i under encoding type i % 4, and decodes back to that instruction |
| Phase2.NewMazeInvariant | backend/app/controllers/phase_2.py:34-44 | a new maze has as many tokens as its position and is stored under the user's maze key |
| Phase2.GetMaze | backend/app/controllers/phase_2.py:141-150 | the maze loaded is the one stored under the key, and "Maze not found" is raised exactly when none is |
| Phase2.SolveUnsolvable | backend/app/controllers/phase_2.py:57-62 | on a maze whose position is past its path, such as a finished one, the call fails with an index error and writes nothing |
| Phase2.SolveMiss | backend/app/controllers/phase_2.py:59-62 | a wrong answer writes the maze with attempts + 1 and nothing else changed, and reports that attempt count |
| Phase2.SolveHitEffect | backend/app/controllers/phase_2.py:64-88 | a right answer appends exactly the token and advances the position by one; it completes the maze and returns all tokens exactly when the last point is solved, and otherwise returns the token |
| Phase2.SolvePreservesInvariant | backend/app/controllers/phase_2.py:59-81 | every write keeps the maze's key and keeps tokens == position <= path length, and the maze is completed once the path is done |
| Phase2.NextMessageIsBase64 | backend/app/controllers/phase_2.py:80-87 | after a non-final hit, the next message is the base64 of the next point's instruction, and the reported type is position % 4; the message matches the reported type only when that type is base64 |
| Phase2.OnlyBase64Agrees | backend/app/controllers/phase_2.py:80-87 | the base64 of an instruction differs from its Caesar, XOR and custom encodings |
| Phase2.TokenLists | backend/app/controllers/phase_2.py:169 | the token lists are those of the queried items, in order, and a non-maze item among them is an error |
| Phase2.CompletionEffect | backend/app/controllers/phase_2.py:156-186 | a failed completion writes nothing; a successful one marks the loaded maze completed and returns its tokens |
| Phase2.CompletionSingleMaze | backend/app/controllers/phase_2.py:160-177 | with one maze under the prefix, completion succeeds exactly when the submission is its tokens concatenated |
| Phase2.EmptyCompletion | backend/app/controllers/phase_2.py:169-177 | a maze with no tokens completes with the empty string |
| Phase2.UuidIdsExtendNoOther | backend/app/controllers/phase_2.py:30 | when every maze id of the user has the length of `str(uuid.uuid4())`, no other maze sort key begins with `MAZE#<id>` |
| Phase2.CompletionOfUuidMaze | backend/app/controllers/phase_2.py:156-177 | with uuid maze ids, completion succeeds exactly when the submission is the maze's own tokens concatenated in order |
| Phase2.UpsertKeepsUuidIds | backend/app/controllers/phase_2.py:46 | a write that adds no maze key of another length keeps every maze id of uuid length |
| Phase2.RewriteKeepsUuidIds | backend/app/controllers/phase_2.py:185-187 | rewriting a key that is already stored keeps every maze id of uuid length |
| Phase2.SolveKeepsUuidIds | backend/app/controllers/phase_2.py:54-88 | `verify_solution` writes only the maze it loaded, so every partition keeps its maze ids of uuid length |
| Phase2.CompletionKeepsUuidIds | backend/app/controllers/phase_2.py:156-186 | `verify_completion` writes only the maze it loaded, so every partition keeps its maze ids of uuid length |
| Phase2.AdvanceSolved | backend/app/controllers/phase_2.py:64-71 | solving point k of a maze solved up to k gives the maze solved up to k+1 |
| Phase2.SolveHit | backend/app/controllers/phase_2.py:54-81 | submitting the instruction of the current point writes the maze solved one point further |
| Phase2.RunFrom | backend/app/controllers/phase_2.py:54-81 | submitting the remaining instructions in order solves the whole path |
| Phase2.SolvingInOrder | backend/app/controllers/phase_2.py:28-88 | a new maze answered point by point ends completed, holding exactly the tokens earned, its position at the end of the path, with no attempts counted |
| Phase2.Phase2Controller.constructor | backend/app/controllers/phase_2.py:18-20 | the controller works on the given table |
| Phase2.Phase2Controller.UpdateMaze | backend/app/controllers/phase_2.py:152-154 | `_update_maze` puts the maze, replacing the stored one |
| Phase2.Phase2Controller.InitializeMaze | backend/app/controllers/phase_2.py:28-52 | for a uuid maze id, stores an active maze with position 0, no tokens and no attempts on the walk, keeps the user's maze ids of uuid length, and returns the base64 of the first instruction, which decodes back to it |
| Phase2.Phase2Controller.VerifySolution | backend/app/controllers/phase_2.py:54-88 | for a token of 8 hexadecimal digits, the reply and the new table are those of `SolveSpec` on the table before the call, and the user's maze ids keep uuid length |
| Phase2.Phase2Controller.VerifyCompletion | backend/app/controllers/phase_2.py:156-186 | the reply and the new table are those of `CompletionSpec` on the table before the call, and the user's maze ids keep uuid length |
| Text.FourDigits | backend/app/controllers/phase_1.py:21 | `str(randint(1000, 9999))` has four digits |
| Phase1.SequenceHeaderShape | backend/app/controllers/phase_1.py:21 | the stored sequence value is 8 characters, six digits of the base64 alphabet then `==`, and decodes back to the four-digit number |
| Phase1.SequenceValueUnquoted | backend/app/controllers/phase_1.py:21 | the sequence value contains no quote |
| Text.SplitJoinWith | backend/app/controllers/phase_1.py:33 | splitting the joined parts at the separator, when no part contains it, gives the parts back |
| Phase1.TemplatesAsPieces | backend/app/controllers/phase_1.py:26-33 | the riddle is the three values and the text between them, joined by quotes |
| Phase1.ReadTemplates | backend/app/controllers/phase_1.py:26-33 | quoting three unquoted values in unquoted templates lets the three values be read back |
| Phase1.KeyTemplateUnquoted | backend/app/controllers/phase_1.py:27 | the key template text contains no quote |
| Phase1.SequenceTemplateUnquoted | backend/app/controllers/phase_1.py:28 | the sequence template text contains no quote |
| Phase1.TokenTemplateUnquoted | backend/app/controllers/phase_1.py:29 | the token template text contains no quote |
| Phase1.ReadRiddleOfRiddle | backend/app/controllers/phase_1.py:18-35 | the riddle embeds the three header values verbatim, in order, and they can be read back from it |
| Phase1.GeneratedRiddleReadable | backend/app/controllers/phase_1.py:18-35 | for uuid prefixes and any number, the generated riddle gives back exactly the generated headers |
| Phase1.GetChallenge | backend/app/controllers/phase_1.py:68-78 | the challenge loaded is the one stored under the key, and "Challenge not found" is raised exactly when none is |
| Phase1.ChallengeLoadFails | backend/app/controllers/phase_1.py:68-78 | a step or a completion on a missing challenge raises "Challenge not found", and on an item that is not a challenge a malformed-record error, in both cases before any write |
| Phase1.Elapsed | backend/app/controllers/phase_1.py:81-83 | `(now - last).seconds` lies in [0, 86400), equals the difference within a day, and differs from it by whole days |
| Phase1.PacingIgnoresDays | backend/app/controllers/phase_1.py:81-84 | whole days between requests do not count toward the twelve seconds |
| Phase1.CheckHeaders | backend/app/controllers/phase_1.py:86-92 | the loop accepts exactly when every required header is supplied with its value |
| Phase1.StepEffect | backend/app/controllers/phase_1.py:80-97 | a step paced under 12 s writes nothing; otherwise every write refreshes `last_request_time` and keeps the quest and status; a mismatch counts an attempt and keeps the fragments; a match appends exactly the fragment and keeps attempts |
| Phase1.CompleteEffect | backend/app/controllers/phase_1.py:117-131 | completion always writes; the right key (the fragments concatenated in order) marks the challenge completed at `now`, keeps attempts and then returns the minted token; a wrong key counts an attempt and keeps status |
| Phase1.EmptyKeyCompletes | backend/app/controllers/phase_1.py:118-128 | with no fragments, the empty string completes the challenge |
| Phase1.Fragments | backend/app/controllers/phase_1.py:95-96 | the fragments of a run of steps are the steps' fragments, in order |
| Phase1.AcceptAllFields | backend/app/controllers/phase_1.py:94-97 | accepted steps append their fragments in order and change neither attempts, status nor the quest |
| Phase1.RunAccepted | backend/app/controllers/phase_1.py:65-103 | a run of paced steps with the right headers leaves the challenge holding all their fragments |
| Phase1.QuestInOrder | backend/app/controllers/phase_1.py:37-131 | a new challenge stepped with the right headers, then completed with the fragments concatenated, is completed with no attempts, and the call succeeds exactly when a token is minted |
| Phase1.Phase1Controller.constructor | backend/app/controllers/phase_1.py:14-16 | the controller works on the given table |
| Phase1.Phase1Controller.UpdateChallenge | backend/app/controllers/phase_1.py:143-146 | `_update_challenge` stamps `last_request_time` and puts the challenge |
| Phase1.Phase1Controller.CreateChallenge | backend/app/controllers/phase_1.py:37-63 | stores an active challenge with no fragments and no attempts under the user's key, and returns a riddle from which the stored headers read back |
| Phase1.Phase1Controller.VerifyRequestHeaders | backend/app/controllers/phase_1.py:65-103 | for a fragment of 8 hexadecimal digits, the reply and the new table are those of `StepSpec` on the table before the call |
| Phase1.Phase1Controller.CompleteChallenge | backend/app/controllers/phase_1.py:105-138 | the reply and the new table are those of `CompleteSpec` on the table before the call |
| RateLimiter.CleanOldRequests | backend/app/utils/rate_limit.py:25-27 | pruning never lengthens the log |
| RateLimiter.CleanMembers | backend/app/utils/rate_limit.py:25-27 | pruning keeps exactly the timestamps later than `now - window` |
| RateLimiter.CleanAscendingSuffix | backend/app/utils/rate_limit.py:25-27 | on an ascending log, pruning drops a prefix of timestamps no later than `now - window` and keeps the rest in order |
| RateLimiter.CleanKeepsRecent | backend/app/utils/rate_limit.py:25-27 | a log entirely inside the window is kept whole |
| RateLimiter.CleanIdempotent | backend/app/utils/rate_limit.py:25-27 | pruning twice prunes nothing more |
| RateLimiter.LogItem | backend/app/utils/rate_limit.py:19-23 | the log is stored under the user's `RATELIMIT#API` key |
| RateLimiter.CheckEffect | backend/app/utils/rate_limit.py:29-74 | the call never raises; it refuses exactly when the log is read and already holds `max` timestamps in the window, and then writes nothing; a write happens exactly when the store does not fail and the request is admitted; an existing log becomes the pruned log plus `now`, never longer than `max`; a missing log is created as `[now]` |
| RateLimiter.AppendKeepsOrder | backend/app/utils/rate_limit.py:40-46 | appending `now` to the pruned log keeps an ascending log ascending and no later than `now` |
| RateLimiter.CheckPreservesInvariant | backend/app/utils/rate_limit.py:38-66 | an admitted call keeps the user's log ascending and no later than the current time, and touches no other key |
| RateLimiter.RemainingSpec | backend/app/utils/rate_limit.py:76-109 | the quota left lies in [0, max] and the reset time is never before `now` |
| RateLimiter.ResetWindow | backend/app/utils/rate_limit.py:87-89 | on an ascending log, the same requests count until the oldest counted one plus the window, and fewer count from then on |
| RateLimiter.ResetIsWhenOldestExpires | backend/app/utils/rate_limit.py:84-91 | the reported reset time is exactly the moment the oldest counted request stops counting |
| RateLimiter.RefusedIffNoneRemaining | backend/app/utils/rate_limit.py:29-109 | with a positive limit and a readable log, a request is refused exactly when no request remains |
| RateLimiter.RunChecksOnLog | backend/app/utils/rate_limit.py:29-68 | a run of checks on the table decides as the same run on the user's log alone |
| RateLimiter.CheckRecentLog | backend/app/utils/rate_limit.py:38-56 | a log inside the window refuses once it holds `max` requests, and otherwise gains `now` |
| RateLimiter.BurstRecent | backend/app/utils/rate_limit.py:25-27 | within a burst shorter than the window, every earlier request still counts |
| RateLimiter.BurstFrom | backend/app/utils/rate_limit.py:38-56 | within a burst, a log holding k requests admits `max - k` more and then refuses |
| RateLimiter.BurstAdmitsLimit | backend/app/utils/rate_limit.py:29-68 | for a new user, `max + 1` requests within one window admit exactly the first `max` |
| RateLimiter.SixthRequestRefused | backend/app/utils/rate_limit.py:13-68 | with the defaults (5 per 60 s), six requests within a minute are admitted five times, then refused |
| RateLimiter.RateLimit.constructor | backend/app/utils/rate_limit.py:13-17 | the limiter keeps the given table, limit and window |
| RateLimiter.RateLimit.Default | backend/app/utils/rate_limit.py:13 | the default limit is 5 requests per 60 seconds |
| RateLimiter.RateLimit.CheckRateLimit | backend/app/utils/rate_limit.py:29-74 | the answer and the new table are those of `CheckSpec` on the table before the call |
| RateLimiter.RateLimit.GetRemainingRequests | backend/app/utils/rate_limit.py:76-109 | the quota returned is `RemainingSpec` of the table, and nothing changes |

## Left out

- The `rate_limit` decorator (backend/app/utils/rate_limit.py:112-137) is left out. It only maps the limiter's answers to HTTP 401 and 429 responses.
- The Flask routes are left out.
- DynamoDB is modelled only as the get, put and prefix-query operations on one table:
  - query pagination, consistency and concurrent last-write-wins races are not modelled;
  - the database connection setup is not part of this model.
- ISO-8601 timestamps are whole seconds. `updated_at` and the rate limiter's `created_at`/`updated_at` are not kept: they are bookkeeping that no operation reads. A maze's and a challenge's `created_at` is kept, as `createdAt`. A malformed stored timestamp is not modelled.
- `_clean_old_requests` reads the clock itself. The model gives it the same `now` as the enclosing call.
- In `check_rate_limit` and `get_remaining_requests`, every exception is modelled by where it is raised (`Fault`, `readFails`), not by its cause.
- `update_item` in `check_rate_limit` keeps an item's other attributes. The model writes the log item whole.
- Uuids, `random.randint`, fragments and tokens are parameters. Phase2.Phase2Controller.InitializeMaze takes the maze id and the four random steps, Phase2.Phase2Controller.VerifySolution the token; the Phase 1 methods take the key, number, token and fragment. The pure transition functions accept any string in their place; only the methods require the drawn form.
- `_generate_phase2_token` calls `AuthUtil`, which is not part of this model. Its result is the parameter `minted`; `None` stands for the failure. As written, line 152 raises `AttributeError` on `datetime.timedelta`, and that case is `minted == None`. The completed record has been written before the token is asked for.
- Encoders.Caesar: only ASCII letters are shifted. Python's `isalpha` and `isupper` also accept non-ASCII letters, and on those `chr(...)` computes characters outside the alphabet. Instructions are ASCII, so the maze never meets that case.
- Request headers are a map with exact-case names. Flask's header lookup ignores case.
- Logging is left out.
