/**
 * The crypto maze (`Phase2Controller`, backend/app/controllers/phase_2.py): a
 * four-point random walk whose points are handed out one at a time as encoded
 * instructions; each correctly decoded instruction earns a token, and the
 * tokens, concatenated, complete the maze.
 */
module Phase2 {
  import opened Common
  import opened Text
  import opened Records
  import opened Store
  import opened Encoders
  import Utf8
  import Base64

  // ---------------------------------------------------------------------------
  // Instructions
  // ---------------------------------------------------------------------------

  /** `f"Navigate to ({x}, {y})"`. */
  function Instruction(p: Point): string {
    "Navigate to (" + IntToString(p.x) + ", " + IntToString(p.y) + ")"
  }

  /** Every instruction is ASCII, starts with `N`, ends with `)`, and so is left alone by `strip()`. */
  lemma InstructionShape(p: Point)
    ensures IsAscii(Instruction(p)) && Trimmed(Instruction(p))
    ensures Instruction(p)[0] == 'N' && Instruction(p)[|Instruction(p)| - 1] == ')'
  {
    var lead, sx, mid, sy := "Navigate to (", IntToString(p.x), ", ", IntToString(p.y);
    var s := Instruction(p);
    assert s == lead + sx + mid + sy + ")";
    forall i | 0 <= i < |s|
      ensures s[i] as int < 128
    {
      if i < |lead| {
        assert s[i] == lead[i];
      } else if i < |lead| + |sx| {
        assert s[i] == sx[i - |lead|];
      } else if i < |lead| + |sx| + |mid| {
        assert s[i] == mid[i - |lead| - |sx|];
      } else if i < |lead| + |sx| + |mid| + |sy| {
        assert s[i] == sy[i - |lead| - |sx| - |mid|];
      }
    }
  }

  /** An instruction submitted as it is passes the comparison after `strip()`. */
  lemma StripInstruction(p: Point)
    ensures Strip(Instruction(p)) == Instruction(p)
  {
    var s := Instruction(p);
    InstructionShape(p);
    StripPadded("", s, "");
    assert "" + s + "" == s;
  }

  /**
   * `_verify_coordinate`: whether the stripped submission is the instruction
   * for the point at `position`; an IndexError when there is no such point.
   */
  function VerifyCoordinate(coordinates: seq<Point>, position: nat, decoded: string): (r: Result<bool, Error>)
    ensures r.Err? <==> position >= |coordinates|
    ensures r.Err? ==> r.error == IndexOutOfRange
  {
    if position < |coordinates| then Ok(Strip(decoded) == Instruction(coordinates[position]))
    else Err(IndexOutOfRange)
  }

  /** The instruction, with any whitespace before and after it, is accepted. */
  lemma VerifyCoordinateAcceptsPadded(coordinates: seq<Point>, position: nat, before: string, after: string)
    requires position < |coordinates| && AllSpace(before) && AllSpace(after)
    ensures VerifyCoordinate(coordinates, position, before + Instruction(coordinates[position]) + after) == Ok(true)
  {
    InstructionShape(coordinates[position]);
    StripPadded(before, Instruction(coordinates[position]), after);
  }

  /** Only such a submission is accepted: the instruction sits in it between two runs of whitespace. */
  lemma VerifyCoordinateAcceptsOnlyPadded(coordinates: seq<Point>, position: nat, decoded: string)
    returns (i: nat, j: nat)
    requires VerifyCoordinate(coordinates, position, decoded) == Ok(true)
    ensures i <= j <= |decoded| && decoded[i..j] == Instruction(coordinates[position])
    ensures AllSpace(decoded[..i]) && AllSpace(decoded[j..])
  {
    i, j := StripIsSlice(decoded);
  }

  // ---------------------------------------------------------------------------
  // The path and its messages
  // ---------------------------------------------------------------------------

  const PathLength := 4

  /** Each step of the walk moves by `random.randint(-2, 2)` on each axis. */
  predicate StepsInRange(steps: seq<(int, int)>) {
    forall i :: 0 <= i < |steps| ==> -2 <= steps[i].0 <= 2 && -2 <= steps[i].1 <= 2
  }

  /** The point reached from the origin after the first `n` steps. */
  function Position(steps: seq<(int, int)>, n: nat): Point
    requires n <= |steps|
  {
    if n == 0 then Point(0, 0)
    else
      var p := Position(steps, n - 1);
      Point(p.x + steps[n - 1].0, p.y + steps[n - 1].1)
  }

  /** The points of the walk: point `i` is where step `i` ends. */
  function Path(steps: seq<(int, int)>): seq<Point> {
    seq(|steps|, i requires 0 <= i < |steps| => Position(steps, i + 1))
  }

  /** Within two on each axis. */
  predicate Near(p: Point, q: Point) {
    -2 <= q.x - p.x <= 2 && -2 <= q.y - p.y <= 2
  }

  /**
   * The path is a walk from the origin: its first point is within two of the
   * origin, each later point within two of the one before, and the steps can
   * be read back from it.
   */
  lemma PathIsWalk(steps: seq<(int, int)>)
    requires StepsInRange(steps) && |steps| > 0
    ensures |Path(steps)| == |steps|
    ensures Near(Point(0, 0), Path(steps)[0])
    ensures forall i :: 0 < i < |steps| ==> Near(Path(steps)[i - 1], Path(steps)[i])
    ensures forall i :: 0 < i < |steps| ==>
      (Path(steps)[i].x - Path(steps)[i - 1].x, Path(steps)[i].y - Path(steps)[i - 1].y) == steps[i]
  {
    var path := Path(steps);
    assert path[0] == Position(steps, 1);
    forall i | 0 < i < |steps|
      ensures Near(path[i - 1], path[i])
      ensures (path[i].x - path[i - 1].x, path[i].y - path[i - 1].y) == steps[i]
    {
      assert path[i - 1] == Position(steps, i);
      assert path[i] == Position(steps, i + 1);
    }
  }

  /** `_generate_maze_path`, with the values `random.randint` draws given as `steps`. */
  method GenerateMazePath(steps: seq<(int, int)>) returns (coordinates: seq<Point>)
    requires |steps| == PathLength && StepsInRange(steps)
    ensures coordinates == Path(steps)
    ensures |coordinates| == PathLength && Near(Point(0, 0), coordinates[0])
    ensures forall i :: 0 < i < PathLength ==> Near(coordinates[i - 1], coordinates[i])
  {
    coordinates := [];
    var x, y := 0, 0;
    for i := 0 to PathLength
      invariant |coordinates| == i && Point(x, y) == Position(steps, i)
      invariant forall j :: 0 <= j < i ==> coordinates[j] == Position(steps, j + 1)
    {
      x := x + steps[i].0;
      y := y + steps[i].1;
      coordinates := coordinates + [Point(x, y)];
    }
    PathIsWalk(steps);
  }

  /**
   * `_create_encoded_messages`: the instruction for point `i`, encoded with the
   * scheme of position `i`; each message decodes back to its instruction.
   */
  method CreateEncodedMessages(coordinates: seq<Point>) returns (messages: seq<string>)
    ensures |messages| == |coordinates|
    ensures forall i :: 0 <= i < |coordinates| ==>
      messages[i] == Encode(NextEncodingType(i), Instruction(coordinates[i]))
    ensures forall i :: 0 <= i < |coordinates| ==>
      Decode(NextEncodingType(i), messages[i]) == Some(Instruction(coordinates[i]))
  {
    ghost var messageAt := (i: nat) =>
      if i < |coordinates| then Encode(NextEncodingType(i), Instruction(coordinates[i])) else "";
    messages := [];
    for i := 0 to |coordinates|
      invariant messages == Tabulate(messageAt, i)
    {
      var message := Instruction(coordinates[i]);
      var encodingType := NextEncodingType(i);
      var encoded := EncodeWith(encodingType, message);
      messages := messages + [encoded];
    }
    TabulateAt(messageAt, |coordinates|);
    MessagesDecode(coordinates, messages);
  }

  /** The first `n` values of `f`, in order. */
  ghost function Tabulate<T>(f: nat -> T, n: nat): seq<T> {
    if n == 0 then [] else Tabulate(f, n - 1) + [f(n - 1)]
  }

  /** Proof helper: element `i` of the table is `f(i)`. */
  lemma {:induction false} TabulateAt<T>(f: nat -> T, n: nat)
    ensures |Tabulate(f, n)| == n
    ensures forall i :: 0 <= i < n ==> Tabulate(f, n)[i] == f(i)
  {
    if n > 0 {
      TabulateAt(f, n - 1);
    }
  }

  /** Proof helper: messages encoded position by position decode back to their instructions. */
  lemma MessagesDecode(coordinates: seq<Point>, messages: seq<string>)
    requires |messages| == |coordinates|
    requires forall i :: 0 <= i < |coordinates| ==>
      messages[i] == Encode(NextEncodingType(i), Instruction(coordinates[i]))
    ensures forall i :: 0 <= i < |coordinates| ==>
      Decode(NextEncodingType(i), messages[i]) == Some(Instruction(coordinates[i]))
  {
    forall i | 0 <= i < |coordinates|
      ensures Decode(NextEncodingType(i), messages[i]) == Some(Instruction(coordinates[i]))
    {
      DecodeEncode(NextEncodingType(i), Instruction(coordinates[i]));
    }
  }

  // ---------------------------------------------------------------------------
  // The maze record
  // ---------------------------------------------------------------------------

  /** The record `initialize_maze` stores. */
  function NewMaze(email: string, mazeId: string, coordinates: seq<Point>, now: int): Maze {
    Maze(UserPk(email), MazeSk(mazeId), mazeId, Active, coordinates, 0, [], 0, now)
  }

  /**
   * What every stored maze satisfies: one token per point solved, no more
   * points solved than there are, and a maze whose points are all solved is
   * completed. (`verify_completion` may complete it earlier.)
   */
  predicate MazeInvariant(m: Maze) {
    |m.collectedTokens| == m.currentPosition <= |m.coordinates| &&
    (m.currentPosition == |m.coordinates| ==> m.status == Completed)
  }

  /** A new maze on a non-empty path satisfies the invariant, with nothing solved and nothing attempted. */
  lemma NewMazeInvariant(email: string, mazeId: string, coordinates: seq<Point>, now: int)
    requires |coordinates| > 0
    ensures MazeInvariant(NewMaze(email, mazeId, coordinates, now))
    ensures MazeItem(NewMaze(email, mazeId, coordinates, now)).Key() == MazeKey(email, mazeId)
  {
  }

  /** `_get_maze`: the maze under the user's key, or the error raised reading it. */
  function GetMaze(es: seq<Item>, email: string, mazeId: string): (r: Result<Maze, Error>)
    ensures r.Ok? ==> Find(es, MazeKey(email, mazeId)) == Some(MazeItem(r.value))
    ensures r == Err(NotFound) <==> Find(es, MazeKey(email, mazeId)).None?
  {
    match Find(es, MazeKey(email, mazeId))
    case None => Err(NotFound)
    case Some(item) => if item.MazeItem? then Ok(item.maze) else Err(MalformedRecord)
  }

  /** What `verify_solution` returns on success. */
  datatype SolveReply =
    | Finished(finalTokens: seq<string>)
    | Next(token: string, nextMessage: string, encodingType: EncodingType)

  /** A missed step: one more attempt, nothing else changed. */
  predicate Missed(m: Maze, m': Maze) {
    m' == m.(attempts := m.attempts + 1)
  }

  /** A solved step: the token appended, the position advanced, attempts unchanged. */
  predicate Advanced(m: Maze, m': Maze, token: string) {
    m'.pk == m.pk && m'.sk == m.sk && m'.mazeId == m.mazeId && m'.createdAt == m.createdAt && m'.coordinates == m.coordinates && m'.attempts == m.attempts &&
    m'.collectedTokens == m.collectedTokens + [token] && m'.currentPosition == m.currentPosition + 1 &&
    m'.status == (if m'.currentPosition >= |m.coordinates| then Completed else m.status)
  }

  /** The maze after a solved step: the token appended, the position advanced, completed at the end. */
  function Advance(m: Maze, token: string): Maze {
    var position := m.currentPosition + 1;
    m.(collectedTokens := m.collectedTokens + [token], currentPosition := position,
       status := if position >= |m.coordinates| then Completed else m.status)
  }

  /** The reply to a solved step: the final tokens, or the token and the next point's message. */
  function HitReply(m': Maze, token: string): SolveReply {
    if m'.currentPosition >= |m'.coordinates| then Finished(m'.collectedTokens)
    else Next(token, EncodeBase64(Instruction(m'.coordinates[m'.currentPosition])), NextEncodingType(m'.currentPosition))
  }

  /**
   * `verify_solution` on a loaded maze once `_verify_coordinate` has given its
   * verdict: its reply and the maze it writes back.
   */
  function SolveOn(m: Maze, verdict: Result<bool, Error>, token: string): Outcome<SolveReply> {
    match verdict
    case Err(e) => Outcome(Err(e), None)
    case Ok(hit) =>
      if !hit then Outcome(Err(InvalidSolution(m.attempts + 1)), Some(MazeItem(m.(attempts := m.attempts + 1))))
      else
        var m' := Advance(m, token);
        Outcome(Ok(HitReply(m', token)), Some(MazeItem(m')))
  }

  /** `verify_solution` on a loaded maze: its reply and the maze it writes back. */
  function SolveMaze(m: Maze, decoded: string, token: string): Outcome<SolveReply> {
    SolveOn(m, VerifyCoordinate(m.coordinates, m.currentPosition, decoded), token)
  }

  /**
   * `verify_solution` as a function of the table: its reply and the maze it
   * writes back. `token` is the value `_generate_token` draws.
   */
  function SolveSpec(es: seq<Item>, email: string, mazeId: string, decoded: string, token: string): Outcome<SolveReply> {
    match GetMaze(es, email, mazeId)
    case Err(e) => Outcome(Err(e), None)
    case Ok(m) => SolveMaze(m, decoded, token)
  }

  /** Proof helper: on a stored maze, `SolveSpec` is `SolveMaze` of it, and a failed load is passed on unwritten. */
  lemma SolveLoads(es: seq<Item>, email: string, mazeId: string, decoded: string, token: string)
    ensures GetMaze(es, email, mazeId).Err? ==>
      SolveSpec(es, email, mazeId, decoded, token) == Outcome(Err(GetMaze(es, email, mazeId).error), None)
    ensures GetMaze(es, email, mazeId).Ok? ==>
      SolveSpec(es, email, mazeId, decoded, token) == SolveMaze(GetMaze(es, email, mazeId).value, decoded, token)
  {
  }

  /** A maze with no point left to solve fails reading it (an IndexError) and writes nothing. */
  lemma SolveUnsolvable(m: Maze, decoded: string, token: string)
    requires m.currentPosition >= |m.coordinates|
    ensures SolveMaze(m, decoded, token) == Outcome(Err(IndexOutOfRange), None)
  {
    assert VerifyCoordinate(m.coordinates, m.currentPosition, decoded) == Err(IndexOutOfRange);
  }

  /** A miss costs one attempt, written back before the error is raised. */
  lemma SolveMiss(m: Maze, token: string)
    ensures SolveOn(m, Ok(false), token).reply == Err(InvalidSolution(m.attempts + 1))
    ensures SolveOn(m, Ok(false), token).write.Some? && SolveOn(m, Ok(false), token).write.value.MazeItem?
    ensures Missed(m, SolveOn(m, Ok(false), token).write.value.maze)
  {
    var m' := m.(attempts := m.attempts + 1);
    assert SolveOn(m, Ok(false), token) == Outcome(Err(InvalidSolution(m.attempts + 1)), Some(MazeItem(m')));
  }

  /**
   * A hit appends the token and advances, attempts unchanged, and finishes
   * the maze, replying with every token, exactly when the solved point was the last.
   */
  lemma SolveHitEffect(m: Maze, token: string)
    ensures SolveOn(m, Ok(true), token).reply == Ok(HitReply(Advance(m, token), token))
    ensures SolveOn(m, Ok(true), token).write == Some(MazeItem(Advance(m, token)))
    ensures Advanced(m, Advance(m, token), token)
    ensures SolveOn(m, Ok(true), token).reply.value.Finished? <==> m.currentPosition + 1 >= |m.coordinates|
    ensures SolveOn(m, Ok(true), token).reply.value.Finished? ==>
      SolveOn(m, Ok(true), token).reply.value.finalTokens == m.collectedTokens + [token]
    ensures SolveOn(m, Ok(true), token).reply.value.Next? ==> SolveOn(m, Ok(true), token).reply.value.token == token
  {
    var m' := Advance(m, token);
    assert SolveOn(m, Ok(true), token) == Outcome(Ok(HitReply(m', token)), Some(MazeItem(m')));
  }

  /** Every write of `verify_solution` keeps the maze invariant and goes to the maze's own key. */
  lemma SolvePreservesInvariant(m: Maze, verdict: Result<bool, Error>, token: string)
    requires MazeInvariant(m) && (verdict.Ok? ==> m.currentPosition < |m.coordinates|)
    ensures SolveOn(m, verdict, token).write.Some? ==>
      SolveOn(m, verdict, token).write.value.MazeItem? &&
      MazeInvariant(SolveOn(m, verdict, token).write.value.maze) &&
      SolveOn(m, verdict, token).write.value.Key() == ItemKey(m.pk, m.sk)
  {
    if verdict == Ok(true) {
      SolveHitEffect(m, token);
    } else if verdict == Ok(false) {
      SolveMiss(m, token);
    }
  }

  /**
   * After a solved step that is not the last, the next message is the base64
   * of the next instruction whatever the reported encoding type, and it is
   * that type's encoding of the instruction only when the type is base64.
   */
  lemma NextMessageIsBase64(m: Maze, verdict: Result<bool, Error>, token: string)
    requires SolveOn(m, verdict, token).reply.Ok? && SolveOn(m, verdict, token).reply.value.Next?
    ensures m.currentPosition + 1 < |m.coordinates|
    ensures SolveOn(m, verdict, token).reply.value.encodingType == NextEncodingType(m.currentPosition + 1)
    ensures DecodeBase64(SolveOn(m, verdict, token).reply.value.nextMessage) ==
      Some(Instruction(m.coordinates[m.currentPosition + 1]))
    ensures SolveOn(m, verdict, token).reply.value.nextMessage ==
        Encode(SolveOn(m, verdict, token).reply.value.encodingType, Instruction(m.coordinates[m.currentPosition + 1]))
      <==> SolveOn(m, verdict, token).reply.value.encodingType == Base64Type
  {
    assert verdict == Ok(true);
    SolveHitEffect(m, token);
    var p := m.coordinates[m.currentPosition + 1];
    DecodeEncodeBase64(Instruction(p));
    OnlyBase64Agrees(p, NextEncodingType(m.currentPosition + 1));
  }

  /** The base64 of an instruction is its encoding under base64 and under no other scheme. */
  lemma OnlyBase64Agrees(p: Point, t: EncodingType)
    ensures EncodeBase64(Instruction(p)) == Encode(t, Instruction(p)) <==> t == Base64Type
  {
    var s := Instruction(p);
    InstructionShape(p);
    var b := EncodeBase64(s);
    FirstDigit(s);
    assert b[0] == 'T';
    match t
    case Base64Type =>
    case CaesarType =>
      assert Caesar(s, CaesarShift)[0] == 'Q';
    case XorType =>
      assert XorLow(14) == 36;
      assert Xor(s)[0] == 'd';
    case CustomType =>
      var r := Reverse(s);
      assert r[0] == ')';
      assert IsAscii(r);
      FirstDigit(r);
      assert EncodeCustom(s)[0] == 'K';
  }

  /** The first base64 digit of an ASCII text encodes the top six bits of its first character. */
  lemma FirstDigit(s: string)
    requires |s| > 0 && IsAscii(s)
    ensures |EncodeBase64(s)| > 0 && EncodeBase64(s)[0] == Base64.DigitFor(s[0] as int / 4)
  {
    Utf8.EncodeAscii(s);
  }

  // ---------------------------------------------------------------------------
  // verify_completion
  // ---------------------------------------------------------------------------

  /** `[item['collected_tokens'] for item in items]`: None when an item has no such attribute. */
  function TokenLists(items: seq<Item>): (r: Option<seq<seq<string>>>)
    ensures r.Some? <==> forall i :: 0 <= i < |items| ==> items[i].MazeItem?
    ensures r.Some? ==> |r.value| == |items| && forall i :: 0 <= i < |items| ==> r.value[i] == items[i].maze.collectedTokens
  {
    if items == [] then Some([])
    else if !items[0].MazeItem? then None
    else
      match TokenLists(items[1..])
      case None => None
      case Some(rest) => Some([items[0].maze.collectedTokens] + rest)
  }

  /**
   * `verify_completion` as a function of the table: the tokens of every maze
   * whose sort key starts with `MAZE#<id>`, in query order, concatenated and
   * compared with the submission.
   */
  function CompletionSpec(es: seq<Item>, email: string, mazeId: string, collected: string): Outcome<seq<string>> {
    match GetMaze(es, email, mazeId)
    case Err(e) => Outcome(Err(e), None)
    case Ok(m) =>
      match TokenLists(Matching(es, UserPk(email), MazeSk(mazeId)))
      case None => Outcome(Err(MalformedRecord), None)
      case Some(lists) =>
        if Join(Flatten(lists)) != collected then Outcome(Err(InvalidTokenCollection), None)
        else Outcome(Ok(m.collectedTokens), Some(MazeItem(m.(status := Completed))))
  }

  /**
   * A failed completion writes nothing, so attempts do not change; a
   * successful one writes back the same maze marked completed, which keeps
   * the invariant.
   */
  lemma CompletionEffect(es: seq<Item>, email: string, mazeId: string, collected: string)
    ensures var o := CompletionSpec(es, email, mazeId, collected);
      (o.reply.Err? ==> o.write.None?) &&
      (o.reply.Ok? ==>
        (GetMaze(es, email, mazeId).Ok? && o.write.Some? &&
         o.write.value == MazeItem(GetMaze(es, email, mazeId).value.(status := Completed)) &&
         o.reply.value == GetMaze(es, email, mazeId).value.collectedTokens &&
         (MazeInvariant(GetMaze(es, email, mazeId).value) ==> MazeInvariant(o.write.value.maze))))
  {
  }

  lemma {:induction false} FlattenSingle<T>(l: seq<T>)
    ensures Flatten([l]) == l
  {
    assert [l][1..] == [];
  }

  /**
   * When no other maze of the user has an id that extends this one, the
   * completion succeeds exactly when the submission is this maze's tokens
   * concatenated in order.
   */
  lemma CompletionSingleMaze(es: seq<Item>, email: string, mazeId: string, collected: string)
    requires Sorted(es) && GetMaze(es, email, mazeId).Ok?
    requires forall x :: x in es && x.Key().pk == UserPk(email) && MazeSk(mazeId) <= x.Key().sk ==> x.Key().sk == MazeSk(mazeId)
    ensures CompletionSpec(es, email, mazeId, collected).reply.Ok? <==>
      collected == Join(GetMaze(es, email, mazeId).value.collectedTokens)
  {
    var m := GetMaze(es, email, mazeId).value;
    MatchingSingle(es, UserPk(email), MazeSk(mazeId), MazeItem(m));
    var lists := TokenLists([MazeItem(m)]);
    assert lists.Some? && |lists.value| == 1 && lists.value[0] == m.collectedTokens;
    assert lists.value == [m.collectedTokens];
    FlattenSingle(m.collectedTokens);
  }

  /** A maze with no token collected yet is completed by the empty string. */
  lemma EmptyCompletion(es: seq<Item>, email: string, mazeId: string)
    requires Sorted(es) && GetMaze(es, email, mazeId).Ok? && GetMaze(es, email, mazeId).value.collectedTokens == []
    requires forall x :: x in es && x.Key().pk == UserPk(email) && MazeSk(mazeId) <= x.Key().sk ==> x.Key().sk == MazeSk(mazeId)
    ensures CompletionSpec(es, email, mazeId, "").reply == Ok([])
  {
    CompletionSingleMaze(es, email, mazeId, "");
  }

  /** The length of `str(uuid.uuid4())`, the form of every maze id `initialize_maze` makes. */
  const UuidLength := 36

  /** Every maze sort key in the user's partition carries an id of uuid length. */
  predicate UuidMazeIds(es: seq<Item>, email: string) {
    forall x :: x in es && x.Key().pk == UserPk(email) && MazeSk("") <= x.Key().sk ==>
      |x.Key().sk| == |MazeSk("")| + UuidLength
  }

  /** When all maze ids have uuid length, no other maze sort key extends `MAZE#<id>`. */
  lemma UuidIdsExtendNoOther(es: seq<Item>, email: string, mazeId: string)
    requires UuidMazeIds(es, email) && |mazeId| == UuidLength
    ensures forall x :: x in es && x.Key().pk == UserPk(email) && MazeSk(mazeId) <= x.Key().sk ==>
      x.Key().sk == MazeSk(mazeId)
  {
    forall x | x in es && x.Key().pk == UserPk(email) && MazeSk(mazeId) <= x.Key().sk
      ensures x.Key().sk == MazeSk(mazeId)
    {
      var sk := x.Key().sk;
      assert sk[..|MazeSk("")|] == MazeSk(mazeId)[..|MazeSk("")|] == MazeSk("");
      assert MazeSk("") <= sk;
      assert |sk| == |MazeSk(mazeId)|;
    }
  }

  /**
   * With uuid maze ids, `verify_completion` succeeds exactly when the
   * submission is the maze's own tokens concatenated in order.
   */
  lemma CompletionOfUuidMaze(es: seq<Item>, email: string, mazeId: string, collected: string)
    requires Sorted(es) && GetMaze(es, email, mazeId).Ok? && UuidMazeIds(es, email) && |mazeId| == UuidLength
    ensures CompletionSpec(es, email, mazeId, collected).reply.Ok? <==>
      collected == Join(GetMaze(es, email, mazeId).value.collectedTokens)
  {
    UuidIdsExtendNoOther(es, email, mazeId);
    CompletionSingleMaze(es, email, mazeId, collected);
  }

  /** Writing an item whose key is not a maze key of another length keeps every maze id of uuid length. */
  lemma UpsertKeepsUuidIds(es: seq<Item>, email: string, item: Item)
    requires UuidMazeIds(es, email)
    requires item.Key().pk == UserPk(email) && MazeSk("") <= item.Key().sk ==>
      |item.Key().sk| == |MazeSk("")| + UuidLength
    ensures UuidMazeIds(Upsert(es, item), email)
  {
  }

  /** A write to a key that is already stored keeps every maze id of uuid length. */
  lemma RewriteKeepsUuidIds(es: seq<Item>, owner: string, write: Option<Item>)
    requires UuidMazeIds(es, owner)
    requires write.Some? ==> exists x :: x in es && x.Key() == write.value.Key()
    ensures UuidMazeIds(Commit(es, write), owner)
  {
    if write.Some? {
      var x :| x in es && x.Key() == write.value.Key();
      UpsertKeepsUuidIds(es, owner, write.value);
    }
  }

  /** `verify_solution` writes only the maze it loaded, so it keeps every partition's maze ids of uuid length. */
  lemma SolveKeepsUuidIds(es: seq<Item>, owner: string, email: string, mazeId: string, decoded: string, token: string)
    requires UuidMazeIds(es, owner)
    ensures UuidMazeIds(Commit(es, SolveSpec(es, email, mazeId, decoded, token).write), owner)
  {
    var o := SolveSpec(es, email, mazeId, decoded, token);
    if o.write.Some? {
      var m := GetMaze(es, email, mazeId).value;
      var hit := VerifyCoordinate(m.coordinates, m.currentPosition, decoded);
      assert hit.Ok?;
      if hit.value {
        SolveHitEffect(m, token);
      } else {
        SolveMiss(m, token);
      }
      assert MazeItem(m) in es;
    }
    RewriteKeepsUuidIds(es, owner, o.write);
  }

  /** `verify_completion` writes only the maze it loaded, so it keeps every partition's maze ids of uuid length. */
  lemma CompletionKeepsUuidIds(es: seq<Item>, owner: string, email: string, mazeId: string, collected: string)
    requires UuidMazeIds(es, owner)
    ensures UuidMazeIds(Commit(es, CompletionSpec(es, email, mazeId, collected).write), owner)
  {
    var o := CompletionSpec(es, email, mazeId, collected);
    if o.write.Some? {
      CompletionEffect(es, email, mazeId, collected);
      assert MazeItem(GetMaze(es, email, mazeId).value) in es;
    }
    RewriteKeepsUuidIds(es, owner, o.write);
  }

  // ---------------------------------------------------------------------------
  // Runs of submissions
  // ---------------------------------------------------------------------------

  /** The table after a sequence of `verify_solution` calls, each a (submission, token) pair. */
  function RunSolve(es: seq<Item>, email: string, mazeId: string, calls: seq<(string, string)>): seq<Item>
    decreases |calls|
  {
    if calls == [] then es
    else
      var o := SolveSpec(es, email, mazeId, calls[0].0, calls[0].1);
      RunSolve(Commit(es, o.write), email, mazeId, calls[1..])
  }

  /** The maze a run reaches from `m` after solving its first `k` points with `tokens`. */
  function SolvedUpTo(m: Maze, tokens: seq<string>, k: nat): Maze
    requires k <= |tokens| == |m.coordinates|
  {
    m.(currentPosition := k, collectedTokens := tokens[..k],
       status := if k == |m.coordinates| then Completed else m.status)
  }

  /** Solving point `k` of a run takes it to the maze with `k + 1` points solved. */
  lemma AdvanceSolved(m: Maze, tokens: seq<string>, k: nat)
    requires m.status == Active && k < |tokens| == |m.coordinates|
    ensures Advance(SolvedUpTo(m, tokens, k), tokens[k]) == SolvedUpTo(m, tokens, k + 1)
  {
    assert tokens[..k] + [tokens[k]] == tokens[..k + 1];
  }

  /** A correct submission on a maze with points left writes the maze one step further on. */
  lemma SolveHit(es: seq<Item>, email: string, mazeId: string, m: Maze, tokens: seq<string>, k: nat)
    requires m.status == Active && k < |tokens| == |m.coordinates|
    requires Find(es, MazeKey(email, mazeId)) == Some(MazeItem(SolvedUpTo(m, tokens, k)))
    ensures SolveSpec(es, email, mazeId, Instruction(m.coordinates[k]), tokens[k]).write ==
      Some(MazeItem(SolvedUpTo(m, tokens, k + 1)))
  {
    var cur, d, t := SolvedUpTo(m, tokens, k), Instruction(m.coordinates[k]), tokens[k];
    assert GetMaze(es, email, mazeId) == Ok(cur);
    SolveLoads(es, email, mazeId, d, t);
    assert cur.coordinates == m.coordinates && cur.currentPosition == k;
    StripInstruction(m.coordinates[k]);
    assert VerifyCoordinate(cur.coordinates, k, d) == Ok(true);
    SolveHitEffect(cur, t);
    AdvanceSolved(m, tokens, k);
  }

  /** Submitting the remaining instructions in order, from point `k` on. */
  lemma {:induction false} RunFrom(es: seq<Item>, email: string, mazeId: string, m: Maze,
                                   tokens: seq<string>, calls: seq<(string, string)>, k: nat)
    requires m.status == Active && k <= |tokens| == |m.coordinates| == |calls|
    requires forall i :: 0 <= i < |calls| ==> calls[i] == (Instruction(m.coordinates[i]), tokens[i])
    requires Find(es, MazeKey(email, mazeId)) == Some(MazeItem(SolvedUpTo(m, tokens, k)))
    ensures Find(RunSolve(es, email, mazeId, calls[k..]), MazeKey(email, mazeId)) ==
      Some(MazeItem(SolvedUpTo(m, tokens, |tokens|)))
    decreases |tokens| - k
  {
    if k < |tokens| {
      var next := MazeItem(SolvedUpTo(m, tokens, k + 1));
      SolveHit(es, email, mazeId, m, tokens, k);
      var es' := Commit(es, Some(next));
      FindUpsert(es, next, MazeKey(email, mazeId));
      assert calls[k..][1..] == calls[k + 1..];
      assert RunSolve(es, email, mazeId, calls[k..]) == RunSolve(es', email, mazeId, calls[k + 1..]);
      RunFrom(es', email, mazeId, m, tokens, calls, k + 1);
    } else {
      assert calls[k..] == [];
    }
  }

  /**
   * A fresh maze whose instructions are submitted in order, with one token
   * drawn per step, ends completed, at the end of its path, holding exactly
   * those tokens in that order, with no attempt counted.
   */
  lemma SolvingInOrder(es: seq<Item>, email: string, mazeId: string, coordinates: seq<Point>, now: int,
                       tokens: seq<string>, calls: seq<(string, string)>)
    requires Find(es, MazeKey(email, mazeId)) == Some(MazeItem(NewMaze(email, mazeId, coordinates, now)))
    requires 0 < |tokens| == |coordinates| == |calls|
    requires forall i :: 0 <= i < |calls| ==> calls[i] == (Instruction(coordinates[i]), tokens[i])
    ensures var final := Find(RunSolve(es, email, mazeId, calls), MazeKey(email, mazeId));
      final.Some? && final.value.MazeItem? && final.value.maze.status == Completed &&
      final.value.maze.collectedTokens == tokens && final.value.maze.currentPosition == |coordinates| &&
      final.value.maze.attempts == 0
  {
    var m := NewMaze(email, mazeId, coordinates, now);
    assert SolvedUpTo(m, tokens, 0) == m;
    assert calls[0..] == calls;
    RunFrom(es, email, mazeId, m, tokens, calls, 0);
    assert tokens[..|tokens|] == tokens;
  }

  // ---------------------------------------------------------------------------
  // The controller
  // ---------------------------------------------------------------------------

  /** What `initialize_maze` returns. */
  datatype MazeStart = MazeStart(mazeId: string, firstMessage: string, encodingType: EncodingType)

  class Phase2Controller {
    const table: Table

    constructor(table: Table)
      ensures this.table == table
    {
      this.table := table;
    }

    /** `_update_maze`: writes the whole maze back. */
    method UpdateMaze(maze: Maze)
      requires table.Valid()
      modifies table
      ensures table.Valid() && table.entries == Upsert(old(table.entries), MazeItem(maze))
    {
      table.PutItem(MazeItem(maze));
    }

    /**
     * `initialize_maze`: stores a fresh maze on the walk `steps` and returns
     * the base64 of its first instruction. `mazeId` and `now` stand for the
     * uuid and the clock.
     */
    method InitializeMaze(email: string, mazeId: string, steps: seq<(int, int)>, now: int) returns (start: MazeStart)
      requires table.Valid() && |steps| == PathLength && StepsInRange(steps) && |mazeId| == UuidLength
      modifies table
      ensures table.Valid()
      ensures UuidMazeIds(old(table.entries), email) ==> UuidMazeIds(table.entries, email)
      ensures table.entries == Upsert(old(table.entries), MazeItem(NewMaze(email, mazeId, Path(steps), now)))
      ensures start == MazeStart(mazeId, EncodeBase64(Instruction(Path(steps)[0])), Base64Type)
      ensures DecodeBase64(start.firstMessage) == Some(Instruction(Path(steps)[0]))
    {
      var coordinates := GenerateMazePath(steps);
      var encodedMessages := CreateEncodedMessages(coordinates);
      var mazeItem := NewMaze(email, mazeId, coordinates, now);
      table.PutItem(MazeItem(mazeItem));
      start := MazeStart(mazeId, encodedMessages[0], Base64Type);
      if UuidMazeIds(old(table.entries), email) {
        UpsertKeepsUuidIds(old(table.entries), email, MazeItem(mazeItem));
      }
    }

    /** `verify_solution`, step by step on the loaded maze. */
    method VerifySolution(email: string, mazeId: string, decoded: string, token: string)
      returns (r: Result<SolveReply, Error>)
      requires table.Valid() && UuidPrefix(token)
      modifies table
      ensures table.Valid()
      ensures UuidMazeIds(old(table.entries), email) ==> UuidMazeIds(table.entries, email)
      ensures r == SolveSpec(old(table.entries), email, mazeId, decoded, token).reply
      ensures table.entries == Commit(old(table.entries), SolveSpec(old(table.entries), email, mazeId, decoded, token).write)
    {
      if UuidMazeIds(table.entries, email) {
        SolveKeepsUuidIds(table.entries, email, email, mazeId, decoded, token);
      }
      var found := GetMaze(table.entries, email, mazeId);
      if found.Err? {
        return Err(found.error);
      }
      var maze := found.value;
      ghost var loaded := maze;
      SolveLoads(old(table.entries), email, mazeId, decoded, token);
      var currentPos := maze.currentPosition;
      var verified := VerifyCoordinate(maze.coordinates, currentPos, decoded);
      if verified.Err? {
        return Err(verified.error);
      }
      if !verified.value {
        SolveMiss(loaded, token);
        maze := maze.(attempts := maze.attempts + 1);
        UpdateMaze(maze);
        return Err(InvalidSolution(maze.attempts));
      }
      SolveHitEffect(loaded, token);
      maze := maze.(collectedTokens := maze.collectedTokens + [token]);
      maze := maze.(currentPosition := maze.currentPosition + 1);
      if maze.currentPosition >= |maze.coordinates| {
        maze := maze.(status := Completed);
        assert maze == Advance(loaded, token);
        UpdateMaze(maze);
        return Ok(Finished(maze.collectedTokens));
      }
      assert maze == Advance(loaded, token);
      var nextMessages := CreateEncodedMessages([maze.coordinates[maze.currentPosition]]);
      assert nextMessages[0] == EncodeBase64(Instruction(maze.coordinates[maze.currentPosition]));
      UpdateMaze(maze);
      return Ok(Next(token, nextMessages[0], NextEncodingType(maze.currentPosition)));
    }

    /** `verify_completion`, step by step on the loaded maze and the query result. */
    method VerifyCompletion(email: string, mazeId: string, collected: string) returns (r: Result<seq<string>, Error>)
      requires table.Valid()
      modifies table
      ensures table.Valid()
      ensures UuidMazeIds(old(table.entries), email) ==> UuidMazeIds(table.entries, email)
      ensures r == CompletionSpec(old(table.entries), email, mazeId, collected).reply
      ensures table.entries == Commit(old(table.entries), CompletionSpec(old(table.entries), email, mazeId, collected).write)
    {
      if UuidMazeIds(table.entries, email) {
        CompletionKeepsUuidIds(table.entries, email, email, mazeId, collected);
      }
      var found := GetMaze(table.entries, email, mazeId);
      if found.Err? {
        return Err(found.error);
      }
      var maze := found.value;
      var items := table.Query(UserPk(email), MazeSk(mazeId));
      var tokens := TokenLists(items);
      if tokens.None? {
        return Err(MalformedRecord);
      }
      var collectedFromDb := Join(Flatten(tokens.value));
      if collectedFromDb != collected {
        return Err(InvalidTokenCollection);
      }
      maze := maze.(status := Completed);
      UpdateMaze(maze);
      return Ok(maze.collectedTokens);
    }
  }
}
