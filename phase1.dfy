/**
 * The header quest (`Phase1Controller`, backend/app/controllers/phase_1.py):
 * a riddle hides three header values; every request that carries all three,
 * no sooner than twelve seconds after the previous one, earns a key fragment,
 * and the fragments, concatenated in order, complete the challenge.
 */
module Phase1 {
  import opened Common
  import opened Text
  import opened Records
  import opened Store
  import opened Encoders
  import Utf8
  import Base64

  // ---------------------------------------------------------------------------
  // The required headers and the riddle
  // ---------------------------------------------------------------------------

  const KeyHeader: string := "X-Quest-Key"
  const SequenceHeader: string := "X-Quest-Sequence"
  const TokenHeader: string := "X-Quest-Token"

  /** The `X-Quest-Sequence` value: the base64 of the decimal digits of `random.randint(1000, 9999)`. */
  function SequenceValue(n: int): string {
    EncodeBase64(IntToString(n))
  }

  /**
   * The sequence header is stored, and must be sent, in its encoded form:
   * eight characters, six digits of the base64 alphabet and then `==`, which
   * decode to the four decimal digits of the number drawn.
   */
  lemma SequenceHeaderShape(n: int)
    requires 1000 <= n <= 9999
    ensures |SequenceValue(n)| == 8 && SequenceValue(n)[6..] == "=="
    ensures Base64.NoPad(SequenceValue(n)[..6])
    ensures forall i :: 0 <= i < 6 ==> Base64.ValueOf(SequenceValue(n)[i]).Some?
    ensures DecodeBase64(SequenceValue(n)) == Some(IntToString(n))
    ensures |IntToString(n)| == 4 && AllDigits(IntToString(n))
  {
    var s := SequenceValue(n);
    FourDigits(n);
    EncodeBase64Length(IntToString(n));
    assert Base64.PadLength(4) == 2;
    assert s[6..] == [s[6], s[7]];
    DecodeEncodeBase64(IntToString(n));
    Base64.EncodeAlphabet(Utf8.Encode(IntToString(n)));
    forall i | 0 <= i < 6
      ensures Base64.ValueOf(s[i]).Some?
    {
      assert s[..6][i] == s[i];
    }
  }

  /** The sequence value holds no quote: it is made of base64 digits and `=`. */
  lemma SequenceValueUnquoted(n: int)
    ensures '\'' !in SequenceValue(n)
  {
    Base64.EncodeAlphabet(Utf8.Encode(IntToString(n)));
    assert Base64.ValueOf('\'') == None;
  }

  const KeyOpening: string := "In the garden of bits, a key blooms: "
  const KeyClosing: string := " marks the path."
  const SequenceOpening: string := "Sequence whispers in base64: "
  const SequenceClosing: string := " guides the way."
  const TokenOpening: string := "A token of trust: "
  const TokenClosing: string := " unlocks the gates."

  /** A riddle line: the value between single quotes, inside its template. */
  function Template(opening: string, value: string, closing: string): string {
    opening + "'" + value + "'" + closing
  }

  /** `' '.join(riddle_templates)`. */
  function Riddle(h: RequiredHeaders): string {
    JoinWith([Template(KeyOpening, h.questKey, KeyClosing),
              Template(SequenceOpening, h.questSequence, SequenceClosing),
              Template(TokenOpening, h.questToken, TokenClosing)], " ")
  }

  datatype RiddleData = RiddleData(riddle: string, requiredHeaders: RequiredHeaders)

  /**
   * `_generate_riddle_and_headers`, with the two uuid prefixes and the number
   * `random.randint` draws given as parameters.
   */
  function GenerateRiddleAndHeaders(key: string, n: int, token: string): RiddleData {
    var headers := RequiredHeaders(key, SequenceValue(n), token);
    RiddleData(Riddle(headers), headers)
  }

  /** How a participant reads the riddle: the second, fourth and sixth of its quote-separated pieces. */
  function ReadRiddle(riddle: string): Option<RequiredHeaders> {
    var parts := Split(riddle, '\'');
    if |parts| == 7 then Some(RequiredHeaders(parts[1], parts[3], parts[5])) else None
  }

  /** Proof helper: one unfolding of `JoinWith`, the separator after the first of two or more parts. */
  lemma JoinWithFirst(parts: seq<string>, sep: string)
    requires |parts| >= 2
    ensures JoinWith(parts, sep) == parts[0] + sep + JoinWith(parts[1..], sep)
  {
  }

  /** Three lines joined by spaces, each a value quoted inside its template, are seven quote-separated pieces. */
  lemma {:induction false} TemplatesAsPieces(o1: string, v1: string, c1: string, o2: string, v2: string, c2: string,
                                             o3: string, v3: string, c3: string)
    ensures JoinWith([Template(o1, v1, c1), Template(o2, v2, c2), Template(o3, v3, c3)], " ") ==
      JoinWith([o1, v1, c1 + " " + o2, v2, c2 + " " + o3, v3, c3], "'")
  {
    var q := "'";
    var parts := [o1, v1, c1 + " " + o2, v2, c2 + " " + o3, v3, c3];
    var t1, t2, t3 := Template(o1, v1, c1), Template(o2, v2, c2), Template(o3, v3, c3);
    var j4 := JoinWith(parts[4..], q);
    JoinWithFirst(parts[4..], q);
    JoinWithFirst(parts[5..], q);
    assert parts[4..][1..] == parts[5..] && parts[5..][1..] == parts[6..] && parts[6..] == [c3];
    assert j4 == (c2 + " " + o3) + q + (v3 + q + c3);
    assert j4 == c2 + " " + t3;
    var j2 := JoinWith(parts[2..], q);
    JoinWithFirst(parts[2..], q);
    JoinWithFirst(parts[3..], q);
    assert parts[2..][1..] == parts[3..] && parts[3..][1..] == parts[4..];
    assert j2 == (c1 + " " + o2) + q + (v2 + q + j4);
    assert j2 == c1 + " " + t2 + " " + t3;
    JoinWithFirst(parts, q);
    JoinWithFirst(parts[1..], q);
    assert parts[1..][1..] == parts[2..];
    assert JoinWith(parts, q) == o1 + q + (v1 + q + j2);
    assert JoinWith(parts, q) == t1 + " " + (t2 + " " + t3);
    var ts := [t1, t2, t3];
    JoinWithFirst(ts, " ");
    JoinWithFirst(ts[1..], " ");
    assert ts[1..][1..] == [t3];
  }

  /** Two quote-free texts joined by a space hold no quote. */
  lemma SpacedUnquoted(a: string, b: string)
    requires '\'' !in a && '\'' !in b
    ensures '\'' !in a + " " + b
  {
    assert forall i :: 0 <= i < |a + " " + b| ==> (a + " " + b)[i] in a || (a + " " + b)[i] == ' ' || (a + " " + b)[i] in b;
  }

  /** Three quote-free values quoted inside quote-free templates are read back in order. */
  lemma ReadTemplates(o1: string, v1: string, c1: string, o2: string, v2: string, c2: string,
                      o3: string, v3: string, c3: string)
    requires '\'' !in o1 && '\'' !in c1 && '\'' !in o2 && '\'' !in c2 && '\'' !in o3 && '\'' !in c3
    requires '\'' !in v1 && '\'' !in v2 && '\'' !in v3
    ensures ReadRiddle(JoinWith([Template(o1, v1, c1), Template(o2, v2, c2), Template(o3, v3, c3)], " ")) ==
      Some(RequiredHeaders(v1, v2, v3))
  {
    var parts := [o1, v1, c1 + " " + o2, v2, c2 + " " + o3, v3, c3];
    TemplatesAsPieces(o1, v1, c1, o2, v2, c2, o3, v3, c3);
    SpacedUnquoted(c1, o2);
    SpacedUnquoted(c2, o3);
    assert forall i :: 0 <= i < |parts| ==> '\'' !in parts[i];
    SplitJoinWith(parts, '\'');
  }

  /** The riddle's fixed text holds no quote. */
  lemma KeyTemplateUnquoted()
    ensures '\'' !in KeyOpening && '\'' !in KeyClosing
  {
  }

  lemma SequenceTemplateUnquoted()
    ensures '\'' !in SequenceOpening && '\'' !in SequenceClosing
  {
  }

  lemma TokenTemplateUnquoted()
    ensures '\'' !in TokenOpening && '\'' !in TokenClosing
  {
  }

  /** A riddle whose values hold no quote gives back exactly those values. */
  lemma ReadRiddleOfRiddle(h: RequiredHeaders)
    requires '\'' !in h.questKey && '\'' !in h.questSequence && '\'' !in h.questToken
    ensures ReadRiddle(Riddle(h)) == Some(h)
  {
    KeyTemplateUnquoted();
    SequenceTemplateUnquoted();
    TokenTemplateUnquoted();
    ReadTemplates(KeyOpening, h.questKey, KeyClosing, SequenceOpening, h.questSequence, SequenceClosing,
                  TokenOpening, h.questToken, TokenClosing);
  }

  /** Every riddle the quest generates reveals the headers it stores. */
  lemma GeneratedRiddleReadable(key: string, n: int, token: string)
    requires UuidPrefix(key) && UuidPrefix(token)
    ensures var data := GenerateRiddleAndHeaders(key, n, token);
      ReadRiddle(data.riddle) == Some(data.requiredHeaders)
  {
    assert forall i :: 0 <= i < |key| ==> key[i] != '\'';
    assert forall i :: 0 <= i < |token| ==> token[i] != '\'';
    SequenceValueUnquoted(n);
    ReadRiddleOfRiddle(RequiredHeaders(key, SequenceValue(n), token));
  }

  // ---------------------------------------------------------------------------
  // The challenge record
  // ---------------------------------------------------------------------------

  /** The record `create_challenge` stores. */
  function NewChallenge(email: string, challengeId: string, headers: RequiredHeaders, now: int): Challenge {
    Challenge(UserPk(email), ChallengeSk(challengeId), challengeId, 1, Active, headers, [], 0, now, now, None)
  }

  /** The `get_item` lookup that `verify_request_headers` and `complete_challenge` each make: the challenge under the user's key, or the error raised reading it. */
  function GetChallenge(es: seq<Item>, email: string, challengeId: string): (r: Result<Challenge, Error>)
    ensures r.Ok? ==> Find(es, ChallengeKey(email, challengeId)) == Some(ChallengeItem(r.value))
    ensures r == Err(NotFound) <==> Find(es, ChallengeKey(email, challengeId)).None?
  {
    match Find(es, ChallengeKey(email, challengeId))
    case None => Err(NotFound)
    case Some(item) => if item.ChallengeItem? then Ok(item.challenge) else Err(MalformedRecord)
  }

  /** The parts of a challenge no operation changes. */
  predicate SameQuest(c: Challenge, c': Challenge) {
    c'.pk == c.pk && c'.sk == c.sk && c'.challengeId == c.challengeId && c'.phase == c.phase &&
    c'.requiredHeaders == c.requiredHeaders && c'.createdAt == c.createdAt
  }

  /** `_update_challenge`'s stamp: the request time becomes now. */
  function Touch(c: Challenge, now: int): Challenge {
    c.(lastRequestTime := now)
  }

  // ---------------------------------------------------------------------------
  // verify_request_headers
  // ---------------------------------------------------------------------------

  const MinInterval := 12
  const SecondsPerDay := 86400

  /**
   * `(current_time - last_request).seconds`: the seconds part of the
   * difference, whole days dropped; a negative difference is normalised to
   * minus one day plus a non-negative number of seconds, as Python does.
   */
  function Elapsed(now: int, last: int): (r: int)
    ensures 0 <= r < SecondsPerDay
    ensures 0 <= now - last < SecondsPerDay ==> r == now - last
    ensures (r - (now - last)) % SecondsPerDay == 0
  {
    (now - last) % SecondsPerDay
  }

  /** A request a day and a few seconds after the last one counts as a few seconds after it. */
  lemma PacingIgnoresDays(last: int, days: nat, extra: int)
    requires 0 <= extra < SecondsPerDay
    ensures Elapsed(last + days * SecondsPerDay + extra, last) == extra
  {
    assert (days * SecondsPerDay + extra) % SecondsPerDay == extra;
  }

  /** The header `name` was sent with exactly `value` (`headers.get(name) == value`). */
  predicate Supplied(headers: map<string, string>, name: string, value: string) {
    name in headers && headers[name] == value
  }

  /** All three required headers were sent with their values. */
  predicate HeadersMatch(h: RequiredHeaders, headers: map<string, string>) {
    Supplied(headers, KeyHeader, h.questKey) && Supplied(headers, SequenceHeader, h.questSequence) &&
    Supplied(headers, TokenHeader, h.questToken)
  }

  /** `required_headers.items()`, in insertion order. */
  function RequiredList(h: RequiredHeaders): seq<(string, string)> {
    [(KeyHeader, h.questKey), (SequenceHeader, h.questSequence), (TokenHeader, h.questToken)]
  }

  /** The loop over the required headers, stopping at the first one missing or different. */
  method CheckHeaders(h: RequiredHeaders, headers: map<string, string>) returns (ok: bool)
    ensures ok == HeadersMatch(h, headers)
  {
    var required := RequiredList(h);
    for i := 0 to |required|
      invariant forall j :: 0 <= j < i ==> Supplied(headers, required[j].0, required[j].1)
    {
      var (name, value) := required[i];
      if !(name in headers && headers[name] == value) {
        return false;
      }
    }
    assert Supplied(headers, required[0].0, required[0].1);
    assert Supplied(headers, required[1].0, required[1].1);
    assert Supplied(headers, required[2].0, required[2].1);
    return true;
  }

  /** A request that passes: one more fragment, the request time stamped. */
  function Accept(c: Challenge, fragment: string, now: int): Challenge {
    Touch(c.(keyFragments := c.keyFragments + [fragment]), now)
  }

  /** `verify_request_headers` on a loaded challenge; `fragment` is the value `_generate_key_fragment` draws. */
  function StepChallenge(c: Challenge, headers: map<string, string>, fragment: string, now: int): Outcome<string> {
    if Elapsed(now, c.lastRequestTime) < MinInterval then Outcome(Err(PacingExceeded), None)
    else if !HeadersMatch(c.requiredHeaders, headers) then
      var c' := Touch(c.(attempts := c.attempts + 1), now);
      Outcome(Err(InvalidHeaders(c'.attempts)), Some(ChallengeItem(c')))
    else
      Outcome(Ok(fragment), Some(ChallengeItem(Accept(c, fragment, now))))
  }

  /** `verify_request_headers` as a function of the table. */
  function StepSpec(es: seq<Item>, email: string, challengeId: string, headers: map<string, string>,
                    fragment: string, now: int): Outcome<string> {
    match GetChallenge(es, email, challengeId)
    case Err(e) => Outcome(Err(e), None)
    case Ok(c) => StepChallenge(c, headers, fragment, now)
  }

  /**
   * One request: too soon after the last one it is refused and nothing is
   * written; otherwise the request time becomes now and, when a header is
   * missing or wrong, one attempt is counted and the error raised, else one
   * fragment is appended and returned. The status is never consulted.
   */
  lemma StepEffect(c: Challenge, headers: map<string, string>, fragment: string, now: int)
    ensures StepChallenge(c, headers, fragment, now).write.None? <==> Elapsed(now, c.lastRequestTime) < MinInterval
    ensures StepChallenge(c, headers, fragment, now).write.None? ==>
      StepChallenge(c, headers, fragment, now).reply == Err(PacingExceeded)
    ensures StepChallenge(c, headers, fragment, now).reply.Ok? <==>
      Elapsed(now, c.lastRequestTime) >= MinInterval && HeadersMatch(c.requiredHeaders, headers)
    ensures StepChallenge(c, headers, fragment, now).write.Some? ==>
      StepChallenge(c, headers, fragment, now).write.value.ChallengeItem? &&
      SameQuest(c, StepChallenge(c, headers, fragment, now).write.value.challenge) &&
      StepChallenge(c, headers, fragment, now).write.value.challenge.lastRequestTime == now &&
      StepChallenge(c, headers, fragment, now).write.value.challenge.status == c.status &&
      StepChallenge(c, headers, fragment, now).write.value.challenge.completedAt == c.completedAt
    ensures StepChallenge(c, headers, fragment, now).reply.Ok? ==>
      StepChallenge(c, headers, fragment, now).reply.value == fragment &&
      StepChallenge(c, headers, fragment, now).write.value.challenge.keyFragments == c.keyFragments + [fragment] &&
      StepChallenge(c, headers, fragment, now).write.value.challenge.attempts == c.attempts
    ensures StepChallenge(c, headers, fragment, now).reply.Err? && StepChallenge(c, headers, fragment, now).write.Some? ==>
      StepChallenge(c, headers, fragment, now).reply == Err(InvalidHeaders(c.attempts + 1)) &&
      StepChallenge(c, headers, fragment, now).write.value.challenge.keyFragments == c.keyFragments &&
      StepChallenge(c, headers, fragment, now).write.value.challenge.attempts == c.attempts + 1
  {
  }

  // ---------------------------------------------------------------------------
  // complete_challenge
  // ---------------------------------------------------------------------------

  /**
   * `complete_challenge` on a loaded challenge. `minted` is what
   * `_generate_phase2_token` produces, None when it raises; it is called only
   * after the completed record is written.
   */
  function CompleteOn(c: Challenge, assembled: string, now: int, minted: Option<string>): Outcome<string> {
    if assembled != Join(c.keyFragments) then
      var c' := Touch(c.(attempts := c.attempts + 1), now);
      Outcome(Err(InvalidKey(c'.attempts)), Some(ChallengeItem(c')))
    else
      var c' := Touch(c.(status := Completed, completedAt := Some(now)), now);
      Outcome(if minted.Some? then Ok(minted.value) else Err(TokenFailure), Some(ChallengeItem(c')))
  }

  /** `complete_challenge` as a function of the table. */
  function CompleteSpec(es: seq<Item>, email: string, challengeId: string, assembled: string, now: int,
                        minted: Option<string>): Outcome<string> {
    match GetChallenge(es, email, challengeId)
    case Err(e) => Outcome(Err(e), None)
    case Ok(c) => CompleteOn(c, assembled, now, minted)
  }

  /**
   * A challenge that cannot be loaded fails both steps before any write:
   * "Challenge not found" when no item is stored under the key, a malformed
   * record when the item there is not a challenge.
   */
  lemma ChallengeLoadFails(es: seq<Item>, email: string, challengeId: string, headers: map<string, string>,
                           fragment: string, assembled: string, now: int, minted: Option<string>)
    ensures Find(es, ChallengeKey(email, challengeId)).None? ==>
      StepSpec(es, email, challengeId, headers, fragment, now) == Outcome(Err(NotFound), None) &&
      CompleteSpec(es, email, challengeId, assembled, now, minted) == Outcome(Err(NotFound), None)
    ensures Find(es, ChallengeKey(email, challengeId)).Some? &&
            !Find(es, ChallengeKey(email, challengeId)).value.ChallengeItem? ==>
      StepSpec(es, email, challengeId, headers, fragment, now) == Outcome(Err(MalformedRecord), None) &&
      CompleteSpec(es, email, challengeId, assembled, now, minted) == Outcome(Err(MalformedRecord), None)
  {
  }

  /**
   * A completion attempt always writes the challenge back, stamped: with the
   * fragments concatenated in order it is completed at `now`, otherwise one
   * attempt is counted and the status and completion time stay as they were.
   * It succeeds only when, in addition, the phase 2 token is minted.
   */
  lemma CompleteEffect(c: Challenge, assembled: string, now: int, minted: Option<string>)
    ensures CompleteOn(c, assembled, now, minted).write.Some? && CompleteOn(c, assembled, now, minted).write.value.ChallengeItem?
    ensures SameQuest(c, CompleteOn(c, assembled, now, minted).write.value.challenge)
    ensures CompleteOn(c, assembled, now, minted).write.value.challenge.lastRequestTime == now
    ensures CompleteOn(c, assembled, now, minted).write.value.challenge.keyFragments == c.keyFragments
    ensures CompleteOn(c, assembled, now, minted).reply.Ok? <==> assembled == Join(c.keyFragments) && minted.Some?
    ensures CompleteOn(c, assembled, now, minted).reply.Ok? ==> CompleteOn(c, assembled, now, minted).reply.value == minted.value
    ensures assembled == Join(c.keyFragments) ==>
      CompleteOn(c, assembled, now, minted).write.value.challenge.status == Completed &&
      CompleteOn(c, assembled, now, minted).write.value.challenge.completedAt == Some(now) &&
      CompleteOn(c, assembled, now, minted).write.value.challenge.attempts == c.attempts
    ensures assembled != Join(c.keyFragments) ==>
      CompleteOn(c, assembled, now, minted).reply == Err(InvalidKey(c.attempts + 1)) &&
      CompleteOn(c, assembled, now, minted).write.value.challenge.status == c.status &&
      CompleteOn(c, assembled, now, minted).write.value.challenge.completedAt == c.completedAt &&
      CompleteOn(c, assembled, now, minted).write.value.challenge.attempts == c.attempts + 1
  {
  }

  /** A challenge with no fragment yet is completed by the empty key. */
  lemma EmptyKeyCompletes(c: Challenge, now: int, minted: Option<string>)
    requires c.keyFragments == []
    ensures CompleteOn(c, "", now, minted).write.value.challenge.status == Completed
  {
    CompleteEffect(c, "", now, minted);
  }

  // ---------------------------------------------------------------------------
  // Runs of requests
  // ---------------------------------------------------------------------------

  /** One call of `verify_request_headers`: the headers sent, the fragment drawn, the time. */
  datatype StepCall = StepCall(headers: map<string, string>, fragment: string, now: int)

  /** The table after a sequence of `verify_request_headers` calls. */
  function RunSteps(es: seq<Item>, email: string, challengeId: string, calls: seq<StepCall>): seq<Item>
    decreases |calls|
  {
    if calls == [] then es
    else
      var o := StepSpec(es, email, challengeId, calls[0].headers, calls[0].fragment, calls[0].now);
      RunSteps(Commit(es, o.write), email, challengeId, calls[1..])
  }

  /** Each call comes at least twelve seconds, as `timedelta.seconds` counts them, after the one before. */
  predicate Paced(last: int, calls: seq<StepCall>)
    decreases |calls|
  {
    calls == [] || (Elapsed(calls[0].now, last) >= MinInterval && Paced(calls[0].now, calls[1..]))
  }

  function Fragments(calls: seq<StepCall>): (r: seq<string>)
    ensures |r| == |calls| && forall i :: 0 <= i < |calls| ==> r[i] == calls[i].fragment
  {
    seq(|calls|, i requires 0 <= i < |calls| => calls[i].fragment)
  }

  /** The challenge after every call of a run was accepted. */
  function AcceptAll(c: Challenge, calls: seq<StepCall>): Challenge
    decreases |calls|
  {
    if calls == [] then c else AcceptAll(Accept(c, calls[0].fragment, calls[0].now), calls[1..])
  }

  /** Accepting a run appends its fragments in order and changes nothing else but the request time. */
  lemma {:induction false} AcceptAllFields(c: Challenge, calls: seq<StepCall>)
    ensures AcceptAll(c, calls).keyFragments == c.keyFragments + Fragments(calls)
    ensures SameQuest(c, AcceptAll(c, calls)) && AcceptAll(c, calls).attempts == c.attempts
    ensures AcceptAll(c, calls).status == c.status
    decreases |calls|
  {
    if calls != [] {
      var c' := Accept(c, calls[0].fragment, calls[0].now);
      AcceptAllFields(c', calls[1..]);
      assert Fragments(calls) == [calls[0].fragment] + Fragments(calls[1..]);
    }
  }

  /** Well-paced calls carrying the right headers are all accepted. */
  lemma {:induction false} RunAccepted(es: seq<Item>, email: string, challengeId: string, c: Challenge,
                                       calls: seq<StepCall>)
    requires Find(es, ChallengeKey(email, challengeId)) == Some(ChallengeItem(c))
    requires Paced(c.lastRequestTime, calls)
    requires forall i :: 0 <= i < |calls| ==> HeadersMatch(c.requiredHeaders, calls[i].headers)
    ensures Find(RunSteps(es, email, challengeId, calls), ChallengeKey(email, challengeId)) ==
      Some(ChallengeItem(AcceptAll(c, calls)))
    decreases |calls|
  {
    if calls != [] {
      var call := calls[0];
      var c' := Accept(c, call.fragment, call.now);
      assert GetChallenge(es, email, challengeId) == Ok(c);
      assert StepSpec(es, email, challengeId, call.headers, call.fragment, call.now).write == Some(ChallengeItem(c'));
      var es' := Commit(es, Some(ChallengeItem(c')));
      FindUpsert(es, ChallengeItem(c'), ChallengeKey(email, challengeId));
      assert forall i :: 0 <= i < |calls[1..]| ==> calls[1..][i] == calls[i + 1];
      RunAccepted(es', email, challengeId, c', calls[1..]);
    }
  }

  /**
   * A fresh challenge whose riddle is answered by well-paced requests is
   * completed by the fragments they earned, concatenated in order, with no
   * attempt counted.
   */
  lemma QuestInOrder(es: seq<Item>, email: string, challengeId: string, headers: RequiredHeaders, created: int,
                     calls: seq<StepCall>, now: int, minted: Option<string>)
    requires Find(es, ChallengeKey(email, challengeId)) == Some(ChallengeItem(NewChallenge(email, challengeId, headers, created)))
    requires Paced(created, calls)
    requires forall i :: 0 <= i < |calls| ==> HeadersMatch(headers, calls[i].headers)
    ensures var o := CompleteSpec(RunSteps(es, email, challengeId, calls), email, challengeId, Join(Fragments(calls)), now, minted);
      o.write.Some? && o.write.value.ChallengeItem? && o.write.value.challenge.status == Completed &&
      o.write.value.challenge.keyFragments == Fragments(calls) && o.write.value.challenge.attempts == 0 &&
      (o.reply.Ok? <==> minted.Some?)
  {
    var c := NewChallenge(email, challengeId, headers, created);
    RunAccepted(es, email, challengeId, c, calls);
    AcceptAllFields(c, calls);
    var c' := AcceptAll(c, calls);
    assert c'.keyFragments == Fragments(calls);
    assert GetChallenge(RunSteps(es, email, challengeId, calls), email, challengeId) == Ok(c');
    CompleteEffect(c', Join(Fragments(calls)), now, minted);
  }

  // ---------------------------------------------------------------------------
  // The controller
  // ---------------------------------------------------------------------------

  /** What `create_challenge` returns. */
  datatype ChallengeStart = ChallengeStart(challengeId: string, riddle: string)

  class Phase1Controller {
    const table: Table

    constructor(table: Table)
      ensures this.table == table
    {
      this.table := table;
    }

    /** `_update_challenge`: stamps the request time and writes the whole challenge back. */
    method UpdateChallenge(challenge: Challenge, now: int)
      requires table.Valid()
      modifies table
      ensures table.Valid() && table.entries == Upsert(old(table.entries), ChallengeItem(Touch(challenge, now)))
    {
      var stamped := challenge.(lastRequestTime := now);
      table.PutItem(ChallengeItem(stamped));
    }

    /**
     * `create_challenge`: stores a fresh challenge and returns its riddle.
     * `key`, `n`, `token` and `challengeId` stand for the random draws, `now` for the clock.
     */
    method CreateChallenge(email: string, challengeId: string, key: string, n: int, token: string, now: int)
      returns (start: ChallengeStart)
      requires table.Valid() && UuidPrefix(key) && UuidPrefix(token) && 1000 <= n <= 9999
      modifies table
      ensures table.Valid()
      ensures table.entries == Upsert(old(table.entries),
        ChallengeItem(NewChallenge(email, challengeId, RequiredHeaders(key, SequenceValue(n), token), now)))
      ensures start == ChallengeStart(challengeId, Riddle(RequiredHeaders(key, SequenceValue(n), token)))
      ensures ReadRiddle(start.riddle) == Some(RequiredHeaders(key, SequenceValue(n), token))
    {
      var riddleData := GenerateRiddleAndHeaders(key, n, token);
      GeneratedRiddleReadable(key, n, token);
      var challengeItem := Challenge(UserPk(email), ChallengeSk(challengeId), challengeId, 1, Active,
                                     riddleData.requiredHeaders, [], 0, now, now, None);
      table.PutItem(ChallengeItem(challengeItem));
      start := ChallengeStart(challengeId, riddleData.riddle);
    }

    /** `verify_request_headers`, step by step on the loaded challenge. */
    method VerifyRequestHeaders(email: string, challengeId: string, headers: map<string, string>,
                                fragment: string, now: int) returns (r: Result<string, Error>)
      requires table.Valid() && UuidPrefix(fragment)
      modifies table
      ensures table.Valid()
      ensures r == StepSpec(old(table.entries), email, challengeId, headers, fragment, now).reply
      ensures table.entries ==
        Commit(old(table.entries), StepSpec(old(table.entries), email, challengeId, headers, fragment, now).write)
    {
      var found := GetChallenge(table.entries, email, challengeId);
      if found.Err? {
        return Err(found.error);
      }
      var challenge := found.value;
      ghost var loaded := challenge;
      assert StepSpec(old(table.entries), email, challengeId, headers, fragment, now) ==
        StepChallenge(loaded, headers, fragment, now);
      if Elapsed(now, challenge.lastRequestTime) < MinInterval {
        return Err(PacingExceeded);
      }
      var ok := CheckHeaders(challenge.requiredHeaders, headers);
      if !ok {
        challenge := challenge.(attempts := challenge.attempts + 1);
        assert StepChallenge(loaded, headers, fragment, now) ==
          Outcome(Err(InvalidHeaders(challenge.attempts)), Some(ChallengeItem(Touch(challenge, now))));
        UpdateChallenge(challenge, now);
        return Err(InvalidHeaders(challenge.attempts));
      }
      challenge := challenge.(keyFragments := challenge.keyFragments + [fragment]);
      assert StepChallenge(loaded, headers, fragment, now) ==
        Outcome(Ok(fragment), Some(ChallengeItem(Touch(challenge, now))));
      UpdateChallenge(challenge, now);
      return Ok(fragment);
    }

    /** `complete_challenge`, step by step on the loaded challenge. */
    method CompleteChallenge(email: string, challengeId: string, assembled: string, now: int, minted: Option<string>)
      returns (r: Result<string, Error>)
      requires table.Valid()
      modifies table
      ensures table.Valid()
      ensures r == CompleteSpec(old(table.entries), email, challengeId, assembled, now, minted).reply
      ensures table.entries ==
        Commit(old(table.entries), CompleteSpec(old(table.entries), email, challengeId, assembled, now, minted).write)
    {
      var found := GetChallenge(table.entries, email, challengeId);
      if found.Err? {
        return Err(found.error);
      }
      var challenge := found.value;
      var correctKey := Join(challenge.keyFragments);
      if assembled != correctKey {
        challenge := challenge.(attempts := challenge.attempts + 1);
        UpdateChallenge(challenge, now);
        return Err(InvalidKey(challenge.attempts));
      }
      challenge := challenge.(status := Completed);
      challenge := challenge.(completedAt := Some(now));
      UpdateChallenge(challenge, now);
      if minted.None? {
        return Err(TokenFailure);
      }
      return Ok(minted.value);
    }
  }
}
