/**
  The session state of the chat page as a value: the message list and the
  points dictionary, with one function per step of the script that changes
  them. `Chat.ChatRoom` performs the same steps in place; the lemmas here
  are the rules those steps obey.
 */
module Session {
  import opened Store
  import Sanitizer
  import Text

  /** Points awarded for each message sent. */
  const PointsPerMessage: int := 10

  datatype Room = Room(messages: seq<Message>, points: map<string, int>)

  /** Both collections start empty. */
  function Initial(): Room {
    Room([], map[])
  }

  /** A points entry of 0 for a user who has none. */
  function EnsureUser(r: Room, user: string): Room {
    if user in r.points then r else r.(points := r.points[user := 0])
  }

  /** `remove_old_messages`, with the clock reading passed in. */
  function Sweep(r: Room, now: int): Room {
    r.(messages := Retained(r.messages, now))
  }

  /** The send branch: a non-blank input is escaped, appended with the
      poster's name and the clock reading, and earns the poster ten points.
      The points entry must exist, since `+= 10` reads it first. */
  function Post(r: Room, user: string, input: string, now: int): Room
    requires user in r.points
  {
    if Text.IsBlank(input) then r
    else Room(r.messages + [Message(user, Sanitizer.Escape(input), now)],
              r.points[user := r.points[user] + PointsPerMessage])
  }

  /** What one run of the script is given: the name in the sidebar, the
      text box, whether Send was pressed, and the two readings of the clock
      (at the sweep and at the append). */
  datatype Visit = Visit(user: string, input: string, send: bool, sweepTime: int, postTime: int)

  /** One run of the script: the points entry, the sweep, then the send
      branch if the button was pressed. */
  function Run(r: Room, v: Visit): Room {
    var swept := Sweep(EnsureUser(r, v.user), v.sweepTime);
    if v.send then Post(swept, v.user, v.input, v.postTime) else swept
  }

  /** The message an accepted run appends. */
  function Posted(v: Visit): Message {
    Message(v.user, Sanitizer.Escape(v.input), v.postTime)
  }

  /** A run whose send branch appends a message. */
  predicate Accepts(v: Visit) {
    v.send && !Text.IsBlank(v.input)
  }

  /** Runs one after another. */
  function Replay(r: Room, vs: seq<Visit>): Room
    decreases |vs|
  {
    if vs == [] then r else Replay(Run(r, vs[0]), vs[1..])
  }

  /** How many of the runs are accepted posts by `user`. */
  function Accepted(vs: seq<Visit>, user: string): nat {
    if vs == [] then 0
    else (if vs[0].user == user && Accepts(vs[0]) then 1 else 0) + Accepted(vs[1..], user)
  }

  /** `m` is the message one of the accepted runs of `vs` appended. */
  predicate PostedBy(vs: seq<Visit>, m: Message) {
    exists i :: 0 <= i < |vs| && Accepts(vs[i]) && m == Posted(vs[i])
  }

  /** A user's points, 0 for a user without an entry. */
  function Score(r: Room, user: string): int {
    if user in r.points then r.points[user] else 0
  }

  /** The state the script maintains: scores are non-negative multiples of
      ten, and every stored message names a user with an entry and holds
      text with no `<`, `>`, `"` or `'` left to break out into markup. */
  predicate Valid(r: Room) {
    && (forall u :: u in r.points ==> r.points[u] >= 0 && r.points[u] % PointsPerMessage == 0)
    && (forall i :: 0 <= i < |r.messages| ==>
          r.messages[i].user in r.points && Sanitizer.IsInert(r.messages[i].message))
  }

  /** No score is lowered and no entry is removed. */
  predicate ScoresKept(r: Room, r': Room) {
    forall u :: u in r.points ==> u in r'.points && r'.points[u] >= r.points[u]
  }

  lemma ValidInitial()
    ensures Valid(Initial())
    ensures Initial().messages == [] && Initial().points == map[]
  {
  }

  /** The entry is created at 0 only when absent; an existing score and
      every other entry are left as they are. */
  lemma EnsureUserKeepsScores(r: Room, user: string)
    ensures var r' := EnsureUser(r, user);
      && r'.messages == r.messages
      && user in r'.points
      && r'.points[user] == (if user in r.points then r.points[user] else 0)
      && r'.points.Keys == r.points.Keys + {user}
      && forall u :: u in r.points && u != user ==> r'.points[u] == r.points[u]
  {
  }

  /** A blank input leaves both the messages and the points as they were. */
  lemma PostBlankIsNoOp(r: Room, user: string, input: string, now: int)
    requires user in r.points
    requires Text.AllWhitespace(input)
    ensures Post(r, user, input, now) == r
  {
    Text.BlankIffAllWhitespace(input);
  }

  /** An accepted post appends exactly one message, the escaped input
      stamped with the poster and the time, after the unchanged old ones. */
  lemma PostAppendsEscaped(r: Room, user: string, input: string, now: int)
    requires user in r.points
    requires !Text.AllWhitespace(input)
    ensures var ms := Post(r, user, input, now).messages;
      && |ms| == |r.messages| + 1
      && ms[..|r.messages|] == r.messages
      && ms[|r.messages|] == Message(user, Sanitizer.Escape(input), now)
      && Sanitizer.Unescape(ms[|r.messages|].message) == input
  {
    Text.BlankIffAllWhitespace(input);
    Sanitizer.UnescapeEscape(input);
  }

  /** An accepted post raises the poster's score by exactly ten and no
      other entry changes. */
  lemma PostAwardsPoints(r: Room, user: string, input: string, now: int)
    requires user in r.points
    requires !Text.AllWhitespace(input)
    ensures var ps := Post(r, user, input, now).points;
      && ps.Keys == r.points.Keys
      && ps[user] == r.points[user] + 10
      && forall u :: u in r.points && u != user ==> ps[u] == r.points[u]
  {
    Text.BlankIffAllWhitespace(input);
  }

  /** A post, accepted or refused, lowers no score and removes no entry. */
  lemma PostKeepsScores(r: Room, user: string, input: string, now: int)
    requires user in r.points
    ensures ScoresKept(r, Post(r, user, input, now))
  {
  }

  /** No step of the script lowers a score or removes an entry. */
  lemma RunKeepsScores(r: Room, v: Visit)
    ensures ScoresKept(r, EnsureUser(r, v.user))
    ensures ScoresKept(r, Sweep(r, v.sweepTime))
    ensures v.user in r.points ==> ScoresKept(r, Post(r, v.user, v.input, v.postTime))
    ensures ScoresKept(r, Run(r, v))
  {
  }

  lemma EnsureUserPreservesValid(r: Room, user: string)
    requires Valid(r)
    ensures Valid(EnsureUser(r, user))
  {
  }

  lemma SweepPreservesValid(r: Room, now: int)
    requires Valid(r)
    ensures Valid(Sweep(r, now))
  {
    var ms := Retained(r.messages, now);
    forall i | 0 <= i < |ms|
      ensures ms[i].user in r.points && Sanitizer.IsInert(ms[i].message)
    {
      assert ms[i] in r.messages;
    }
  }

  lemma PostPreservesValid(r: Room, user: string, input: string, now: int)
    requires Valid(r) && user in r.points
    ensures Valid(Post(r, user, input, now))
  {
  }

  /** Every run of the script keeps `Valid`, and in particular leaves no
      stored message holding raw markup. */
  lemma RunPreservesValid(r: Room, v: Visit)
    requires Valid(r)
    ensures Valid(Run(r, v))
  {
    EnsureUserPreservesValid(r, v.user);
    var swept := Sweep(EnsureUser(r, v.user), v.sweepTime);
    SweepPreservesValid(EnsureUser(r, v.user), v.sweepTime);
    if v.send {
      PostPreservesValid(swept, v.user, v.input, v.postTime);
    }
  }

  /** A whole run: the sweep's survivors, then the new message if the run
      was an accepted post. */
  lemma RunMessages(r: Room, v: Visit)
    ensures Run(r, v).messages == Retained(r.messages, v.sweepTime)
                                  + (if Accepts(v) then [Posted(v)] else [])
  {
  }

  /** One run adds ten to the score of its user when it is an accepted
      post, and changes no score otherwise. */
  lemma RunScore(r: Room, v: Visit, user: string)
    ensures Score(Run(r, v), user)
            == Score(r, user) + (if v.user == user && Accepts(v) then PointsPerMessage else 0)
  {
  }

  /** After any sequence of runs a user's score has grown by ten per
      accepted post of theirs and by nothing else. */
  lemma {:induction false} ReplayScore(r: Room, vs: seq<Visit>, user: string)
    ensures Score(Replay(r, vs), user) == Score(r, user) + PointsPerMessage * Accepted(vs, user)
    decreases |vs|
  {
    if vs != [] {
      RunScore(r, vs[0], user);
      ReplayScore(Run(r, vs[0]), vs[1..], user);
    }
  }

  /** From no entry, or from the fresh entry of 0, k accepted posts give
      10 * k points. */
  lemma FreshUserScore(r: Room, vs: seq<Visit>, user: string)
    requires user !in r.points || r.points[user] == 0
    ensures Score(Replay(r, vs), user) == 10 * Accepted(vs, user)
  {
    ReplayScore(r, vs, user);
  }

  /** The log holds nothing but messages it held at the start and messages
      accepted runs appended: no message is edited or made up. */
  lemma {:induction false} ReplayHistory(r: Room, vs: seq<Visit>, m: Message)
    ensures m in Replay(r, vs).messages ==> m in r.messages || PostedBy(vs, m)
    decreases |vs|
  {
    if vs != [] && m in Replay(r, vs).messages {
      var r1 := Run(r, vs[0]);
      ReplayHistory(r1, vs[1..], m);
      if m in r1.messages {
        RunMessages(r, vs[0]);
        if m !in Retained(r.messages, vs[0].sweepTime) {
          assert Accepts(vs[0]) && m == Posted(vs[0]);
        }
      } else {
        var i :| 0 <= i < |vs[1..]| && Accepts(vs[1..][i]) && m == Posted(vs[1..][i]);
        assert vs[1..][i] == vs[i + 1];
      }
    }
  }

  /** From the empty room, every stored message is the escaped input, the
      name and the clock reading of a run that was an accepted post. */
  lemma ReplayStoresEscaped(vs: seq<Visit>, m: Message)
    ensures m in Replay(Initial(), vs).messages ==>
      PostedBy(vs, m) && Sanitizer.IsEscaped(m.message)
  {
    if m in Replay(Initial(), vs).messages {
      ReplayHistory(Initial(), vs, m);
      var i :| 0 <= i < |vs| && Accepts(vs[i]) && m == Posted(vs[i]);
      Sanitizer.EscapeIsEscaped(vs[i].input);
    }
  }
}
