/**
  The chat room as the script keeps it in `st.session_state`: a message
  list and a points dictionary that each step updates in place. Every
  method ends in the state the matching `Session` function computes, so
  the lemmas of `Session` and `Store` apply to it.
 */
module Chat {
  import opened Store
  import Sanitizer
  import Text
  import Session

  class ChatRoom {
    var messages: seq<Message>
    var points: map<string, int>

    /** The state as a value. */
    function Model(): Session.Room
      reads this
    {
      Session.Room(messages, points)
    }

    ghost predicate Valid()
      reads this
    {
      Session.Valid(Model())
    }

    /** `st.session_state["messages"] = []` and `st.session_state["points"] = {}`. */
    constructor ()
      ensures Valid() && Model() == Session.Initial()
      ensures messages == [] && points == map[]
    {
      messages := [];
      points := map[];
    }

    /** Gives `user` a points entry of 0 unless they already have one. */
    method EnsureUser(user: string)
      requires Valid()
      modifies this
      ensures Valid() && Model() == Session.EnsureUser(old(Model()), user)
      ensures messages == old(messages)
      ensures user in points
      ensures user in old(points) ==> points == old(points)
      ensures user !in old(points) ==> points == old(points)[user := 0]
    {
      if user !in points {
        points := points[user := 0];
      }
      Session.EnsureUserPreservesValid(old(Model()), user);
    }

    /** `remove_old_messages`: keeps the messages younger than five
        minutes at `now`, in order. */
    method Sweep(now: int)
      requires Valid()
      modifies this
      ensures Valid() && Model() == Session.Sweep(old(Model()), now)
      ensures messages == Retained(old(messages), now)
      ensures IsSubsequence(messages, old(messages))
      ensures points == old(points)
    {
      messages := Retained(messages, now);
      Session.SweepPreservesValid(old(Model()), now);
      RetainedIsSubsequence(old(messages), now);
    }

    /** The send branch: a non-blank input is escaped and appended, and
        the poster earns ten points. Returns whether it was sent. */
    method Post(user: string, input: string, now: int) returns (sent: bool)
      requires Valid()
      requires user in points
      modifies this
      ensures Valid() && Model() == Session.Post(old(Model()), user, input, now)
      ensures sent <==> !Text.IsBlank(input)
      ensures sent ==> messages == old(messages) + [Message(user, Sanitizer.Escape(input), now)]
      ensures sent ==> points == old(points)[user := old(points)[user] + Session.PointsPerMessage]
      ensures !sent ==> messages == old(messages) && points == old(points)
    {
      sent := false;
      if !Text.IsBlank(input) {
        var sanitized := Sanitizer.Escape(input);
        messages := messages + [Message(user, sanitized, now)];
        points := points[user := points[user] + Session.PointsPerMessage];
        sent := true;
      }
      Session.PostPreservesValid(old(Model()), user, input, now);
    }

    /** One run of the script: the points entry for the sidebar's name,
        the sweep, and the send branch when the button was pressed. The
        entry made first is what lets the send branch add to it. */
    method Visit(v: Session.Visit) returns (sent: bool)
      requires Valid()
      modifies this
      ensures Valid() && Model() == Session.Run(old(Model()), v)
      ensures sent <==> Session.Accepts(v)
    {
      EnsureUser(v.user);
      Sweep(v.sweepTime);
      sent := false;
      if v.send {
        sent := Post(v.user, v.input, v.postTime);
      }
      Text.BlankIffAllWhitespace(v.input);
    }
  }
}
