/**
  The message list and its five-minute retention rule (`remove_old_messages`).
  Time is an integer count of microseconds, the resolution of `datetime`.
 */
module Store {

  /** One entry of the message list: the dictionary
      `{"user": ..., "message": ..., "timestamp": ...}`. */
  datatype Message = Message(user: string, message: string, timestamp: int)

  /** `timedelta(minutes=5)` in microseconds. */
  const Window: int := 5 * 60 * 1_000_000

  /** The comprehension's test: `msg['timestamp'] > current_time - timedelta(minutes=5)`.
      A message exactly five minutes old fails it. */
  predicate IsAlive(m: Message, now: int) {
    m.timestamp > now - Window
  }

  /** The list comprehension of `remove_old_messages`: the surviving
      messages, in their original order. */
  function Retained(ms: seq<Message>, now: int): (r: seq<Message>)
    ensures |r| <= |ms|
    ensures forall m :: m in r <==> m in ms && IsAlive(m, now)
  {
    if ms == [] then []
    else if IsAlive(ms[0], now) then [ms[0]] + Retained(ms[1..], now)
    else Retained(ms[1..], now)
  }

  /** `a` is obtained from `b` by deleting elements, the rest kept in order. */
  predicate IsSubsequence(a: seq<Message>, b: seq<Message>)
    decreases |b|
  {
    if a == [] then true
    else if b == [] then false
    else (a[0] == b[0] && IsSubsequence(a[1..], b[1..])) || IsSubsequence(a, b[1..])
  }

  /** Timestamps never decrease along the list. */
  predicate IsChronological(ms: seq<Message>) {
    forall i, j :: 0 <= i < j < |ms| ==> ms[i].timestamp <= ms[j].timestamp
  }

  /** The sweep only deletes: the survivors keep their relative order. */
  lemma {:induction false} RetainedIsSubsequence(ms: seq<Message>, now: int)
    ensures IsSubsequence(Retained(ms, now), ms)
  {
    if ms != [] {
      RetainedIsSubsequence(ms[1..], now);
      var rest := Retained(ms[1..], now);
      if IsAlive(ms[0], now) {
        assert ([ms[0]] + rest)[1..] == rest;
      } else if rest != [] {
        assert IsSubsequence(rest, ms[1..]);
      }
    }
  }

  /** The sweep keeps every copy of a live message and no copy of an
      expired one. */
  lemma {:induction false} RetainedCounts(ms: seq<Message>, now: int, m: Message)
    ensures multiset(Retained(ms, now))[m] == if IsAlive(m, now) then multiset(ms)[m] else 0
  {
    if ms != [] {
      RetainedCounts(ms[1..], now, m);
      assert ms == [ms[0]] + ms[1..];
      assert multiset(ms) == multiset{ms[0]} + multiset(ms[1..]);
      if IsAlive(ms[0], now) {
        var rest := Retained(ms[1..], now);
        assert multiset([ms[0]] + rest) == multiset{ms[0]} + multiset(rest);
      }
    }
  }

  /** A sweep at a later time applied to the result of an earlier sweep
      gives what the later sweep alone gives: nothing removed earlier comes
      back, and the earlier sweep removed nothing the later one keeps. */
  lemma {:induction false} RetainedComposes(ms: seq<Message>, earlier: int, later: int)
    requires earlier <= later
    ensures Retained(Retained(ms, earlier), later) == Retained(ms, later)
  {
    if ms != [] {
      RetainedComposes(ms[1..], earlier, later);
      if IsAlive(ms[0], earlier) {
        var rest := Retained(ms[1..], earlier);
        assert ([ms[0]] + rest)[1..] == rest;
      }
    }
  }

  /** Sweeping twice at the same time is sweeping once. */
  lemma RetainedIdempotent(ms: seq<Message>, now: int)
    ensures Retained(Retained(ms, now), now) == Retained(ms, now)
  {
  }

  /** The boundary is strict: at exactly five minutes a message is
      dropped, one microsecond earlier it is kept. */
  lemma RetentionBoundary(m: Message)
    ensures Retained([m], m.timestamp + Window) == []
    ensures Retained([m], m.timestamp + Window - 1) == [m]
  {
  }

  /** On a chronological list the expired messages form a prefix, so the
      survivors are a suffix of the list. */
  lemma {:induction false} RetainedOfChronologicalIsSuffix(ms: seq<Message>, now: int)
    requires IsChronological(ms)
    ensures Retained(ms, now) == ms[|ms| - |Retained(ms, now)|..]
  {
    if ms != [] {
      assert IsChronological(ms[1..]);
      RetainedOfChronologicalIsSuffix(ms[1..], now);
      if IsAlive(ms[0], now) {
        assert forall m :: m in ms[1..] ==> IsAlive(m, now);
        RetainedOfLiveIsAll(ms[1..], now);
      }
    }
  }

  lemma {:induction false} RetainedOfLiveIsAll(ms: seq<Message>, now: int)
    requires forall m :: m in ms ==> IsAlive(m, now)
    ensures Retained(ms, now) == ms
  {
    if ms != [] {
      RetainedOfLiveIsAll(ms[1..], now);
      assert ms == [ms[0]] + ms[1..];
    }
  }

  /** Messages posted at 0 s, 1 s and 400 s, swept at 301 s: only the
      third survives. */
  lemma SweepExample(a: string, b: string, c: string)
    ensures var ma, mb, mc := Message(a, "A", 0), Message(b, "B", 1_000_000),
      Message(c, "C", 400_000_000);
      Retained([ma, mb, mc], 301_000_000) == [mc]
  {
    var ma, mb, mc := Message(a, "A", 0), Message(b, "B", 1_000_000), Message(c, "C", 400_000_000);
    var t := 301_000_000;
    assert [mc][1..] == [];
    assert Retained([mc], t) == [mc];
    assert [mb, mc][1..] == [mc];
    assert Retained([mb, mc], t) == [mc];
    assert [ma, mb, mc][1..] == [mb, mc];
  }
}
