/**
 * The sliding-window burst detector of the moderation cog, as pure
 * functions over one user's list of message timestamps: append the new
 * timestamp, drop those older than the window, fire at the threshold and
 * then start over with an empty list.
 */
module SpamWindow {
  import opened Seqs

  /** SPAM_WINDOW_SEC: how far back, in seconds, messages count. */
  const SpamWindowSec: real := 6.0

  /** SPAM_MAX_MSG: how many messages inside the window fire the detector. */
  const SpamMaxMsg: nat := 5

  /**
   * The comprehension `[t for t in times if t >= cutoff]`: every occurrence of
   * a timestamp at or after the cutoff is kept, every other one dropped, and
   * the kept ones stay in their order.
   */
  function Prune(times: seq<real>, cutoff: real): (r: seq<real>)
    ensures forall t :: t in r <==> t in times && t >= cutoff
    ensures IsSubsequence(r, times)
  {
    if times == [] then []
    else if times[0] >= cutoff then
      SubsequenceCons(times[0], Prune(times[1..], cutoff), times[1..]);
      assert [times[0]] + times[1..] == times;
      [times[0]] + Prune(times[1..], cutoff)
    else
      SubsequenceSkip(times[0], Prune(times[1..], cutoff), times[1..]);
      assert [times[0]] + times[1..] == times;
      Prune(times[1..], cutoff)
  }

  /**
   * The prune keeps every occurrence of a timestamp at or after the cutoff and
   * none before it, so it never lengthens the list.
   */
  lemma {:induction false} PruneCounts(times: seq<real>, cutoff: real)
    ensures forall t :: multiset(Prune(times, cutoff))[t] == if t >= cutoff then multiset(times)[t] else 0
    ensures |Prune(times, cutoff)| <= |times|
  {
    if times != [] {
      PruneCounts(times[1..], cutoff);
      assert times == [times[0]] + times[1..];
    }
  }

  /** Nothing is dropped when every timestamp is at or after the cutoff (a timestamp exactly at it survives). */
  lemma {:induction false} PruneKeepsAll(times: seq<real>, cutoff: real)
    requires forall i :: 0 <= i < |times| ==> times[i] >= cutoff
    ensures Prune(times, cutoff) == times
  {
    if times != [] {
      PruneKeepsAll(times[1..], cutoff);
    }
  }

  /** Everything is dropped when every timestamp is before the cutoff. */
  lemma {:induction false} PruneDropsAll(times: seq<real>, cutoff: real)
    requires forall i :: 0 <= i < |times| ==> times[i] < cutoff
    ensures Prune(times, cutoff) == []
  {
    if times != [] {
      PruneDropsAll(times[1..], cutoff);
    }
  }

  /** Pruning a concatenation prunes each part. */
  lemma {:induction false} PruneAppend(a: seq<real>, b: seq<real>, cutoff: real)
    ensures Prune(a + b, cutoff) == Prune(a, cutoff) + Prune(b, cutoff)
  {
    if a == [] {
      assert a + b == b;
    } else {
      PruneAppend(a[1..], b, cutoff);
      assert (a + b)[0] == a[0];
      assert (a + b)[1..] == a[1..] + b;
    }
  }


  /**
   * The list stored after a message at `now`, before the threshold is checked:
   * the earlier timestamps still inside the window, then `now`.
   */
  function Window(prev: seq<real>, now: real): (w: seq<real>)
    ensures w == Prune(prev, now - SpamWindowSec) + [now]
    ensures forall t :: t in w ==> now - SpamWindowSec <= t
    ensures |w| <= |prev| + 1
  {
    PruneCounts(prev, now - SpamWindowSec);
    PruneAppend(prev, [now], now - SpamWindowSec);
    PruneKeepsAll([now], now - SpamWindowSec);
    Prune(prev + [now], now - SpamWindowSec)
  }

  /**
   * The window holds `now` and every earlier timestamp that is within
   * SPAM_WINDOW_SEC of it, in their original order, and nothing older.
   */
  lemma WindowContents(prev: seq<real>, now: real)
    ensures now in Window(prev, now)
    ensures Window(prev, now) == Prune(prev, now - SpamWindowSec) + [now]
    ensures forall t :: t in Window(prev, now) ==> now - SpamWindowSec <= t
    ensures IsSubsequence(Window(prev, now), prev + [now])
  {
    PruneAppend(prev, [now], now - SpamWindowSec);
    PruneKeepsAll([now], now - SpamWindowSec);
  }

  /** A message more than SPAM_WINDOW_SEC after every earlier one starts a fresh window of one. */
  lemma GapClearsWindow(prev: seq<real>, now: real)
    requires forall i :: 0 <= i < |prev| ==> prev[i] < now - SpamWindowSec
    ensures Window(prev, now) == [now]
  {
    WindowContents(prev, now);
    PruneDropsAll(prev, now - SpamWindowSec);
  }

  /**
   * One message: the new list and whether the detector fired. A firing resets
   * the list, so what is kept is always below the threshold.
   */
  function Step(prev: seq<real>, now: real): (r: (seq<real>, bool))
    ensures |r.0| < SpamMaxMsg
    ensures r.1 ==> r.0 == []
    ensures !r.1 ==> r.0 == Window(prev, now)
  {
    var w := Window(prev, now);
    if |w| >= SpamMaxMsg then ([], true) else (w, false)
  }

  /** Right after a reset, the next message leaves a list of one and does not fire. */
  lemma {:induction false} NoRefireAfterReset(now: real)
    ensures Step([], now) == ([now], false)
  {
    WindowContents([], now);
    assert Prune([], now - SpamWindowSec) == [];
    assert Window([], now) == [now];
  }

  /** The detector fires exactly when `now` and the earlier timestamps still inside the window reach SPAM_MAX_MSG. */
  lemma FiresIffThreshold(prev: seq<real>, now: real)
    ensures Step(prev, now).1 <==> |Prune(prev, now - SpamWindowSec)| + 1 >= SpamMaxMsg
    ensures !Step(prev, now).1 ==> now in Step(prev, now).0
    ensures Step(prev, now).1 ==> Step(prev, now).0 == []
  {
    WindowContents(prev, now);
  }

  /**
   * The list and the number of times the detector fired after a user's messages
   * at `events`, starting from no history. Every firing uses up SPAM_MAX_MSG
   * messages that the list no longer holds, and the list holds only timestamps
   * of those messages.
   */
  function Replay(events: seq<real>): (r: (seq<real>, nat))
    ensures |r.0| < SpamMaxMsg
    ensures r.1 * SpamMaxMsg + |r.0| <= |events|
    ensures forall t :: t in r.0 ==> t in events
  {
    if events == [] then ([], 0)
    else
      var before := Replay(events[..|events| - 1]);
      var after := Step(before.0, events[|events| - 1]);
      (after.0, if after.1 then before.1 + 1 else before.1)
  }

  /**
   * The list holds timestamps of real messages, each no more often than it
   * occurs among them: a firing always stands for distinct messages.
   */
  lemma {:induction false} ReplayFromEvents(events: seq<real>)
    ensures multiset(Replay(events).0) <= multiset(events)
  {
    if events != [] {
      var p := events[..|events| - 1];
      var e := events[|events| - 1];
      ReplayFromEvents(p);
      assert events == p + [e];
      if !Step(Replay(p).0, e).1 {
        var c := e - SpamWindowSec;
        PruneSubMultiset(Replay(p).0, c);
        assert Replay(events).0 == Prune(Replay(p).0, c) + [e];
      }
    }
  }

  /** The prune keeps at most the occurrences it was given. */
  lemma PruneSubMultiset(times: seq<real>, cutoff: real)
    ensures multiset(Prune(times, cutoff)) <= multiset(times)
  {
    PruneCounts(times, cutoff);
    forall t ensures multiset(Prune(times, cutoff))[t] <= multiset(times)[t] {
    }
  }

  /**
   * SPAM_MAX_MSG messages whose first and last lie more than SPAM_WINDOW_SEC
   * apart never fire: at the last one the first is already outside the window.
   */
  lemma SpanTooWideNeverFires(events: seq<real>)
    requires |events| == SpamMaxMsg
    requires events[0] + SpamWindowSec < events[|events| - 1]
    ensures Replay(events).1 == 0
  {
    var p := events[..|events| - 1];
    var e := events[|events| - 1];
    var c := e - SpamWindowSec;
    assert Replay(p).1 == 0;
    ReplayFromEvents(p);
    PruneDropsOne(p, 0, c);
    SubMultisetPrune(Replay(p).0, p, c);
    FiresIffThreshold(Replay(p).0, e);
  }

  /** A timestamp before the cutoff is dropped, so the prune is strictly shorter. */
  lemma {:induction false} PruneDropsOne(times: seq<real>, i: nat, cutoff: real)
    requires i < |times| && times[i] < cutoff
    ensures |Prune(times, cutoff)| < |times|
  {
    PruneCounts(times[1..], cutoff);
    if i > 0 {
      PruneDropsOne(times[1..], i - 1, cutoff);
    }
  }

  /** Pruning fewer occurrences leaves no more behind. */
  lemma SubMultisetPrune(l: seq<real>, m: seq<real>, cutoff: real)
    requires multiset(l) <= multiset(m)
    ensures |Prune(l, cutoff)| <= |Prune(m, cutoff)|
  {
    PruneCounts(l, cutoff);
    PruneCounts(m, cutoff);
    forall t ensures multiset(Prune(l, cutoff))[t] <= multiset(Prune(m, cutoff))[t] {
      assert multiset(l)[t] <= multiset(m)[t];
    }
    MultisetCard(multiset(Prune(l, cutoff)), multiset(Prune(m, cutoff)));
  }

  /** A sub-multiset is no larger. */
  lemma MultisetCard(a: multiset<real>, b: multiset<real>)
    requires a <= b
    ensures |a| <= |b|
  {
    assert b == a + (b - a);
  }

  /** The timestamps are in order and all lie within one window of each other. */
  predicate OneBurst(events: seq<real>) {
    forall i, j :: 0 <= i < j < |events| ==> events[i] <= events[j] <= events[i] + SpamWindowSec
  }

  /**
   * Messages that all fall inside one window fire the detector once per
   * SPAM_MAX_MSG of them: five inside six seconds fire exactly once, and the
   * list then holds only the messages since the last firing.
   */
  lemma {:induction false} BurstFiresOncePerThreshold(events: seq<real>)
    requires OneBurst(events)
    ensures Replay(events).1 == |events| / SpamMaxMsg
    ensures Replay(events).0 == events[|events| - |events| % SpamMaxMsg..]
  {
    var n := |events|;
    if n > 0 {
      var m := n - 1;
      var p := events[..m];
      var e := events[m];
      BurstPrefix(events);
      BurstFiresOncePerThreshold(p);
      var k := m - m % SpamMaxMsg;
      var l := events[k..m];
      BurstWindow(events, k);
      CountStep(m);
      assert Replay(events) == (Step(l, e).0, if Step(l, e).1 then m / SpamMaxMsg + 1 else m / SpamMaxMsg);
    }
  }

  /** A prefix of a burst is a burst. */
  lemma BurstPrefix(events: seq<real>)
    requires OneBurst(events) && |events| > 0
    ensures OneBurst(events[..|events| - 1])
  {
  }

  /** In one burst, the window at the last message keeps every earlier timestamp from position `k` on. */
  lemma BurstWindow(events: seq<real>, k: nat)
    requires OneBurst(events) && k < |events|
    ensures Window(events[k..|events| - 1], events[|events| - 1]) == events[k..]
  {
    var l := events[k..|events| - 1];
    var e := events[|events| - 1];
    forall i | 0 <= i < |l| ensures l[i] >= e - SpamWindowSec {
      assert l[i] == events[k + i];
    }
    WindowOfBurst(l, e);
    assert l + [e] == events[k..];
  }

  /** Inside one burst nothing is pruned: the window is the old list plus the new timestamp. */
  lemma WindowOfBurst(l: seq<real>, e: real)
    requires forall i :: 0 <= i < |l| ==> l[i] >= e - SpamWindowSec
    ensures Window(l, e) == l + [e]
  {
    WindowContents(l, e);
    PruneKeepsAll(l, e - SpamWindowSec);
  }

  /** How the count of messages since the last firing and the number of firings move on one message. */
  lemma CountStep(m: nat)
    ensures m % SpamMaxMsg + 1 == SpamMaxMsg ==> (m + 1) % SpamMaxMsg == 0 && (m + 1) / SpamMaxMsg == m / SpamMaxMsg + 1
    ensures m % SpamMaxMsg + 1 < SpamMaxMsg ==> (m + 1) % SpamMaxMsg == m % SpamMaxMsg + 1 && (m + 1) / SpamMaxMsg == m / SpamMaxMsg
  {
  }

  /** The timestamps are in order, each more than one window after the one before. */
  predicate Spread(events: seq<real>) {
    forall i :: 0 < i < |events| ==> events[i - 1] + SpamWindowSec < events[i]
  }

  /** Messages spread more than a window apart never accumulate: the list holds only the latest one and nothing fires. */
  lemma {:induction false} SpreadNeverFires(events: seq<real>)
    requires |events| > 0 && Spread(events)
    ensures Replay(events) == ([events[|events| - 1]], 0)
  {
    var n := |events|;
    var p := events[..n - 1];
    if n == 1 {
      NoRefireAfterReset(events[0]);
    } else {
      assert Spread(p);
      SpreadNeverFires(p);
      GapClearsWindow([events[n - 2]], events[n - 1]);
    }
  }
}
