/**
 The guard against agent-to-agent reply loops: per channel and peer a queue of recent reply times,
 pruned when a reply is recorded. Times come from a monotonic clock.
 */
module BotLoopGuard {

  type Key = (string, string)

  /** How many replies lie within the window that ends at `now`. */
  function InWindow(times: seq<int>, window: nat, now: int): nat {
    if times == [] then 0
    else InWindow(times[..|times| - 1], window, now) + if now - times[|times| - 1] <= window then 1 else 0
  }

  /** The queue after popping everything too old from its front. */
  function Popped(queue: seq<int>, window: nat, now: int): seq<int> {
    if queue != [] && now - queue[0] > window then Popped(queue[1..], window, now) else queue
  }

  function Recorded(queue: seq<int>, window: nat, now: int): seq<int> {
    Popped(queue + [now], window, now)
  }

  /** No queue at all lets the message through; otherwise the count decides. */
  predicate Allows(recent: map<Key, seq<int>>, window: nat, maxReplies: nat, key: Key, now: int) {
    key !in recent || InWindow(recent[key], window, now) < maxReplies
  }

  class Guard {
    const window: nat
    const maxReplies: nat
    var recent: map<Key, seq<int>>

    constructor (window: nat, maxReplies: nat)
      ensures this.window == window && this.maxReplies == maxReplies && recent == map[]
    {
      this.window := window;
      this.maxReplies := maxReplies;
      recent := map[];
    }

    method CheckInbound(key: Key, now: int) returns (allowed: bool)
      ensures allowed <==> Allows(recent, window, maxReplies, key, now)
    {
      if key !in recent {
        return true;
      }
      var queue := recent[key];
      var inWindow := 0;
      assert queue[..0] == [];
      for i := 0 to |queue|
        invariant inWindow == InWindow(queue[..i], window, now)
      {
        assert queue[..i + 1][..i] == queue[..i];
        if now - queue[i] <= window {
          inWindow := inWindow + 1;
        }
      }
      assert queue[..|queue|] == queue;
      return inWindow < maxReplies;
    }

    method RecordOutbound(key: Key, now: int)
      modifies this
      ensures recent == old(recent)[key := Recorded(if key in old(recent) then old(recent)[key] else [], window, now)]
    {
      var queue := (if key in recent then recent[key] else []) + [now];
      ghost var pushed := queue;
      while queue != [] && now - queue[0] > window
        invariant Popped(pushed, window, now) == Popped(queue, window, now)
        decreases |queue|
      {
        queue := queue[1..];
      }
      recent := recent[key := queue];
    }
  }

  // ----- the pruned queue against the full history -----

  ghost predicate Chronological(times: seq<int>) {
    forall i, j :: 0 <= i <= j < |times| ==> times[i] <= times[j]
  }

  /** The queue is the history without its first `k` replies, all out of every window from `latest` on. */
  ghost predicate Tracks(queue: seq<int>, history: seq<int>, window: nat, latest: int, k: nat) {
    && k <= |history| && queue == history[k..]
    && forall i :: 0 <= i < k ==> latest - history[i] > window
  }

  lemma {:induction false} OldOnesDoNotCount(history: seq<int>, k: nat, window: nat, now: int)
    requires k <= |history| && forall i :: 0 <= i < k ==> now - history[i] > window
    ensures InWindow(history, window, now) == InWindow(history[k..], window, now)
  {
    if |history| == k {
      assert history[k..] == [];
      if k > 0 {
        assert history[..k - 1][k - 1..] == [];
        OldOnesDoNotCount(history[..k - 1], k - 1, window, now);
      }
    } else {
      var n := |history| - 1;
      assert history[k..][..n - k] == history[..n][k..];
      OldOnesDoNotCount(history[..n], k, window, now);
    }
  }

  /** The pruned queue answers as the full reply history would. */
  lemma QueueAnswers(queue: seq<int>, history: seq<int>, window: nat, latest: int, k: nat, now: int)
    requires Tracks(queue, history, window, latest, k) && latest <= now
    ensures InWindow(queue, window, now) == InWindow(history, window, now)
  {
    OldOnesDoNotCount(history, k, window, now);
  }

  lemma {:induction false} PoppedIsSuffix(queue: seq<int>, window: nat, now: int) returns (k: nat)
    ensures k <= |queue| && Popped(queue, window, now) == queue[k..]
    ensures forall i :: 0 <= i < k ==> now - queue[i] > window
  {
    if queue != [] && now - queue[0] > window {
      k := PoppedIsSuffix(queue[1..], window, now);
      assert queue[1..][k..] == queue[k + 1..];
      forall i | 0 <= i < k + 1 ensures now - queue[i] > window {
        if i > 0 {
          assert queue[i] == queue[1..][i - 1];
        }
      }
      k := k + 1;
    } else {
      k := 0;
    }
  }

  lemma RecordKeepsTracking(queue: seq<int>, history: seq<int>, window: nat, latest: int, k: nat, now: int)
    returns (k': nat)
    requires Tracks(queue, history, window, latest, k) && latest <= now
    ensures Tracks(Recorded(queue, window, now), history + [now], window, now, k')
  {
    var m := PoppedIsSuffix(queue + [now], window, now);
    var longer := history + [now];
    assert queue + [now] == longer[k..];
    assert longer[k..][m..] == longer[k + m..];
    forall i | 0 <= i < k + m ensures now - longer[i] > window {
      if i >= k {
        assert longer[i] == (queue + [now])[i - k];
      }
    }
    k' := k + m;
  }

  /** The queue after recording all of `history`, each at its own time. */
  function Queue(history: seq<int>, window: nat): seq<int> {
    if history == [] then []
    else Recorded(Queue(history[..|history| - 1], window), window, history[|history| - 1])
  }

  lemma {:induction false} QueueTracks(history: seq<int>, window: nat) returns (k: nat)
    requires Chronological(history) && history != []
    ensures Tracks(Queue(history, window), history, window, history[|history| - 1], k)
  {
    var n := |history| - 1;
    var init, last := history[..n], history[n];
    assert history == init + [last];
    if n == 0 {
      k := RecordKeepsTracking([], [], window, last, 0, last);
    } else {
      k := QueueTracks(init, window);
      k := RecordKeepsTracking(Queue(init, window), init, window, init[n - 1], k, last);
    }
  }

  // ----- reply rate -----

  /** The guard lets a message through at `now`, when the replies so far are `history`. */
  predicate Passes(history: seq<int>, window: nat, maxReplies: nat, now: int) {
    history == [] || InWindow(Queue(history, window), window, now) < maxReplies
  }

  /** A reply recorded for a channel and peer. */
  datatype Reply = Reply(key: Key, at: int)

  /** The guard's map after the replies have been recorded in turn. */
  function RecentAfter(replies: seq<Reply>, window: nat): map<Key, seq<int>> {
    if replies == [] then map[]
    else
      var recent, reply := RecentAfter(replies[..|replies| - 1], window), replies[|replies| - 1];
      recent[reply.key := Recorded(if reply.key in recent then recent[reply.key] else [], window, reply.at)]
  }

  /** The times of all replies to one peer. */
  function HistoryOf(replies: seq<Reply>, key: Key): seq<int> {
    if replies == [] then []
    else
      var reply := replies[|replies| - 1];
      HistoryOf(replies[..|replies| - 1], key) + if reply.key == key then [reply.at] else []
  }

  /** Every peer is guarded by its own history alone: what the shared map answers for a key is what a
      queue that saw only that key's replies would. */
  lemma {:induction false} PeersAreApart(replies: seq<Reply>, window: nat, maxReplies: nat, key: Key, now: int)
    ensures key in RecentAfter(replies, window) <==> HistoryOf(replies, key) != []
    ensures key in RecentAfter(replies, window) ==> RecentAfter(replies, window)[key] == Queue(HistoryOf(replies, key), window)
    ensures Allows(RecentAfter(replies, window), window, maxReplies, key, now) <==>
            Passes(HistoryOf(replies, key), window, maxReplies, now)
  {
    if replies != [] {
      var init, reply := replies[..|replies| - 1], replies[|replies| - 1];
      PeersAreApart(init, window, maxReplies, key, now);
      var history := HistoryOf(init, key);
      assert history + [] == history && (history + [reply.at])[..|history|] == history;
      assert Queue(history + [reply.at], window) == Recorded(Queue(history, window), window, reply.at);
    }
  }

  /** No window of that length holds more than `bound` replies. */
  ghost predicate RateBound(history: seq<int>, window: nat, bound: int) {
    forall i, j :: 0 <= i <= j < |history| && history[j] - history[i] <= window ==> j - i + 1 <= bound
  }

  lemma {:induction false} CountFrom(history: seq<int>, window: nat, now: int, i: nat)
    requires i <= |history| && forall k :: i <= k < |history| ==> now - history[k] <= window
    ensures InWindow(history, window, now) >= |history| - i
  {
    if i < |history| {
      CountFrom(history[..|history| - 1], window, now, i);
    }
  }

  /** The limit that a zero limit amounts to: a peer without a queue is let through. */
  function Effective(maxReplies: nat): (m: nat)
    ensures m >= 1 && m >= maxReplies
  {
    if maxReplies == 0 then 1 else maxReplies
  }

  /** A check that passes sees fewer replies than the limit from any point in the window on. */
  lemma PassMeansFew(history: seq<int>, window: nat, maxReplies: nat, now: int, i: nat)
    requires Chronological(history) && i < |history| && history[|history| - 1] <= now && now - history[i] <= window
    requires Passes(history, window, maxReplies, now)
    ensures |history| - i < Effective(maxReplies)
  {
    var dropped := QueueTracks(history, window);
    QueueAnswers(Queue(history, window), history, window, history[|history| - 1], dropped, now);
    forall k | i <= k < |history| ensures now - history[k] <= window {
      assert history[i] <= history[k];
    }
    CountFrom(history, window, now, i);
  }

  // ----- interleaved callers -----

  /** An inbound message from a peer. A passed check leaves it outstanding until its reply is recorded or
      its run ends without one. */
  datatype Ticket = Ticket(key: Key, number: nat)

  datatype Step = Check(ticket: Ticket, at: int) | Record(ticket: Ticket, at: int) | GiveUp(ticket: Ticket, at: int)

  datatype Sys = Sys(replies: seq<Reply>, outstanding: set<Ticket>, clock: int)

  datatype Limits = Limits(window: nat, maxReplies: nat)

  const START := Sys([], {}, 0)

  function HeldFor(sys: Sys, key: Key): set<Ticket> {
    set t | t in sys.outstanding && t.key == key
  }

  /** The clock does not go back; only an outstanding message is replied to or given up. */
  predicate Enabled(sys: Sys, step: Step) {
    sys.clock <= step.at && (step.Check? <==> step.ticket !in sys.outstanding)
  }

  function Next(c: Limits, sys: Sys, step: Step): Sys {
    match step
    case Check(t, at) =>
      var passed := Allows(RecentAfter(sys.replies, c.window), c.window, c.maxReplies, t.key, at);
      sys.(outstanding := if passed then sys.outstanding + {t} else sys.outstanding, clock := at)
    case Record(t, at) => Sys(sys.replies + [Reply(t.key, at)], sys.outstanding - {t}, at)
    case GiveUp(t, at) => sys.(outstanding := sys.outstanding - {t}, clock := at)
  }

  function Run(c: Limits, steps: seq<Step>): Sys {
    if steps == [] then START else Next(c, Run(c, steps[..|steps| - 1]), steps[|steps| - 1])
  }

  /** At most `n` messages of any one peer are outstanding. */
  ghost predicate AtMost(sys: Sys, n: nat) {
    forall key :: |HeldFor(sys, key)| <= n
  }

  /** An interleaving in which never more than `n` messages of a peer are outstanding. */
  ghost predicate IsRun(c: Limits, n: nat, steps: seq<Step>) {
    steps == [] ||
    var init := steps[..|steps| - 1];
    IsRun(c, n, init) && Enabled(Run(c, init), steps[|steps| - 1]) && AtMost(Run(c, steps), n)
  }

  /** The replies to one peer keep to the bound, and once the limit is reached within the window there
      are at most as many messages outstanding as the bound leaves room for. */
  ghost predicate Slack(history: seq<int>, held: nat, window: nat, m: nat, n: nat, clock: int) {
    && Chronological(history) && (history != [] ==> history[|history| - 1] <= clock) && held <= n
    && RateBound(history, window, m + n - 1)
    && forall i :: 0 <= i < |history| && clock - history[i] <= window && |history| - i >= m ==> |history| - i + held <= m + n - 1
  }

  lemma SlackWaits(history: seq<int>, held: nat, held': nat, window: nat, m: nat, n: nat, clock: int, at: int)
    requires m >= 1 && n >= 1 && Slack(history, held, window, m, n, clock) && clock <= at && held' <= held
    ensures Slack(history, held', window, m, n, at)
  {
  }

  lemma SlackChecks(history: seq<int>, held: nat, window: nat, maxReplies: nat, n: nat, at: int)
    requires n >= 1 && Slack(history, held, window, Effective(maxReplies), n, at)
    requires held + 1 <= n && Passes(history, window, maxReplies, at)
    ensures Slack(history, held + 1, window, Effective(maxReplies), n, at)
  {
    forall i | 0 <= i < |history| && at - history[i] <= window ensures |history| - i < Effective(maxReplies) {
      PassMeansFew(history, window, maxReplies, at, i);
    }
  }

  lemma SlackRecords(history: seq<int>, held: nat, window: nat, m: nat, n: nat, at: int)
    requires m >= 1 && n >= 1 && held >= 1 && Slack(history, held, window, m, n, at)
    ensures Slack(history + [at], held - 1, window, m, n, at)
  {
    var longer := history + [at];
    forall i | 0 <= i < |longer| && at - longer[i] <= window && |longer| - i >= m
      ensures |longer| - i + held - 1 <= m + n - 1
    {
    }
  }

  ghost predicate SlackFor(c: Limits, n: nat, sys: Sys, key: Key) {
    Slack(HistoryOf(sys.replies, key), |HeldFor(sys, key)|, c.window, Effective(c.maxReplies), n, sys.clock)
  }

  lemma HistoryPush(replies: seq<Reply>, r: Reply, key: Key)
    ensures HistoryOf(replies + [r], key) == HistoryOf(replies, key) + if r.key == key then [r.at] else []
  {
    assert (replies + [r])[..|replies|] == replies;
  }

  /** How a step changes the outstanding messages of a peer. */
  lemma HeldAfter(c: Limits, sys: Sys, step: Step, key: Key)
    requires Enabled(sys, step)
    ensures var held, held' := |HeldFor(sys, key)|, |HeldFor(Next(c, sys, step), key)|;
            if step.ticket.key != key then held' == held
            else if !step.Check? then held' == held - 1
            else held' == held + if Passes(HistoryOf(sys.replies, key), c.window, c.maxReplies, step.at) then 1 else 0
  {
    PeersAreApart(sys.replies, c.window, c.maxReplies, step.ticket.key, step.at);
    var before, after := HeldFor(sys, key), HeldFor(Next(c, sys, step), key);
    if step.ticket.key != key {
      assert after == before;
    } else if !step.Check? {
      assert after == before - {step.ticket};
    } else if step.ticket in after {
      assert after == before + {step.ticket};
    } else {
      assert after == before;
    }
  }

  lemma NextSlack(c: Limits, n: nat, sys: Sys, step: Step, key: Key)
    requires n >= 1 && Enabled(sys, step) && AtMost(Next(c, sys, step), n) && SlackFor(c, n, sys, key)
    ensures SlackFor(c, n, Next(c, sys, step), key)
  {
    var history, held, m := HistoryOf(sys.replies, key), |HeldFor(sys, key)|, Effective(c.maxReplies);
    HeldAfter(c, sys, step, key);
    SlackWaits(history, held, held, c.window, m, n, sys.clock, step.at);
    assert |HeldFor(Next(c, sys, step), key)| <= n;
    if step.Record? {
      HistoryPush(sys.replies, Reply(step.ticket.key, step.at), key);
      if step.ticket.key == key {
        SlackRecords(history, held, c.window, m, n, step.at);
      }
    } else if step.ticket.key == key && step.GiveUp? {
      SlackWaits(history, held, held - 1, c.window, m, n, step.at, step.at);
    } else if step.ticket.key == key && Passes(history, c.window, c.maxReplies, step.at) {
      SlackChecks(history, held, c.window, c.maxReplies, n, step.at);
    }
  }

  lemma {:induction false} RunSlack(c: Limits, n: nat, steps: seq<Step>, key: Key)
    requires n >= 1 && IsRun(c, n, steps)
    ensures SlackFor(c, n, Run(c, steps), key)
  {
    if steps == [] {
      assert HeldFor(START, key) == {};
    } else {
      var init := steps[..|steps| - 1];
      RunSlack(c, n, init, key);
      NextSlack(c, n, Run(c, init), steps[|steps| - 1], key);
    }
  }

  /** In every interleaving with at most `n` messages of a peer outstanding, no window holds more replies
      to it than the limit and `n - 1` others. */
  lemma RateIsBounded(c: Limits, n: nat, steps: seq<Step>, key: Key)
    requires n >= 1 && IsRun(c, n, steps)
    ensures RateBound(HistoryOf(Run(c, steps).replies, key), c.window, Effective(c.maxReplies) + n - 1)
  {
    RunSlack(c, n, steps, key);
  }

  // ----- the bound is reached -----

  const PEER: Key := ("", "")

  function Replies(k: nat): seq<Reply> {
    seq(k, _ => Reply(PEER, 0))
  }

  function Tickets(from: nat, to: nat): set<Ticket> {
    set i: nat | from <= i < to :: Ticket(PEER, i)
  }

  /** `k` replies at time zero, and the messages from `from` up to `to` outstanding. */
  function Busy(k: nat, from: nat, to: nat): Sys {
    Sys(Replies(k), Tickets(from, to), 0)
  }

  lemma {:induction false} TicketCount(from: nat, to: nat)
    requires from <= to
    ensures |Tickets(from, to)| == to - from
  {
    if from == to {
      assert Tickets(from, to) == {};
    } else {
      TicketCount(from, to - 1);
      assert Tickets(from, to) == Tickets(from, to - 1) + {Ticket(PEER, to - 1)};
    }
  }

  lemma BusyAtMost(k: nat, from: nat, to: nat, n: nat)
    requires from <= to <= from + n
    ensures AtMost(Busy(k, from, to), n)
  {
    TicketCount(from, to);
    forall key ensures |HeldFor(Busy(k, from, to), key)| <= n {
      assert HeldFor(Busy(k, from, to), key) == if key == PEER then Tickets(from, to) else {};
    }
  }

  lemma {:induction false} BusyHistory(k: nat, window: nat)
    ensures HistoryOf(Replies(k), PEER) == seq(k, _ => 0)
    ensures InWindow(seq(k, _ => 0), window, 0) == k
  {
    if k > 0 {
      BusyHistory(k - 1, window);
      assert Replies(k)[..k - 1] == Replies(k - 1);
      assert seq(k, _ => 0)[..k - 1] == seq(k - 1, _ => 0);
      assert seq(k - 1, _ => 0) + [0] == seq(k, _ => 0);
    }
  }

  lemma BusyPasses(c: Limits, k: nat)
    requires k < Effective(c.maxReplies)
    ensures Allows(RecentAfter(Replies(k), c.window), c.window, c.maxReplies, PEER, 0)
  {
    var history := seq(k, _ => 0);
    BusyHistory(k, c.window);
    PeersAreApart(Replies(k), c.window, c.maxReplies, PEER, 0);
    if k > 0 {
      var dropped := QueueTracks(history, c.window);
      QueueAnswers(Queue(history, c.window), history, c.window, 0, dropped, 0);
    }
  }

  /** `steps` is an interleaving with at most `n` outstanding that leads to `sys`. */
  ghost predicate LeadsTo(c: Limits, n: nat, steps: seq<Step>, sys: Sys) {
    IsRun(c, n, steps) && Run(c, steps) == sys
  }

  lemma OneMoreStep(c: Limits, n: nat, steps: seq<Step>, sys: Sys, step: Step)
    requires LeadsTo(c, n, steps, sys) && Enabled(sys, step) && AtMost(Next(c, sys, step), n)
    ensures LeadsTo(c, n, steps + [step], Next(c, sys, step))
  {
    assert (steps + [step])[..|steps|] == steps;
  }

  lemma CheckOne(c: Limits, n: nat, steps: seq<Step>, k: nat, from: nat, to: nat) returns (more: seq<Step>)
    requires LeadsTo(c, n, steps, Busy(k, from, to)) && k < Effective(c.maxReplies) && from <= to < from + n
    ensures LeadsTo(c, n, more, Busy(k, from, to + 1))
  {
    var step := Check(Ticket(PEER, to), 0);
    BusyPasses(c, k);
    assert Tickets(from, to) + {Ticket(PEER, to)} == Tickets(from, to + 1);
    assert Next(c, Busy(k, from, to), step) == Busy(k, from, to + 1);
    BusyAtMost(k, from, to + 1, n);
    OneMoreStep(c, n, steps, Busy(k, from, to), step);
    more := steps + [step];
  }

  lemma RecordOne(c: Limits, n: nat, steps: seq<Step>, k: nat, from: nat, to: nat) returns (more: seq<Step>)
    requires LeadsTo(c, n, steps, Busy(k, from, to)) && from < to <= from + n
    ensures LeadsTo(c, n, more, Busy(k + 1, from + 1, to))
  {
    var step := Record(Ticket(PEER, from), 0);
    assert Tickets(from, to) - {Ticket(PEER, from)} == Tickets(from + 1, to);
    assert Replies(k) + [Reply(PEER, 0)] == Replies(k + 1);
    assert Next(c, Busy(k, from, to), step) == Busy(k + 1, from + 1, to);
    BusyAtMost(k + 1, from + 1, to, n);
    OneMoreStep(c, n, steps, Busy(k, from, to), step);
    more := steps + [step];
  }

  /** Check and record in turn, `k` times. */
  lemma {:induction false} Alternate(c: Limits, n: nat, k: nat) returns (steps: seq<Step>)
    requires n >= 1 && k < Effective(c.maxReplies)
    ensures LeadsTo(c, n, steps, Busy(k, k, k))
  {
    if k == 0 {
      steps := [];
      assert Replies(0) == [] && Tickets(0, 0) == {};
    } else {
      steps := Alternate(c, n, k - 1);
      steps := CheckOne(c, n, steps, k - 1, k - 1, k - 1);
      steps := RecordOne(c, n, steps, k - 1, k - 1, k);
    }
  }

  lemma {:induction false} CheckMany(c: Limits, n: nat, k: nat, held: nat) returns (steps: seq<Step>)
    requires n >= 1 && k < Effective(c.maxReplies) && held <= n
    ensures LeadsTo(c, n, steps, Busy(k, k, k + held))
  {
    if held == 0 {
      steps := Alternate(c, n, k);
    } else {
      steps := CheckMany(c, n, k, held - 1);
      steps := CheckOne(c, n, steps, k, k, k + held - 1);
    }
  }

  lemma {:induction false} RecordMany(c: Limits, n: nat, k: nat, done: nat) returns (steps: seq<Step>)
    requires n >= 1 && k < Effective(c.maxReplies) && done <= n
    ensures LeadsTo(c, n, steps, Busy(k + done, k + done, k + n))
  {
    if done == 0 {
      steps := CheckMany(c, n, k, n);
    } else {
      steps := RecordMany(c, n, k, done - 1);
      steps := RecordOne(c, n, steps, k + done - 1, k + done - 1, k + n);
    }
  }

  /** One reply short of the limit, `n` messages pass the check before any of their replies is recorded. */
  lemma BoundIsReached(c: Limits, n: nat, bound: nat) returns (steps: seq<Step>)
    requires n >= 1 && bound < Effective(c.maxReplies) + n - 1
    ensures IsRun(c, n, steps) && !RateBound(HistoryOf(Run(c, steps).replies, PEER), c.window, bound)
  {
    var k := Effective(c.maxReplies) - 1;
    steps := RecordMany(c, n, k, n);
    var history := HistoryOf(Run(c, steps).replies, PEER);
    BusyHistory(k + n, c.window);
    assert history[k + n - 1] - history[0] <= c.window;
  }

  /** Every interleaving with at most `n` messages of a peer outstanding keeps to the bound. */
  ghost predicate AlwaysWithin(c: Limits, n: nat, bound: nat) {
    forall steps, key :: IsRun(c, n, steps) ==> RateBound(HistoryOf(Run(c, steps).replies, key), c.window, bound)
  }

  /** The least bound that every interleaving keeps to is the limit and `n - 1` others. */
  lemma BoundHoldsIff(c: Limits, n: nat, bound: nat)
    requires n >= 1
    ensures AlwaysWithin(c, n, bound) <==> bound >= Effective(c.maxReplies) + n - 1
  {
    if bound >= Effective(c.maxReplies) + n - 1 {
      forall steps, key | IsRun(c, n, steps)
        ensures RateBound(HistoryOf(Run(c, steps).replies, key), c.window, bound)
      {
        RateIsBounded(c, n, steps, key);
      }
    } else {
      var steps := BoundIsReached(c, n, bound);
    }
  }

  /** The limit holds in every interleaving exactly when it is at least one and a peer never has more than
      one message outstanding. */
  lemma LimitHoldsIff(c: Limits, n: nat)
    requires n >= 1
    ensures AlwaysWithin(c, n, c.maxReplies) <==> c.maxReplies >= 1 && n == 1
  {
    BoundHoldsIff(c, n, c.maxReplies);
  }

  /** A caller that does not limit the messages outstanding, as the gateway's does not, exceeds any bound. */
  lemma NothingHoldsUnlimited(c: Limits, bound: nat)
    ensures exists n, steps :: IsRun(c, n, steps) && !RateBound(HistoryOf(Run(c, steps).replies, PEER), c.window, bound)
  {
    var steps := BoundIsReached(c, bound + 1, bound);
  }
}
