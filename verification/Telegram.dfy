/**
 The Telegram long-polling loop against a server that returns at most a hundred updates, in
 increasing id order, from the offset on (Telegram Bot API, `getUpdates`). Updates may arrive, and
 requests may fail, at any time.
 */
module Telegram {
  import opened Wrappers

  datatype Update = Update(id: int, message: Option<string>)

  const LIMIT := 100

  ghost predicate Increasing(updates: seq<Update>) {
    forall i, j :: 0 <= i < j < |updates| ==> updates[i].id < updates[j].id
  }

  /** How many updates lie below the offset; without an offset, none do. */
  function Below(updates: seq<Update>, offset: Option<int>): (n: nat)
    ensures n <= |updates|
  {
    if updates == [] || offset.None? || updates[0].id >= offset.value then 0 else 1 + Below(updates[1..], offset)
  }

  /** The server's answer: the first updates that are not below the offset. */
  function Batch(updates: seq<Update>, offset: Option<int>): seq<Update> {
    var pending := updates[Below(updates, offset)..];
    if |pending| <= LIMIT then pending else pending[..LIMIT]
  }

  /** The updates that carry a message, in order. */
  function Bearing(updates: seq<Update>): seq<Update> {
    if updates == [] then []
    else
      var u := updates[|updates| - 1];
      Bearing(updates[..|updates| - 1]) + if u.message.Some? then [u] else []
  }

  /** `room` is how many more messages the inbound channel takes before it is closed. */
  datatype Poller = Poller(offset: Option<int>, forwarded: seq<Update>, room: nat, stopped: bool)

  function Take(p: Poller, u: Update): Poller {
    if p.stopped || u.message.None? then p
    else if p.room == 0 then p.(stopped := true)
    else p.(offset := Some(u.id + 1), forwarded := p.forwarded + [u], room := p.room - 1)
  }

  function TakeAll(p: Poller, batch: seq<Update>): Poller {
    if batch == [] then p else Take(TakeAll(p, batch[..|batch| - 1]), batch[|batch| - 1])
  }

  /** The batch loop of `poll_updates`. */
  method ProcessBatch(p0: Poller, batch: seq<Update>) returns (p: Poller)
    requires !p0.stopped
    ensures p == TakeAll(p0, batch)
  {
    p := p0;
    assert batch[..0] == [];
    for i := 0 to |batch|
      invariant p == TakeAll(p0, batch[..i]) && !p.stopped
    {
      assert batch[..i + 1][..i] == batch[..i];
      var update := batch[i];
      if update.message.Some? {
        if p.room == 0 {
          p := p.(stopped := true);
          StoppedStays(p0, batch, i + 1);
          return;
        }
        p := p.(forwarded := p.forwarded + [update], room := p.room - 1);
        p := p.(offset := Some(update.id + 1));
      }
    }
    assert batch[..|batch|] == batch;
  }

  lemma {:induction false} StoppedStays(p: Poller, batch: seq<Update>, n: nat)
    requires n <= |batch| && TakeAll(p, batch[..n]).stopped
    ensures TakeAll(p, batch) == TakeAll(p, batch[..n])
    decreases |batch|
  {
    if n < |batch| {
      assert batch[..|batch| - 1][..n] == batch[..n];
      StoppedStays(p, batch[..|batch| - 1], n);
    } else {
      assert batch[..n] == batch;
    }
  }

  // ----- runs -----

  datatype Step = Arrive(updates: seq<Update>) | Poll | Fail

  datatype World = World(updates: seq<Update>, poller: Poller)

  function Next(w: World, step: Step): World {
    match step
    case Arrive(us) => w.(updates := w.updates + us)
    case Poll => if w.poller.stopped then w else w.(poller := TakeAll(w.poller, Batch(w.updates, w.poller.offset)))
    case Fail => w
  }

  function Run(room: nat, steps: seq<Step>): World {
    if steps == [] then World([], Poller(None, [], room, false))
    else Next(Run(room, steps[..|steps| - 1]), steps[|steps| - 1])
  }

  // ----- what has been forwarded -----

  /** Forwarded are exactly the message-bearing updates below the offset, once each and in order. */
  ghost predicate Exact(updates: seq<Update>, p: Poller) {
    p.forwarded == Bearing(updates[..Below(updates, p.offset)])
  }

  lemma {:induction false} BelowIs(updates: seq<Update>, offset: int, n: nat)
    requires n <= |updates|
    requires forall i :: 0 <= i < n ==> updates[i].id < offset
    requires n < |updates| ==> updates[n].id >= offset
    ensures Below(updates, Some(offset)) == n
  {
    if n > 0 {
      BelowIs(updates[1..], offset, n - 1);
    }
  }

  lemma BelowAfter(updates: seq<Update>, k: nat)
    requires Increasing(updates) && k < |updates|
    ensures Below(updates, Some(updates[k].id + 1)) == k + 1
  {
    BelowIs(updates, updates[k].id + 1, k + 1);
  }

  lemma {:induction false} BearingConcat(a: seq<Update>, b: seq<Update>)
    ensures Bearing(a + b) == Bearing(a) + Bearing(b)
  {
    if b == [] {
      assert a + b == a;
    } else {
      var all := a + b;
      assert all[..|all| - 1] == a + b[..|b| - 1];
      BearingConcat(a, b[..|b| - 1]);
    }
  }

  lemma BearingStep(updates: seq<Update>, s: nat, i: nat)
    requires s <= i < |updates|
    ensures Bearing(updates[s..i + 1]) == Bearing(updates[s..i]) + if updates[i].message.Some? then [updates[i]] else []
    ensures Bearing(updates[..i + 1]) == Bearing(updates[..s]) + Bearing(updates[s..i + 1])
  {
    var part := updates[s..i + 1];
    assert part[..|part| - 1] == updates[s..i] && part[|part| - 1] == updates[i];
    assert updates[..i + 1] == updates[..s] + part;
    BearingConcat(updates[..s], part);
  }

  /** The poller has gone through the updates before `i`: `s` of them lie below its offset, and none of
      the others bears a message. */
  ghost predicate UpTo(updates: seq<Update>, p: Poller, s: nat, i: nat) {
    && s <= i <= |updates| && s == Below(updates, p.offset) && p.forwarded == Bearing(updates[..s])
    && (!p.stopped ==> Bearing(updates[s..i]) == [])
  }

  lemma TakeOne(updates: seq<Update>, p: Poller, s: nat, i: nat) returns (s': nat)
    requires Increasing(updates) && i < |updates| && UpTo(updates, p, s, i)
    ensures UpTo(updates, Take(p, updates[i]), s', i + 1)
  {
    BearingStep(updates, s, i);
    if !p.stopped && updates[i].message.Some? && p.room > 0 {
      s' := i + 1;
      BelowAfter(updates, i);
      assert updates[i + 1..i + 1] == [];
    } else {
      s' := s;
    }
  }

  lemma {:induction false} TakeMany(updates: seq<Update>, p: Poller, s: nat, i: nat, n: nat) returns (s': nat)
    requires Increasing(updates) && i + n <= |updates| && UpTo(updates, p, s, i)
    ensures UpTo(updates, TakeAll(p, updates[i..i + n]), s', i + n)
    decreases n
  {
    if n > 0 {
      var last := i + n - 1;
      var before := TakeAll(p, updates[i..last]);
      TakeAllStep(updates, p, i, n);
      s' := TakeMany(updates, p, s, i, n - 1);
      s' := TakeOne(updates, before, s', last);
    } else {
      assert updates[i..i] == [];
      s' := s;
    }
  }

  lemma TakeAllStep(updates: seq<Update>, p: Poller, i: nat, n: nat)
    requires n > 0 && i + n <= |updates|
    ensures TakeAll(p, updates[i..i + n]) == Take(TakeAll(p, updates[i..i + n - 1]), updates[i + n - 1])
  {
    var batch := updates[i..i + n];
    assert batch[..n - 1] == updates[i..i + n - 1] && batch[n - 1] == updates[i + n - 1];
  }

  lemma PollIsExact(updates: seq<Update>, p: Poller)
    requires Increasing(updates) && Exact(updates, p)
    ensures Exact(updates, TakeAll(p, Batch(updates, p.offset)))
  {
    var s := Below(updates, p.offset);
    var n := |Batch(updates, p.offset)|;
    assert Batch(updates, p.offset) == updates[s..s + n];
    assert updates[s..s] == [];
    var s' := TakeMany(updates, p, s, s, n);
  }

  /** Every offset is one past the id of an update the server has had. */
  ghost predicate OffsetKnown(updates: seq<Update>, offset: Option<int>) {
    offset.Some? ==> exists i :: 0 <= i < |updates| && updates[i].id + 1 == offset.value
  }

  lemma {:induction false} TakeAllKnown(updates: seq<Update>, p: Poller, i: nat, n: nat)
    requires i + n <= |updates| && OffsetKnown(updates, p.offset)
    ensures OffsetKnown(updates, TakeAll(p, updates[i..i + n]).offset)
  {
    if n > 0 {
      TakeAllStep(updates, p, i, n);
      TakeAllKnown(updates, p, i, n - 1);
    }
  }

  lemma ArriveIsExact(updates: seq<Update>, more: seq<Update>, p: Poller)
    requires Increasing(updates + more) && Exact(updates, p) && OffsetKnown(updates, p.offset)
    ensures Exact(updates + more, p) && OffsetKnown(updates + more, p.offset)
  {
    var all, s := updates + more, Below(updates, p.offset);
    if p.offset.Some? {
      var k :| 0 <= k < |updates| && updates[k].id + 1 == p.offset.value;
      assert forall i :: 0 <= i < |updates| ==> updates[i] == all[i];
      BelowAfter(updates, k);
      BelowAfter(all, k);
      assert all[..k + 1] == updates[..k + 1];
      assert all[k].id + 1 == p.offset.value;
    } else {
      assert all[..0] == updates[..0];
    }
  }

  /** In every run, whatever arrives and fails when, the messages forwarded are exactly those of the
      updates below the offset, once each and in order. */
  lemma {:induction false} ForwardsExactly(room: nat, steps: seq<Step>)
    requires Increasing(Run(room, steps).updates)
    ensures Exact(Run(room, steps).updates, Run(room, steps).poller)
    ensures OffsetKnown(Run(room, steps).updates, Run(room, steps).poller.offset)
  {
    if steps != [] {
      var before, step := Run(room, steps[..|steps| - 1]), steps[|steps| - 1];
      assert forall i :: 0 <= i < |before.updates| ==> before.updates[i] == Run(room, steps).updates[i];
      ForwardsExactly(room, steps[..|steps| - 1]);
      match step {
        case Arrive(us) => ArriveIsExact(before.updates, us, before.poller);
        case Poll =>
          PollIsExact(before.updates, before.poller);
          var s, n := Below(before.updates, before.poller.offset), |Batch(before.updates, before.poller.offset)|;
          assert Batch(before.updates, before.poller.offset) == before.updates[s..s + n];
          TakeAllKnown(before.updates, before.poller, s, n);
        case Fail =>
      }
    }
  }

  // ----- progress -----

  lemma {:induction false} NothingToTake(p: Poller, batch: seq<Update>)
    ensures Bearing(batch) == [] ==> TakeAll(p, batch) == p
    ensures Bearing(batch) != [] && !p.stopped && p.room > 0 ==>
              TakeAll(p, batch).offset.Some? && exists u :: u in batch && TakeAll(p, batch).offset.value == u.id + 1
    ensures |TakeAll(p, batch).forwarded| >= |p.forwarded|
    ensures Bearing(batch) != [] && !p.stopped && p.room > 0 ==> |TakeAll(p, batch).forwarded| > |p.forwarded|
  {
    if batch != [] {
      var init, u := batch[..|batch| - 1], batch[|batch| - 1];
      NothingToTake(p, init);
      assert forall x :: x in init ==> x in batch;
      assert u in batch;
      if Bearing(init) != [] && !p.stopped && p.room > 0 {
        var x :| x in init && TakeAll(p, init).offset.value == x.id + 1;
        assert x in batch;
      }
    }
  }

  /** A poll moves the offset exactly when its batch contains a message and the channel takes one. */
  lemma OffsetMovesIff(updates: seq<Update>, p: Poller)
    requires Increasing(updates) && !p.stopped && p.room > 0
    ensures TakeAll(p, Batch(updates, p.offset)).offset != p.offset <==> Bearing(Batch(updates, p.offset)) != []
  {
    var batch := Batch(updates, p.offset);
    NothingToTake(p, batch);
    if Bearing(batch) != [] {
      var u :| u in batch && TakeAll(p, batch).offset.value == u.id + 1;
      BatchNotBelow(updates, p.offset, u);
    }
  }

  lemma BatchNotBelow(updates: seq<Update>, offset: Option<int>, u: Update)
    requires Increasing(updates) && u in Batch(updates, offset)
    ensures offset.Some? ==> u.id >= offset.value
  {
    NotBelow(updates, offset);
    var batch, s := Batch(updates, offset), Below(updates, offset);
    var k :| 0 <= k < |batch| && batch[k] == u;
    assert u == updates[s + k];
  }

  lemma {:induction false} NotBelow(updates: seq<Update>, offset: Option<int>)
    requires Increasing(updates)
    ensures forall i :: Below(updates, offset) <= i < |updates| && offset.Some? ==> updates[i].id >= offset.value
  {
    if updates != [] && offset.Some? {
      if updates[0].id < offset.value {
        NotBelow(updates[1..], offset);
        forall i | Below(updates, offset) <= i < |updates| ensures updates[i].id >= offset.value {
          assert updates[i] == updates[1..][i - 1];
        }
      }
    }
  }

  /** A full batch without a message stalls the poller for good: whatever arrives later, it never
      forwards anything again. */
  lemma {:induction false} SilentBatchStalls(room: nat, steps: seq<Step>, more: seq<Step>)
    requires Increasing(Run(room, steps + more).updates)
    requires var w := Run(room, steps);
             |Batch(w.updates, w.poller.offset)| == LIMIT && Bearing(Batch(w.updates, w.poller.offset)) == []
    ensures Run(room, steps + more).poller == Run(room, steps).poller
    ensures Run(room, steps).updates <= Run(room, steps + more).updates
  {
    var all := steps + more;
    if more == [] {
      assert all == steps;
    } else {
      assert all[..|all| - 1] == steps + more[..|more| - 1];
      var before := Run(room, steps + more[..|more| - 1]);
      assert forall i :: 0 <= i < |before.updates| ==> before.updates[i] == Run(room, all).updates[i];
      SilentBatchStalls(room, steps, more[..|more| - 1]);
      var w := Run(room, steps);
      SameBatch(w.updates, before.updates, w.poller.offset);
      NothingToTake(w.poller, Batch(w.updates, w.poller.offset));
    }
  }

  lemma {:induction false} SameBelow(updates: seq<Update>, longer: seq<Update>, offset: Option<int>)
    requires updates <= longer && Below(updates, offset) < |updates|
    ensures Below(longer, offset) == Below(updates, offset)
  {
    if offset.Some? && updates[0].id < offset.value {
      SameBelow(updates[1..], longer[1..], offset);
    }
  }

  lemma SameBatch(updates: seq<Update>, longer: seq<Update>, offset: Option<int>)
    requires updates <= longer && |Batch(updates, offset)| == LIMIT
    ensures Batch(longer, offset) == Batch(updates, offset)
  {
    SameBelow(updates, longer, offset);
  }

  /** Whatever happens from here on, nothing more is forwarded. */
  ghost predicate Stalled(room: nat, steps: seq<Step>) {
    forall more :: Increasing(Run(room, steps + more).updates) ==>
                     Run(room, steps + more).poller.forwarded == Run(room, steps).poller.forwarded
  }

  lemma OneMoreStep(room: nat, steps: seq<Step>, step: Step)
    ensures Run(room, steps + [step]) == Next(Run(room, steps), step)
  {
    assert (steps + [step])[..|steps|] == steps;
  }

  lemma {:induction false} BelowPush(updates: seq<Update>, u: Update, offset: Option<int>)
    requires offset.Some? ==> u.id >= offset.value
    ensures Below(updates + [u], offset) == Below(updates, offset)
  {
    if updates != [] && offset.Some? && updates[0].id < offset.value {
      assert (updates + [u])[1..] == updates[1..] + [u];
      BelowPush(updates[1..], u, offset);
    }
  }

  /** A new message that fits into the batch is in it. */
  lemma NewMessageIsFetched(updates: seq<Update>, u: Update, offset: Option<int>)
    requires |Batch(updates, offset)| < LIMIT && u.message.Some? && (offset.Some? ==> u.id >= offset.value)
    ensures Bearing(Batch(updates + [u], offset)) != []
  {
    BelowPush(updates, u, offset);
    var s := Below(updates, offset);
    assert (updates + [u])[s..] == updates[s..] + [u];
    BearingConcat(updates[s..], [u]);
  }

  /** The next message to arrive. */
  lemma NewMessage(updates: seq<Update>, offset: Option<int>) returns (u: Update)
    requires Increasing(updates) && OffsetKnown(updates, offset)
    ensures u.message.Some? && Increasing(updates + [u]) && (offset.Some? ==> u.id >= offset.value)
  {
    u := Update(if updates == [] then 0 else updates[|updates| - 1].id + 1, Some(""));
    if offset.Some? {
      var k :| 0 <= k < |updates| && updates[k].id + 1 == offset.value;
    }
  }

  /** One message arrives and is fetched, unless the batch is full without any. */
  lemma Unstalls(room: nat, steps: seq<Step>) returns (more: seq<Step>)
    requires var w := Run(room, steps);
             Increasing(w.updates) && !w.poller.stopped && w.poller.room > 0
             && (|Batch(w.updates, w.poller.offset)| < LIMIT || Bearing(Batch(w.updates, w.poller.offset)) != [])
    ensures Increasing(Run(room, steps + more).updates)
    ensures Run(room, steps + more).poller.forwarded != Run(room, steps).poller.forwarded
  {
    var w := Run(room, steps);
    if Bearing(Batch(w.updates, w.poller.offset)) != [] {
      more := [Poll];
      OneMoreStep(room, steps, Poll);
      NothingToTake(w.poller, Batch(w.updates, w.poller.offset));
    } else {
      ForwardsExactly(room, steps);
      var u := NewMessage(w.updates, w.poller.offset);
      NewMessageIsFetched(w.updates, u, w.poller.offset);
      OneMoreStep(room, steps, Arrive([u]));
      OneMoreStep(room, steps + [Arrive([u])], Poll);
      NothingToTake(w.poller, Batch(w.updates + [u], w.poller.offset));
      more := [Arrive([u]), Poll];
      assert steps + more == steps + [Arrive([u])] + [Poll];
    }
  }

  /** The inbound channel takes no more messages. */
  predicate Closed(p: Poller) {
    p.stopped || p.room == 0
  }

  lemma {:induction false} ClosedTakesNothing(p: Poller, batch: seq<Update>)
    requires Closed(p)
    ensures Closed(TakeAll(p, batch)) && TakeAll(p, batch).forwarded == p.forwarded
  {
    if batch != [] {
      ClosedTakesNothing(p, batch[..|batch| - 1]);
    }
  }

  lemma {:induction false} ClosedStays(room: nat, steps: seq<Step>, more: seq<Step>)
    requires Closed(Run(room, steps).poller)
    ensures Closed(Run(room, steps + more).poller)
    ensures Run(room, steps + more).poller.forwarded == Run(room, steps).poller.forwarded
  {
    if more == [] {
      assert steps + more == steps;
    } else {
      var init := more[..|more| - 1];
      ClosedStays(room, steps, init);
      assert steps + more == steps + init + [more[|more| - 1]];
      OneMoreStep(room, steps + init, more[|more| - 1]);
      var before := Run(room, steps + init);
      ClosedTakesNothing(before.poller, Batch(before.updates, before.poller.offset));
    }
  }

  /** A poller is stalled for good exactly when its inbound channel is closed, or the batch it is due is
      full and brings no message. */
  lemma StalledIff(room: nat, steps: seq<Step>)
    requires Increasing(Run(room, steps).updates)
    ensures var w := Run(room, steps); var batch := Batch(w.updates, w.poller.offset);
            Stalled(room, steps) <==> Closed(w.poller) || (|batch| == 100 && Bearing(batch) == [])
  {
    var w := Run(room, steps);
    var batch := Batch(w.updates, w.poller.offset);
    if |batch| == LIMIT && Bearing(batch) == [] {
      forall more | Increasing(Run(room, steps + more).updates)
        ensures Run(room, steps + more).poller.forwarded == w.poller.forwarded
      {
        SilentBatchStalls(room, steps, more);
      }
    } else if Closed(w.poller) {
      forall more ensures Run(room, steps + more).poller.forwarded == w.poller.forwarded {
        ClosedStays(room, steps, more);
      }
    } else {
      var more := Unstalls(room, steps);
    }
  }
}
