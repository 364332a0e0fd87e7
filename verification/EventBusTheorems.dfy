/**
 What holds over every interleaving of the event bus's lock sections with receivers draining and
 going away: the bus as a whole does to each subscriber what a bus with that subscriber alone
 would, streams have no gaps, and a session is live exactly while its latest run is registered.
 */
module EventBusTheorems {
  import opened EventBus
  import opened Wrappers

  // ----- one subscriber on its own -----

  /** A subscriber's whole life as seen by itself. */
  datatype Solo = Absent | Attached(key: Key, chan: Chan) | Detached(chan: Chan)

  /** Nothing here mentions another subscriber or another session. */
  function SoloStep(s: SubId, solo: Solo, a: Action): Solo {
    match a
    case DoInsert(key, id) => if id == s && solo.Absent? then Attached(key, NEW_CHAN) else solo
    case DoPublish(key, e) =>
      if !solo.Attached? || solo.key != key then solo
      else if solo.chan.CanTake() then solo.(chan := solo.chan.Push(e))
      else Detached(solo.chan)
    case DoUnsubscribe(key, id) => if id == s && solo.Attached? && solo.key == key then Detached(solo.chan) else solo
    case DoReceive(id) => if id == s && !solo.Absent? then solo.(chan := Received(solo.chan)) else solo
    case DoDrop(id) => if id == s && !solo.Absent? then solo.(chan := Dropped(solo.chan)) else solo
    case _ => solo
  }

  function SoloRun(run: seq<Action>, s: SubId): Solo {
    if run == [] then Absent else SoloStep(s, SoloRun(run[..|run| - 1], s), run[|run| - 1])
  }

  ghost predicate Subscribed(bus: Bus, s: SubId, key: Key) {
    key in bus.sessions && s in bus.sessions[key].subscribers
  }

  /** The bus holds the subscriber in the state `solo`. */
  ghost predicate Agrees(bus: Bus, s: SubId, solo: Solo) {
    && (forall k :: Subscribed(bus, s, k) <==> solo.Attached? && k == solo.key)
    && (s in bus.channels <==> !solo.Absent?)
    && (s in bus.channels ==> bus.channels[s] == solo.chan)
  }

  lemma KeepAgrees(bus: Bus, s: SubId, solo: Solo, key: Key, e: Entry)
    requires key in bus.sessions && Agrees(bus, s, solo)
    requires s in e.subscribers <==> s in bus.sessions[key].subscribers
    ensures Agrees(Keep(bus, key, e), s, solo)
  {
    forall k ensures Subscribed(Keep(bus, key, e), s, k) <==> Subscribed(bus, s, k) {
    }
  }

  /** Writing back an entry without `s` detaches it. */
  lemma KeepDetaches(bus: Bus, s: SubId, key: Key, c: Chan, e: Entry)
    requires Agrees(bus, s, Attached(key, c)) && s !in e.subscribers
    ensures Agrees(Keep(bus, key, e), s, Detached(c))
  {
    forall k ensures !Subscribed(Keep(bus, key, e), s, k) {
      if k != key {
        assert !Subscribed(bus, s, k);
      }
    }
  }

  lemma ChannelsAgree(bus: Bus, s: SubId, solo: Solo, channels: map<SubId, Chan>, solo': Solo)
    requires Agrees(bus, s, solo) && (s in channels <==> s in bus.channels)
    requires solo' == if s in channels then solo.(chan := channels[s]) else solo
    ensures Agrees(bus.(channels := channels), s, solo')
  {
    forall k ensures Subscribed(bus.(channels := channels), s, k) <==> Subscribed(bus, s, k) {
    }
  }

  lemma PublishAgrees(bus: Bus, s: SubId, solo: Solo, key: Key, e: Event)
    requires Agrees(bus, s, solo)
    ensures Agrees(Publish(bus, key, e), s, SoloStep(s, solo, DoPublish(key, e)))
  {
    if key in bus.sessions {
      var entry := bus.sessions[key];
      var lagging, kept := Lagging(bus.channels, entry.subscribers), Delivered(bus.channels, entry.subscribers, e);
      var sent := bus.(channels := kept);
      var rest := entry.(subscribers := Without(entry.subscribers, lagging));
      assert Subscribed(bus, s, key) <==> s in entry.subscribers;
      var solo' := if s in kept then solo.(chan := kept[s]) else solo;
      ChannelsAgree(bus, s, solo, kept, solo');
      if s in lagging {
        assert solo' == Attached(key, solo.chan);
        KeepDetaches(sent, s, key, solo.chan, rest);
      } else if lagging != {} {
        KeepAgrees(sent, s, solo', key, rest);
      }
    } else {
      assert !Subscribed(bus, s, key);
    }
  }

  lemma InsertAgrees(parse: Parse, bus: Bus, s: SubId, solo: Solo, key: Key, id: SubId)
    requires Inv(parse, bus) && id in bus.pending && Agrees(bus, s, solo)
    ensures Agrees(InsertSub(parse, bus, key, id), s, SoloStep(s, solo, DoInsert(key, id)))
  {
    var bus' := InsertSub(parse, bus, key, id);
    forall k ensures Subscribed(bus', s, k) <==> Subscribed(bus, s, k) || (s == id && k == key) {
    }
  }

  lemma StepAgrees(parse: Parse, bus: Bus, s: SubId, solo: Solo, a: Action)
    requires Inv(parse, bus) && Legal(bus, a) && Agrees(bus, s, solo)
    ensures Agrees(Apply(parse, bus, a), s, SoloStep(s, solo, a))
  {
    match a {
      case DoRegister(key, runId) =>
        forall k ensures Subscribed(Apply(parse, bus, a), s, k) <==> Subscribed(bus, s, k) {
        }
      case DoEnd(key) =>
        if key in bus.sessions {
          KeepAgrees(bus, s, solo, key, bus.sessions[key].(runId := None));
        }
      case DoTakeId =>
        forall k ensures Subscribed(Apply(parse, bus, a), s, k) <==> Subscribed(bus, s, k) {
        }
      case DoInsert(key, id) => InsertAgrees(parse, bus, s, solo, key, id);
      case DoUnsubscribe(key, id) =>
        if key in bus.sessions {
          var e := bus.sessions[key].(subscribers := Without(bus.sessions[key].subscribers, {id}));
          assert Subscribed(bus, s, key) <==> s in bus.sessions[key].subscribers;
          if id == s && Subscribed(bus, s, key) {
            KeepDetaches(bus, s, key, solo.chan, e);
          } else {
            KeepAgrees(bus, s, solo, key, e);
          }
        } else {
          assert !Subscribed(bus, s, key);
        }
      case DoPublish(key, e) => PublishAgrees(bus, s, solo, key, e);
      case DoReceive(id) =>
        if id in bus.channels {
          ChannelsAgree(bus, s, solo, bus.channels[id := Received(bus.channels[id])], SoloStep(s, solo, a));
        }
      case DoDrop(id) =>
        if id in bus.channels {
          ChannelsAgree(bus, s, solo, bus.channels[id := Dropped(bus.channels[id])], SoloStep(s, solo, a));
        }
    }
  }

  /** In every run the bus treats each subscriber as if it were alone: no other subscriber, however
      slow, and no other session has any influence on its stream. */
  lemma {:induction false} BusRefinesSolo(parse: Parse, run: seq<Action>, s: SubId)
    requires LegalRun(parse, run)
    ensures Agrees(Run(parse, run), s, SoloRun(run, s))
  {
    if run != [] {
      var n := |run| - 1;
      PrefixLegal(parse, run, n);
      BusRefinesSolo(parse, run[..n], s);
      RunInv(parse, run[..n]);
      assert LegalAt(parse, run, n);
      StepAgrees(parse, Run(parse, run[..n]), s, SoloRun(run[..n], s), run[n]);
    }
  }

  // ----- staying registered -----

  /** The step ends the subscriber's registration: its own unsubscription, or a publish to its session when
      its receiver is gone or 512 events wait for it. */
  ghost predicate EndsRegistration(bus: Bus, s: SubId, key: Key, a: Action) {
    || a == DoUnsubscribe(key, s)
    || (a.DoPublish? && a.key == key && s in bus.channels && !(bus.channels[s].alive && |bus.channels[s].buffer| < 512))
  }

  /** In every run: a subscriber is registered after a step exactly when the step inserts it, or it was
      registered before and the step does not end that. A publish keeps it exactly when its receiver is alive
      and fewer than 512 events wait, and then it gets the event. */
  lemma RegisteredIff(parse: Parse, run: seq<Action>, a: Action, s: SubId, key: Key)
    requires LegalRun(parse, run) && Legal(Run(parse, run), a)
    ensures var bus, bus' := Run(parse, run), Apply(parse, Run(parse, run), a);
            && (Subscribed(bus', s, key) <==>
                a == DoInsert(key, s) || (Subscribed(bus, s, key) && !EndsRegistration(bus, s, key, a)))
            && (a.DoPublish? && a.key == key && Subscribed(bus, s, key) && Subscribed(bus', s, key) ==>
                s in bus.channels && s in bus'.channels
                && bus'.channels[s] == bus.channels[s].(buffer := bus.channels[s].buffer + [a.event]))
  {
    BusRefinesSolo(parse, run, s);
    RunInv(parse, run);
    StepAgrees(parse, Run(parse, run), s, SoloRun(run, s), a);
    PendingIsAbsent(Run(parse, run), s, SoloRun(run, s), a);
  }

  lemma PendingIsAbsent(bus: Bus, s: SubId, solo: Solo, a: Action)
    requires Agrees(bus, s, solo) && Legal(bus, a) && forall id :: id in bus.pending ==> id !in bus.channels
    ensures a.DoInsert? && a.id == s ==> solo.Absent?
  {
  }

  /** The receiver has gone away since the subscriber joined. */
  function ReceiverGone(run: seq<Action>, s: SubId): bool {
    run != [] &&
    var init, a := run[..|run| - 1], run[|run| - 1];
    ReceiverGone(init, s) || (JoinedKey(init, s).Some? && a == DoDrop(s))
  }

  /** Nothing but its own going away closes a receiver, and then what waited for it is lost. */
  lemma {:induction false} SoloAlive(run: seq<Action>, s: SubId)
    ensures SoloRun(run, s).Absent? <==> JoinedKey(run, s).None?
    ensures ReceiverGone(run, s) ==> JoinedKey(run, s).Some?
    ensures !SoloRun(run, s).Absent? ==> (SoloRun(run, s).chan.alive <==> !ReceiverGone(run, s))
  {
    if run != [] {
      SoloAlive(run[..|run| - 1], s);
    }
  }

  /** In every run the receiver of a subscriber is alive until it goes away itself; while it is, it takes the
      events that wait one by one, oldest first. */
  lemma AliveIff(parse: Parse, run: seq<Action>, s: SubId)
    requires LegalRun(parse, run)
    ensures var bus := Run(parse, run);
            && (s in bus.channels <==> JoinedKey(run, s).Some?)
            && (s in bus.channels ==> (bus.channels[s].alive <==> !ReceiverGone(run, s)))
            && (s in bus.channels && bus.channels[s].alive && bus.channels[s].buffer != [] ==>
                var c, after := bus.channels[s], Apply(parse, bus, DoReceive(s));
                s in after.channels && after.channels[s] == Chan(c.buffer[1..], c.received + [c.buffer[0]], true))
  {
    BusRefinesSolo(parse, run, s);
    SoloAlive(run, s);
  }

  // ----- no gaps -----

  /** The session the subscriber joined. */
  function JoinedKey(run: seq<Action>, s: SubId): Option<Key> {
    if run == [] then None
    else
      var before, a := JoinedKey(run[..|run| - 1], s), run[|run| - 1];
      if before.None? && a.DoInsert? && a.id == s then Some(a.key) else before
  }

  /** All events published to that session since it joined. */
  function Due(run: seq<Action>, s: SubId): seq<Event> {
    if run == [] then []
    else
      var init, a := run[..|run| - 1], run[|run| - 1];
      Due(init, s) + if a.DoPublish? && JoinedKey(init, s) == Some(a.key) then [a.event] else []
  }

  ghost predicate Prefix(a: seq<Event>, b: seq<Event>) {
    a <= b
  }

  /** How the subscriber's channel stands to the events it is due. */
  ghost predicate StreamOk(run: seq<Action>, s: SubId, solo: Solo) {
    match solo
    case Absent => JoinedKey(run, s) == None && Due(run, s) == []
    case Attached(key, c) =>
      && JoinedKey(run, s) == Some(key) && |c.buffer| <= CAPACITY && Prefix(c.received, Due(run, s))
      && (c.alive ==> c.received + c.buffer == Due(run, s)) && (!c.alive ==> c.buffer == [])
    case Detached(c) =>
      && JoinedKey(run, s).Some? && |c.buffer| <= CAPACITY && Prefix(c.received + c.buffer, Due(run, s))
  }

  lemma {:induction false} SoloStream(run: seq<Action>, s: SubId)
    ensures StreamOk(run, s, SoloRun(run, s))
  {
    if run != [] {
      var init, a := run[..|run| - 1], run[|run| - 1];
      SoloStream(init, s);
      var solo := SoloRun(init, s);
      if a.DoReceive? && a.id == s && !solo.Absent? && solo.chan.alive && solo.chan.buffer != [] {
        var c := solo.chan;
        assert c.received + [c.buffer[0]] + c.buffer[1..] == c.received + c.buffer;
      }
      if solo.Attached? && a.DoPublish? && solo.chan.alive {
        assert solo.chan.received + (solo.chan.buffer + [a.event]) == solo.chan.received + solo.chan.buffer + [a.event];
      }
    }
  }

  /** Streams have no gaps: while a subscriber is registered and its receiver alive, what it received
      plus its buffer is everything published to its session since it joined; what it received is
      always a prefix of that, also after eviction or unsubscription, and the buffer is bounded. */
  lemma NoGaps(parse: Parse, run: seq<Action>, s: SubId, key: Key)
    requires LegalRun(parse, run) && s in Run(parse, run).channels
    ensures var bus := Run(parse, run); var c := bus.channels[s];
            && (Subscribed(bus, s, key) ==> JoinedKey(run, s) == Some(key))
            && (Subscribed(bus, s, key) && c.alive ==> c.received + c.buffer == Due(run, s))
            && Prefix(c.received, Due(run, s)) && (c.alive ==> Prefix(c.received + c.buffer, Due(run, s)))
            && |c.buffer| <= CAPACITY
  {
    BusRefinesSolo(parse, run, s);
    SoloStream(run, s);
  }

  /** Once a subscriber is detached its stream is fixed: later steps can only move events from its
      buffer to what it received, or lose the buffer with the receiver. */
  lemma {:induction false} DetachedIsFixed(run: seq<Action>, more: seq<Action>, s: SubId)
    requires SoloRun(run, s).Detached?
    ensures var solo, solo' := SoloRun(run, s), SoloRun(run + more, s);
            && solo'.Detached?
            && (solo'.chan.alive ==> solo.chan.alive && solo'.chan.received + solo'.chan.buffer == solo.chan.received + solo.chan.buffer)
            && Prefix(solo'.chan.received + solo'.chan.buffer, solo.chan.received + solo.chan.buffer)
  {
    var all := run + more;
    if more == [] {
      assert all == run;
    } else {
      assert all[..|all| - 1] == run + more[..|more| - 1];
      DetachedIsFixed(run, more[..|more| - 1], s);
      var c := SoloRun(run + more[..|more| - 1], s).chan;
      if c.alive && c.buffer != [] {
        assert c.received + [c.buffer[0]] + c.buffer[1..] == c.received + c.buffer;
      }
      assert c.received + [] == c.received;
    }
  }

  // ----- ids -----

  lemma ApplyKeepsChannels(parse: Parse, bus: Bus, a: Action)
    ensures bus.channels.Keys <= Apply(parse, bus, a).channels.Keys
  {
  }

  lemma {:induction false} ChannelsStay(parse: Parse, run: seq<Action>, n: nat, id: SubId)
    requires n <= |run| && id in Run(parse, run[..n]).channels
    ensures id in Run(parse, run).channels
    decreases |run|
  {
    if n < |run| {
      assert run[..|run| - 1][..n] == run[..n];
      ChannelsStay(parse, run[..|run| - 1], n, id);
      ApplyKeepsChannels(parse, Run(parse, run[..|run| - 1]), run[|run| - 1]);
    } else {
      assert run[..n] == run;
    }
  }

  /** No subscription id is inserted twice, in any session. */
  lemma IdsNeverReused(parse: Parse, run: seq<Action>, i: nat, j: nat)
    requires LegalRun(parse, run) && i < j < |run| && run[i].DoInsert? && run[j].DoInsert?
    ensures run[i].id != run[j].id
  {
    var upTo := run[..i + 1];
    assert upTo[..i] == run[..i];
    assert run[i].id in Run(parse, upTo).channels;
    assert run[..j][..i + 1] == upTo;
    ChannelsStay(parse, run[..j], i + 1, run[i].id);
    PrefixLegal(parse, run, j);
    RunInv(parse, run[..j]);
    assert LegalAt(parse, run, j);
    assert run[j].id in Run(parse, run[..j]).pending;
  }

  // ----- live sessions -----

  /** The run id of the latest `register_run` of the session, unless an `end_run` came after it. */
  function LatestTurn(run: seq<Action>, key: Key): Option<string> {
    if run == [] then None
    else
      var a := run[|run| - 1];
      if a.DoRegister? && a.key == key then Some(a.runId)
      else if a.DoEnd? && a.key == key then None
      else LatestTurn(run[..|run| - 1], key)
  }

  function TurnOf(bus: Bus, key: Key): Option<string> {
    if key in bus.sessions then bus.sessions[key].runId else None
  }

  /** A session is listed live, with that run id, exactly when the latest of its `register_run` and
      `end_run` calls was that `register_run`; garbage collection never loses a running turn. */
  lemma {:induction false} LiveIff(parse: Parse, run: seq<Action>, key: Key)
    ensures TurnOf(Run(parse, run), key) == LatestTurn(run, key)
  {
    if run != [] {
      LiveIff(parse, run[..|run| - 1], key);
    }
  }
}
