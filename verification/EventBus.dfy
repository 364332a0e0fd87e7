/**
 The event bus that fans out session events to subscribers. Every lock section is one atomic
 step; `subscribe` is two of them, one that takes an id and one that inserts. A subscriber's
 bounded channel is a buffer, what its receiver has drained, and whether the receiver is alive.
 */
module EventBus {
  import opened Wrappers

  type Key = string
  type SubId = nat
  type Event = string

  const CAPACITY := 512

  datatype Parts = Parts(agentId: string, peerId: string)

  /** Session-key parsing is a fixed function of the key. */
  type Parse = Key -> Option<Parts>

  datatype Chan = Chan(buffer: seq<Event>, received: seq<Event>, alive: bool) {
    predicate CanTake() {
      alive && |buffer| < CAPACITY
    }

    function Push(e: Event): Chan {
      this.(buffer := buffer + [e])
    }
  }

  const NEW_CHAN := Chan([], [], true)

  datatype Entry = Entry(agentId: string, peerId: string, runId: Option<string>, subscribers: seq<SubId>)

  /** `pending` holds the ids that `subscribe` calls have taken but not yet inserted. */
  datatype Bus = Bus(sessions: map<Key, Entry>, nextSubId: nat, pending: set<SubId>, channels: map<SubId, Chan>)

  const EMPTY_BUS := Bus(map[], 0, {}, map[])

  // ----- lock sections -----

  function AgentOf(parse: Parse, key: Key): string {
    if parse(key).Some? then parse(key).value.agentId else ""
  }

  function PeerOf(parse: Parse, key: Key): string {
    if parse(key).Some? then parse(key).value.peerId else ""
  }

  /** The entry to work on: the existing one, with empty ids filled in, or a new idle one. */
  function EntryFor(parse: Parse, bus: Bus, key: Key): Entry {
    if key !in bus.sessions then Entry(AgentOf(parse, key), PeerOf(parse, key), None, [])
    else
      var e := bus.sessions[key];
      if parse(key).None? then e
      else e.(agentId := if e.agentId == "" then parse(key).value.agentId else e.agentId,
              peerId := if e.peerId == "" then parse(key).value.peerId else e.peerId)
  }

  function RegisterRun(parse: Parse, bus: Bus, key: Key, runId: string): Bus {
    bus.(sessions := bus.sessions[key := EntryFor(parse, bus, key).(runId := Some(runId))])
  }

  /** Write the entry back, or drop it once it has neither a run nor a subscriber. */
  function Keep(bus: Bus, key: Key, e: Entry): Bus {
    if e.runId.None? && e.subscribers == [] then bus.(sessions := bus.sessions - {key})
    else bus.(sessions := bus.sessions[key := e])
  }

  function EndRun(bus: Bus, key: Key): Bus {
    if key !in bus.sessions then bus else Keep(bus, key, bus.sessions[key].(runId := None))
  }

  function TakeId(bus: Bus): Bus {
    bus.(nextSubId := bus.nextSubId + 1, pending := bus.pending + {bus.nextSubId + 1})
  }

  function InsertSub(parse: Parse, bus: Bus, key: Key, id: SubId): Bus {
    var e := EntryFor(parse, bus, key);
    bus.(sessions := bus.sessions[key := e.(subscribers := e.subscribers + [id])],
         pending := bus.pending - {id},
         channels := bus.channels[id := NEW_CHAN])
  }

  function Without(ids: seq<SubId>, gone: set<SubId>): (r: seq<SubId>)
    ensures forall x :: x in r <==> x in ids && x !in gone
  {
    if ids == [] then []
    else
      var init, x := ids[..|ids| - 1], ids[|ids| - 1];
      Without(init, gone) + if x in gone then [] else [x]
  }

  function Unsubscribe(bus: Bus, key: Key, id: SubId): Bus {
    if key !in bus.sessions then bus
    else
      var e := bus.sessions[key];
      Keep(bus, key, e.(subscribers := Without(e.subscribers, {id})))
  }

  /** The subscribers whose channel is full or closed. */
  function Lagging(channels: map<SubId, Chan>, ids: seq<SubId>): set<SubId> {
    set id | id in ids && (id !in channels || !channels[id].CanTake())
  }

  function Delivered(channels: map<SubId, Chan>, ids: seq<SubId>, e: Event): map<SubId, Chan> {
    map id | id in channels :: if id in ids && channels[id].CanTake() then channels[id].Push(e) else channels[id]
  }

  function Publish(bus: Bus, key: Key, e: Event): Bus {
    if key !in bus.sessions then bus
    else
      var entry := bus.sessions[key];
      var lagging := Lagging(bus.channels, entry.subscribers);
      var sent := bus.(channels := Delivered(bus.channels, entry.subscribers, e));
      if lagging == {} then sent
      else Keep(sent, key, entry.(subscribers := Without(entry.subscribers, lagging)))
  }

  // ----- receivers -----

  /** The receiver drains one event, if it is alive and there is one. */
  function Received(c: Chan): Chan {
    if c.alive && c.buffer != [] then Chan(c.buffer[1..], c.received + [c.buffer[0]], true) else c
  }

  function Dropped(c: Chan): Chan {
    Chan([], c.received, false)
  }

  // ----- steps and runs -----

  datatype Action =
    | DoRegister(key: Key, runId: string)
    | DoEnd(key: Key)
    | DoTakeId
    | DoInsert(key: Key, id: SubId)
    | DoUnsubscribe(key: Key, id: SubId)
    | DoPublish(key: Key, event: Event)
    | DoReceive(id: SubId)
    | DoDrop(id: SubId)

  /** Only an id taken before can be inserted; everything else may happen at any time. */
  predicate Legal(bus: Bus, a: Action) {
    a.DoInsert? ==> a.id in bus.pending
  }

  function Apply(parse: Parse, bus: Bus, a: Action): Bus {
    match a
    case DoRegister(key, runId) => RegisterRun(parse, bus, key, runId)
    case DoEnd(key) => EndRun(bus, key)
    case DoTakeId => TakeId(bus)
    case DoInsert(key, id) => InsertSub(parse, bus, key, id)
    case DoUnsubscribe(key, id) => Unsubscribe(bus, key, id)
    case DoPublish(key, e) => Publish(bus, key, e)
    case DoReceive(id) =>
      if id in bus.channels then bus.(channels := bus.channels[id := Received(bus.channels[id])]) else bus
    case DoDrop(id) =>
      if id in bus.channels then bus.(channels := bus.channels[id := Dropped(bus.channels[id])]) else bus
  }

  function Run(parse: Parse, run: seq<Action>): Bus {
    if run == [] then EMPTY_BUS else Apply(parse, Run(parse, run[..|run| - 1]), run[|run| - 1])
  }

  ghost predicate LegalAt(parse: Parse, run: seq<Action>, i: nat)
    requires i < |run|
  {
    Legal(Run(parse, run[..i]), run[i])
  }

  ghost predicate LegalRun(parse: Parse, run: seq<Action>) {
    forall i :: 0 <= i < |run| ==> LegalAt(parse, run, i)
  }

  // ----- the registry invariant -----

  ghost predicate NoRepeats(ids: seq<SubId>) {
    forall i, j :: 0 <= i < j < |ids| ==> ids[i] != ids[j]
  }

  ghost predicate EntryOk(parse: Parse, bus: Bus, key: Key, e: Entry) {
    && (e.runId.Some? || e.subscribers != [])
    && e.agentId == (match parse(key) case None => "" case Some(parts) => parts.agentId)
    && e.peerId == (match parse(key) case None => "" case Some(parts) => parts.peerId)
    && NoRepeats(e.subscribers)
    && forall id :: id in e.subscribers ==> id in bus.channels
  }

  /** Every entry has a run or a subscriber and carries the ids of its key; no subscriber is in two
      places; ids handed out are never above the counter, and those still pending have no channel. */
  ghost predicate Inv(parse: Parse, bus: Bus) {
    && (forall k :: k in bus.sessions ==> EntryOk(parse, bus, k, bus.sessions[k]))
    && (forall k, k', id ::
          (k in bus.sessions && k' in bus.sessions
           && id in bus.sessions[k].subscribers && id in bus.sessions[k'].subscribers) ==> k == k')
    && (forall id :: id in bus.pending ==> id !in bus.channels)
    && (forall id :: id in bus.pending || id in bus.channels ==> 1 <= id <= bus.nextSubId)
  }

  lemma {:induction false} WithoutNoRepeats(ids: seq<SubId>, gone: set<SubId>)
    requires NoRepeats(ids)
    ensures NoRepeats(Without(ids, gone))
  {
    if ids != [] {
      var init, x := ids[..|ids| - 1], ids[|ids| - 1];
      WithoutNoRepeats(init, gone);
      assert x !in init;
    }
  }

  /** The steps that replace one entry by one with no more subscribers. */
  lemma KeepInv(parse: Parse, bus: Bus, key: Key, e: Entry)
    requires Inv(parse, bus) && key in bus.sessions
    requires e.agentId == bus.sessions[key].agentId && e.peerId == bus.sessions[key].peerId
    requires NoRepeats(e.subscribers) && forall id :: id in e.subscribers ==> id in bus.sessions[key].subscribers
    ensures Inv(parse, Keep(bus, key, e))
  {
  }

  lemma RegisterInv(parse: Parse, bus: Bus, key: Key, runId: string)
    requires Inv(parse, bus)
    ensures Inv(parse, RegisterRun(parse, bus, key, runId))
  {
  }

  lemma InsertInv(parse: Parse, bus: Bus, key: Key, id: SubId)
    requires Inv(parse, bus) && id in bus.pending
    ensures Inv(parse, InsertSub(parse, bus, key, id))
  {
    var bus' := InsertSub(parse, bus, key, id);
    forall k | k in bus.sessions ensures id !in bus.sessions[k].subscribers {
      assert EntryOk(parse, bus, k, bus.sessions[k]);
    }
    forall k | k in bus'.sessions ensures EntryOk(parse, bus', k, bus'.sessions[k]) {
      if k in bus.sessions {
        assert EntryOk(parse, bus, k, bus.sessions[k]);
      }
    }
  }

  /** Every atomic step keeps the registry invariant, in every interleaving. */
  lemma ApplyInv(parse: Parse, bus: Bus, a: Action)
    requires Inv(parse, bus) && Legal(bus, a)
    ensures Inv(parse, Apply(parse, bus, a))
  {
    match a {
      case DoRegister(key, runId) => RegisterInv(parse, bus, key, runId);
      case DoEnd(key) =>
        if key in bus.sessions {
          assert EntryOk(parse, bus, key, bus.sessions[key]);
          KeepInv(parse, bus, key, bus.sessions[key].(runId := None));
        }
      case DoTakeId =>
      case DoInsert(key, id) => InsertInv(parse, bus, key, id);
      case DoUnsubscribe(key, id) =>
        if key in bus.sessions {
          var e := bus.sessions[key];
          assert EntryOk(parse, bus, key, e);
          WithoutNoRepeats(e.subscribers, {id});
          KeepInv(parse, bus, key, e.(subscribers := Without(e.subscribers, {id})));
        }
      case DoPublish(key, ev) =>
        PublishInv(parse, bus, key, ev);
      case DoReceive(id) =>
        if id in bus.channels {
        }
      case DoDrop(id) =>
        if id in bus.channels {
        }
    }
  }

  lemma PublishInv(parse: Parse, bus: Bus, key: Key, ev: Event)
    requires Inv(parse, bus)
    ensures Inv(parse, Publish(bus, key, ev))
  {
    if key in bus.sessions {
      var e := bus.sessions[key];
      assert EntryOk(parse, bus, key, e);
      var lagging := Lagging(bus.channels, e.subscribers);
      var channels := Delivered(bus.channels, e.subscribers, ev);
      WithoutNoRepeats(e.subscribers, lagging);
      KeepInv(parse, bus.(channels := channels), key, e.(subscribers := Without(e.subscribers, lagging)));
    }
  }

  lemma {:induction false} RunInv(parse: Parse, run: seq<Action>)
    requires LegalRun(parse, run)
    ensures Inv(parse, Run(parse, run))
  {
    if run != [] {
      var n := |run| - 1;
      PrefixLegal(parse, run, n);
      RunInv(parse, run[..n]);
      assert LegalAt(parse, run, n);
      ApplyInv(parse, Run(parse, run[..n]), run[n]);
    }
  }

  lemma PrefixLegal(parse: Parse, run: seq<Action>, n: nat)
    requires LegalRun(parse, run) && n <= |run|
    ensures LegalRun(parse, run[..n])
  {
    forall i | 0 <= i < n ensures LegalAt(parse, run[..n], i) {
      assert LegalAt(parse, run, i) && run[..n][..i] == run[..i];
    }
  }

  // ----- the methods -----

  class SharedBus {
    const parse: Parse
    var sessions: map<Key, Entry>
    var nextSubId: nat
    var pending: set<SubId>
    var channels: map<SubId, Chan>

    ghost function Value(): Bus
      reads this
    {
      Bus(sessions, nextSubId, pending, channels)
    }

    ghost predicate Valid()
      reads this
    {
      Inv(parse, Value())
    }

    constructor (parse: Parse)
      ensures Value() == EMPTY_BUS && Valid()
    {
      this.parse := parse;
      sessions, nextSubId, pending, channels := map[], 0, {}, map[];
    }

    method Register(key: Key, runId: string)
      requires Valid()
      modifies this
      ensures Valid() && Value() == RegisterRun(parse, old(Value()), key, runId)
    {
      ApplyInv(parse, Value(), DoRegister(key, runId));
      var parts := parse(key);
      var entry := if key in sessions then sessions[key]
                   else Entry(AgentOf(parse, key), PeerOf(parse, key), None, []);
      if parts.Some? {
        if entry.agentId == "" {
          entry := entry.(agentId := parts.value.agentId);
        }
        if entry.peerId == "" {
          entry := entry.(peerId := parts.value.peerId);
        }
      }
      sessions := sessions[key := entry.(runId := Some(runId))];
    }

    method End(key: Key)
      requires Valid()
      modifies this
      ensures Valid() && Value() == EndRun(old(Value()), key)
    {
      ApplyInv(parse, Value(), DoEnd(key));
      if key !in sessions {
        return;
      }
      var entry := sessions[key].(runId := None);
      sessions := if entry.subscribers == [] then sessions - {key} else sessions[key := entry];
    }

    /** First lock of `subscribe`: the id is new, across all sessions. */
    method Take() returns (id: SubId)
      requires Valid()
      modifies this
      ensures Valid() && Value() == TakeId(old(Value()))
      ensures id in pending && id !in old(pending) && id !in channels
    {
      ApplyInv(parse, Value(), DoTakeId);
      nextSubId := nextSubId + 1;
      id := nextSubId;
      pending := pending + {id};
    }

    /** Second lock of `subscribe`: join the session and learn the run in progress. */
    method Insert(key: Key, id: SubId) returns (runId: Option<string>)
      requires Valid() && id in pending
      modifies this
      ensures Valid() && Value() == InsertSub(parse, old(Value()), key, id)
      ensures runId == if key in old(sessions) then old(sessions)[key].runId else None
      ensures channels == old(channels)[id := Chan([], [], true)]
    {
      ApplyInv(parse, Value(), DoInsert(key, id));
      var entry := EntryFor(parse, Bus(sessions, nextSubId, pending, channels), key);
      runId := entry.runId;
      sessions := sessions[key := entry.(subscribers := entry.subscribers + [id])];
      pending := pending - {id};
      channels := channels[id := NEW_CHAN];
    }

    method Leave(key: Key, id: SubId)
      requires Valid()
      modifies this
      ensures Valid() && Value() == Unsubscribe(old(Value()), key, id)
    {
      ApplyInv(parse, Value(), DoUnsubscribe(key, id));
      if key !in sessions {
        return;
      }
      var entry := sessions[key];
      entry := entry.(subscribers := Without(entry.subscribers, {id}));
      sessions := if entry.runId.None? && entry.subscribers == [] then sessions - {key} else sessions[key := entry];
    }

    /** Offer the event to every subscriber in turn and evict those that cannot take it. */
    method PublishEvent(key: Key, e: Event)
      requires Valid()
      modifies this
      ensures Valid() && Value() == Publish(old(Value()), key, e)
    {
      PublishInv(parse, Value(), key, e);
      if key !in sessions {
        return;
      }
      assert EntryOk(parse, Value(), key, sessions[key]);
      var entry := sessions[key];
      var now, dropped := SendToAll(channels, entry.subscribers, e);
      channels := now;
      if dropped == {} {
        return;
      }
      entry := entry.(subscribers := Without(entry.subscribers, dropped));
      sessions := if entry.runId.None? && entry.subscribers == [] then sessions - {key} else sessions[key := entry];
    }
  }

  /** The `try_send` loop of `publish`. */
  method SendToAll(channels: map<SubId, Chan>, ids: seq<SubId>, e: Event) returns (now: map<SubId, Chan>, dropped: set<SubId>)
    requires NoRepeats(ids) && forall id :: id in ids ==> id in channels
    ensures now == Delivered(channels, ids, e) && dropped == Lagging(channels, ids)
    ensures forall id :: id in ids ==>
              (id in dropped <==> !(channels[id].alive && |channels[id].buffer| < 512))
              && now[id] == if id in dropped then channels[id] else channels[id].(buffer := channels[id].buffer + [e])
  {
    now, dropped := channels, {};
    for i := 0 to |ids|
      invariant now.Keys == channels.Keys
      invariant forall id :: id in channels ==> now[id] == if id in ids[..i] && channels[id].CanTake() then channels[id].Push(e) else channels[id]
      invariant dropped == Lagging(channels, ids[..i])
    {
      var id := ids[i];
      assert ids[..i + 1] == ids[..i] + [id];
      assert id !in ids[..i];
      if now[id].CanTake() {
        now := now[id := now[id].Push(e)];
      } else {
        dropped := dropped + {id};
      }
    }
    assert ids[..|ids|] == ids;
  }
}
