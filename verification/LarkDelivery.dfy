/**
 At-least-once delivery on the Lark channel: the in-memory deduper with its pruned map, the guard
 against stale redeliveries, and which DATA frames are forwarded and acknowledged. The deduper
 lives outside the connection, so a run spans reconnects. Payload parsing, the two clocks and
 whether the inbound channel is still open are inputs.
 */
module LarkDelivery {
  import opened Bits
  import opened LarkCodec
  import opened Varint
  import opened Wrappers

  type Id = string

  // ----- the deduper -----

  /** One call of `check`. */
  datatype Check = Check(id: Id, at: int)

  /** No earlier check of this id lies within the time to live. */
  predicate Fresh(log: seq<Check>, ttl: nat, id: Id, now: int) {
    forall c :: c in log && c.id == id ==> c.at <= now - ttl
  }

  /** No check is later than `latest`; the pruned map holds times of real checks, and for every check
      still within the time to live of `latest` a time at least as late. */
  ghost predicate Tracks(seen: map<Id, int>, log: seq<Check>, ttl: nat, latest: int) {
    && (forall id :: id in seen ==> Check(id, seen[id]) in log)
    && (forall c :: c in log ==> c.at <= latest)
    && (forall c :: c in log && c.at > latest - ttl ==> c.id in seen && c.at <= seen[c.id])
  }

  function Pruned(seen: map<Id, int>, deadline: int): map<Id, int> {
    map id | id in seen && seen[id] > deadline :: seen[id]
  }

  /** The map after a check. */
  function Checked(seen: map<Id, int>, ttl: nat, id: Id, now: int): map<Id, int> {
    Pruned(seen, now - ttl)[id := now]
  }

  /** The pruned map answers as the full log of checks would. */
  lemma PrunedMapAnswers(seen: map<Id, int>, log: seq<Check>, ttl: nat, latest: int, id: Id, now: int)
    requires Tracks(seen, log, ttl, latest) && latest <= now
    ensures id !in Pruned(seen, now - ttl) <==> Fresh(log, ttl, id, now)
  {
  }

  lemma CheckKeepsTracking(seen: map<Id, int>, log: seq<Check>, ttl: nat, latest: int, id: Id, now: int)
    requires Tracks(seen, log, ttl, latest) && latest <= now
    ensures Tracks(Checked(seen, ttl, id, now), log + [Check(id, now)], ttl, now)
  {
  }

  class EventDeduper {
    var seen: map<Id, int>
    const ttl: nat

    constructor (ttl: nat)
      ensures this.ttl == ttl && seen == map[]
    {
      this.ttl := ttl;
      seen := map[];
    }

    /** Prune, record, and answer from what was left of the id. */
    method CheckId(id: Id, now: int) returns (isNew: bool)
      modifies this
      ensures seen == Checked(old(seen), ttl, id, now)
      ensures isNew <==> id !in Pruned(old(seen), now - ttl)
    {
      var deadline := now - ttl;
      seen := Pruned(seen, deadline);
      var prev := if id in seen then Some(seen[id]) else None;
      seen := seen[id := now];
      isNew := prev.None? || prev.value <= deadline;
    }
  }

  // ----- stale redeliveries -----

  const STALE_MS := 120_000

  const DEDUP_TTL_MS := 24 * 60 * 60 * 1000

  predicate AllDigits(s: string) {
    forall i :: 0 <= i < |s| ==> '0' <= s[i] <= '9'
  }

  function DecimalValue(s: string): nat
    requires AllDigits(s)
  {
    if s == [] then 0 else 10 * DecimalValue(s[..|s| - 1]) + (s[|s| - 1] as int - '0' as int)
  }

  /** `str::parse::<u64>`: an optional plus sign and decimal digits that fit. */
  function ParseU64(s: string): Option<u64> {
    var digits := if s != [] && s[0] == '+' then s[1..] else s;
    if digits != [] && AllDigits(digits) && DecimalValue(digits) < U64 then Some(DecimalValue(digits)) else None
  }

  /** A number as it is printed. */
  function Decimal(v: nat): string {
    if v < 10 then [('0' as int + v) as char] else Decimal(v / 10) + [('0' as int + v % 10) as char]
  }

  lemma {:induction false} DecimalDigits(v: nat)
    ensures Decimal(v) != [] && AllDigits(Decimal(v)) && DecimalValue(Decimal(v)) == v
  {
    if v < 10 {
      assert Decimal(v)[..0] == [];
    } else {
      DecimalDigits(v / 10);
      assert Decimal(v)[..|Decimal(v)| - 1] == Decimal(v / 10);
    }
  }

  /** Every 64-bit number that is printed parses to itself, also with a plus sign in front; what is empty or
      holds anything but digits after that does not parse, nor does a larger number. */
  lemma ParsesPrinted(v: nat)
    ensures ParseU64(Decimal(v)) == ParseU64("+" + Decimal(v)) == if v < U64 then Some(v) else None
    ensures ParseU64("") == ParseU64("+") == None
  {
    DecimalDigits(v);
    assert ("+" + Decimal(v))[1..] == Decimal(v) && "+"[1..] == "";
  }

  lemma ParseNeedsDigits(s: string)
    ensures ParseU64(s).Some? ==>
              var digits := if s != [] && s[0] == '+' then s[1..] else s;
              digits != [] && forall i :: 0 <= i < |digits| ==> '0' <= digits[i] <= '9'
  {
  }

  /** Older than the threshold by the wall clock; the subtraction saturates at zero. */
  predicate IsStale(timestamp: string, nowMs: u64) {
    match ParseU64(timestamp)
    case None => false
    case Some(created) => (if nowMs < created then 0 else nowMs - created) > STALE_MS
  }

  // ----- one DATA frame -----

  datatype Message = Message(id: Id, timestamp: string, content: string)

  /** Payload parsing, and the constant payload of an acknowledgement. */
  datatype Payloads = Payloads(
    cardAction: (seq<byte>, Text) -> Option<Message>,
    event: seq<byte> -> Option<Message>,
    ackPayload: seq<byte>)

  const TYPE_KEY: seq<byte> := [0x74, 0x79, 0x70, 0x65]
  const EVENT_TYPE: seq<byte> := [0x65, 0x76, 0x65, 0x6e, 0x74]
  const CARD_TYPE: seq<byte> := [0x63, 0x61, 0x72, 0x64]
  const GZIP: seq<byte> := [0x67, 0x7a, 0x69, 0x70]
  const BIZ_RT: seq<byte> := [0x62, 0x69, 0x7a, 0x5f, 0x72, 0x74]

  /** A frame that arrived, with what the clocks and the timer then said, whether the inbound channel was
      open, and whether the socket takes the acknowledgement. Any sequence of these is allowed; in the
      source a closed inbound channel stays closed. */
  datatype Delivery = Delivery(frame: Frame, wallMs: u64, mono: int, open: bool, elapsed: Text, ackSent: bool)

  function FrameType(headers: seq<Header>): Option<Text> {
    if headers == [] then None
    else if headers[0].key == TYPE_KEY then Some(headers[0].value)
    else FrameType(headers[1..])
  }

  /** What reaches the agent: card actions are not deduplicated, events are. */
  datatype Forward = CardAction(message: Message) | Event(message: Message)

  datatype Channel = Channel(seen: map<Id, int>, forwarded: seq<Forward>, acks: seq<Frame>)

  const EMPTY_CHANNEL := Channel(map[], [], [])

  function AckOf(frame: Frame, elapsed: Text, payload: seq<byte>): Frame {
    Frame(frame.seqid, frame.logid, frame.service, frame.method_, frame.headers + [Header(BIZ_RT, elapsed)], [], [], payload)
  }

  predicate IsData(frame: Frame) {
    FrameType(frame.headers) == Some(EVENT_TYPE) || FrameType(frame.headers) == Some(CARD_TYPE)
  }

  /** The card action the frame carries, if any. */
  function CardOf(p: Payloads, frame: Frame): Option<Message> {
    if IsData(frame) then p.cardAction(frame.payload, FrameType(frame.headers).value) else None
  }

  /** The event message that the frame puts to the guards, if any. */
  function EventOf(p: Payloads, frame: Frame): Option<Message> {
    if && FrameType(frame.headers) == Some(EVENT_TYPE) && CardOf(p, frame).None?
       && frame.payloadEncoding != GZIP
    then p.event(frame.payload) else None
  }

  /** The event is put to the deduper. */
  predicate IsChecked(p: Payloads, d: Delivery) {
    EventOf(p, d.frame).Some? && !IsStale(EventOf(p, d.frame).value.timestamp, d.wallMs)
  }

  /** What is to be sent to the inbound channel. */
  function ToForward(p: Payloads, ttl: nat, seen: map<Id, int>, d: Delivery): Option<Forward> {
    if CardOf(p, d.frame).Some? then Some(CardAction(CardOf(p, d.frame).value))
    else if IsChecked(p, d) && EventOf(p, d.frame).value.id !in Pruned(seen, d.mono - ttl) then
      Some(Event(EventOf(p, d.frame).value))
    else None
  }

  /** The channel once the deduper has been asked, if it is. */
  function AfterCheck(p: Payloads, ttl: nat, c: Channel, d: Delivery): Channel {
    if !IsChecked(p, d) then c
    else c.(seen := Checked(c.seen, ttl, EventOf(p, d.frame).value.id, d.mono))
  }

  /** Send on and acknowledge. A message that cannot be sent on is not acknowledged; one whose
      acknowledgement cannot be sent has been sent on all the same. */
  function Finish(p: Payloads, c: Channel, out: Option<Forward>, d: Delivery): Channel {
    if out.Some? && !d.open then c
    else c.(
      forwarded := c.forwarded + (if out.Some? then [out.value] else []),
      acks := c.acks + (if d.ackSent then [AckOf(d.frame, d.elapsed, p.ackPayload)] else []))
  }

  /** The channel after a DATA frame. */
  function Handle(p: Payloads, ttl: nat, c: Channel, d: Delivery): Channel {
    if !IsData(d.frame) then c else Finish(p, AfterCheck(p, ttl, c, d), ToForward(p, ttl, c.seen, d), d)
  }

  /** The frame is to be acknowledged: it is a DATA frame, and brings nothing or the channel is open. */
  predicate AckIsDue(p: Payloads, ttl: nat, seen: map<Id, int>, d: Delivery) {
    IsData(d.frame) && (d.open || ToForward(p, ttl, seen, d).None?)
  }

  class LarkChannel {
    const deduper: EventDeduper
    var forwarded: seq<Forward>
    var acks: seq<Frame>

    constructor (ttl: nat)
      ensures Value() == EMPTY_CHANNEL && deduper.ttl == ttl && fresh(deduper)
    {
      deduper := new EventDeduper(ttl);
      forwarded := [];
      acks := [];
    }

    ghost function Value(): Channel
      reads this, deduper
    {
      Channel(deduper.seen, forwarded, acks)
    }

    /** Put an event to the two guards; the result is the message to send on. */
    method Admit(m: Message, d: Delivery) returns (out: Option<Forward>)
      modifies deduper
      ensures IsStale(m.timestamp, d.wallMs) ==> out == None && unchanged(deduper)
      ensures !IsStale(m.timestamp, d.wallMs) ==>
                && deduper.seen == Checked(old(deduper.seen), deduper.ttl, m.id, d.mono)
                && out == if m.id !in Pruned(old(deduper.seen), d.mono - deduper.ttl) then Some(Event(m)) else None
    {
      if IsStale(m.timestamp, d.wallMs) {
        return None;
      }
      var isNew := deduper.CheckId(m.id, d.mono);
      return if isNew then Some(Event(m)) else None;
    }

    /** What an `event` or `card` frame brings to send on. */
    method Decide(p: Payloads, d: Delivery, frameType: Option<Text>) returns (out: Option<Forward>)
      requires frameType == FrameType(d.frame.headers) && IsData(d.frame)
      modifies deduper
      ensures out == ToForward(p, deduper.ttl, old(deduper.seen), d)
      ensures deduper.seen == AfterCheck(p, deduper.ttl, old(Value()), d).seen
    {
      var action := p.cardAction(d.frame.payload, frameType.value);
      if action.Some? {
        return Some(CardAction(action.value));
      }
      if frameType == Some(EVENT_TYPE) && d.frame.payloadEncoding != GZIP {
        var event := p.event(d.frame.payload);
        if event.Some? {
          out := Admit(event.value, d);
          return;
        }
      }
      return None;
    }

    /** Find the frame type, decide, forward, acknowledge; tied to `Handle` for every frame. The handler
        fails, and with it the connection, exactly when an acknowledgement was due and not sent. */
    method HandleData(p: Payloads, d: Delivery) returns (ok: bool)
      modifies this, deduper
      ensures Value() == Handle(p, deduper.ttl, old(Value()), d)
      ensures ok <==> d.ackSent || !AckIsDue(p, deduper.ttl, old(deduper.seen), d)
    {
      var frameType := FindType(d.frame.headers);
      if frameType != Some(EVENT_TYPE) && frameType != Some(CARD_TYPE) {
        return true;
      }
      var out := Decide(p, d, frameType);
      if out.Some? {
        if !d.open {
          return true;
        }
        forwarded := forwarded + [out.value];
      }
      if d.ackSent {
        acks := acks + [AckOf(d.frame, d.elapsed, p.ackPayload)];
      }
      return d.ackSent;
    }
  }

  method FindType(headers: seq<Header>) returns (t: Option<Text>)
    ensures t == FrameType(headers)
  {
    assert headers[0..] == headers;
    for i := 0 to |headers|
      invariant FrameType(headers) == FrameType(headers[i..])
    {
      if headers[i].key == TYPE_KEY {
        return Some(headers[i].value);
      }
      assert headers[i..][1..] == headers[i + 1..];
    }
    return None;
  }

  function AsciiByte(c: char): byte {
    if c as int < 128 then c as int else 0
  }

  /** ASCII text as bytes. */
  function Ascii(s: string): seq<byte> {
    seq(|s|, i requires 0 <= i < |s| => AsciiByte(s[i]))
  }

  /** The first header with the key `type`. */
  ghost predicate TypeHeaderAt(headers: seq<Header>, k: nat) {
    k < |headers| && headers[k].key == Ascii("type") && forall j :: 0 <= j < k ==> headers[j].key != Ascii("type")
  }

  /** The frame type is the value of the first header with the key `type`. */
  lemma {:induction false} FrameTypeIs(headers: seq<Header>)
    ensures forall k: nat :: TypeHeaderAt(headers, k) ==> FrameType(headers) == Some(headers[k].value)
    ensures FrameType(headers).None? <==> forall j :: 0 <= j < |headers| ==> headers[j].key != Ascii("type")
  {
    assert TYPE_KEY == Ascii("type");
    if headers != [] {
      FrameTypeIs(headers[1..]);
      forall k: nat | TypeHeaderAt(headers, k) ensures FrameType(headers) == Some(headers[k].value) {
        if k > 0 {
          assert headers[0].key != TYPE_KEY;
          assert TypeHeaderAt(headers[1..], k - 1);
        }
      }
    }
  }

  // ----- whole runs -----

  function Run(p: Payloads, ttl: nat, ds: seq<Delivery>): Channel {
    if ds == [] then EMPTY_CHANNEL else Handle(p, ttl, Run(p, ttl, ds[..|ds| - 1]), ds[|ds| - 1])
  }

  /** Every check made in a run, never pruned. */
  function LogOf(p: Payloads, ds: seq<Delivery>): seq<Check> {
    if ds == [] then []
    else
      var d := ds[|ds| - 1];
      LogOf(p, ds[..|ds| - 1]) + if IsChecked(p, d) then [Check(EventOf(p, d.frame).value.id, d.mono)] else []
  }

  /** The monotonic clock starts at `start` and does not run backwards. */
  ghost predicate Monotonic(start: int, ds: seq<Delivery>) {
    && (forall i :: 0 <= i < |ds| ==> start <= ds[i].mono)
    && forall i, j :: 0 <= i < j < |ds| ==> ds[i].mono <= ds[j].mono
  }

  lemma NextTracks(p: Payloads, ttl: nat, c: Channel, log: seq<Check>, d: Delivery, latest: int) returns (latest': int)
    requires Tracks(c.seen, log, ttl, latest) && latest <= d.mono
    ensures latest' <= d.mono
    ensures var checks := if IsChecked(p, d) then [Check(EventOf(p, d.frame).value.id, d.mono)] else [];
            Tracks(Handle(p, ttl, c, d).seen, log + checks, ttl, latest')
  {
    if IsChecked(p, d) {
      CheckKeepsTracking(c.seen, log, ttl, latest, EventOf(p, d.frame).value.id, d.mono);
      latest' := d.mono;
    } else {
      assert log + [] == log;
      latest' := latest;
    }
  }

  /** In every reachable state the pruned map stands for the whole log of checks. */
  lemma {:induction false} RunTracks(p: Payloads, ttl: nat, start: int, ds: seq<Delivery>) returns (latest: int)
    requires Monotonic(start, ds)
    ensures Tracks(Run(p, ttl, ds).seen, LogOf(p, ds), ttl, latest)
    ensures latest <= if ds == [] then start else ds[|ds| - 1].mono
  {
    if ds == [] {
      latest := start;
    } else {
      var init, d := ds[..|ds| - 1], ds[|ds| - 1];
      latest := RunTracks(p, ttl, start, init);
      latest := NextTracks(p, ttl, Run(p, ttl, init), LogOf(p, init), d, latest);
    }
  }

  /** Delivery `i` of the run is an event and it is sent on. */
  predicate Forwards(p: Payloads, ttl: nat, ds: seq<Delivery>, i: nat)
    requires i < |ds|
  {
    && ds[i].open && ToForward(p, ttl, Run(p, ttl, ds[..i]).seen, ds[i]).Some?
    && ToForward(p, ttl, Run(p, ttl, ds[..i]).seen, ds[i]).value.Event?
  }

  /** An event is sent on exactly when the channel is open, it is not stale, and no check of its id in
      the whole run so far lies within the time to live: pruning the map loses nothing. */
  lemma ForwardsIff(p: Payloads, ttl: nat, start: int, ds: seq<Delivery>, i: nat)
    requires i < |ds| && Monotonic(start, ds)
    ensures Forwards(p, ttl, ds, i) <==>
            && ds[i].open && IsChecked(p, ds[i])
            && Fresh(LogOf(p, ds[..i]), ttl, EventOf(p, ds[i].frame).value.id, ds[i].mono)
  {
    var latest := RunTracks(p, ttl, start, ds[..i]);
    if IsChecked(p, ds[i]) {
      PrunedMapAnswers(Run(p, ttl, ds[..i]).seen, LogOf(p, ds[..i]), ttl, latest, EventOf(p, ds[i].frame).value.id, ds[i].mono);
    }
  }

  lemma {:induction false} CheckLogged(p: Payloads, ds: seq<Delivery>, i: nat)
    requires i < |ds| && IsChecked(p, ds[i])
    ensures Check(EventOf(p, ds[i].frame).value.id, ds[i].mono) in LogOf(p, ds)
  {
    if i < |ds| - 1 {
      CheckLogged(p, ds[..|ds| - 1], i);
    }
  }

  /** Two forwards of one message id are at least the time to live apart. */
  lemma ForwardsAreApart(p: Payloads, ttl: nat, start: int, ds: seq<Delivery>, i: nat, j: nat)
    requires i < j < |ds| && Monotonic(start, ds) && Forwards(p, ttl, ds, i) && Forwards(p, ttl, ds, j)
    requires EventOf(p, ds[i].frame).Some? && EventOf(p, ds[j].frame).Some?
    requires EventOf(p, ds[i].frame).value.id == EventOf(p, ds[j].frame).value.id
    ensures ds[j].mono - ds[i].mono >= ttl
  {
    ForwardsIff(p, ttl, start, ds, i);
    ForwardsIff(p, ttl, start, ds, j);
    CheckLogged(p, ds[..j], i);
  }

  lemma {:induction false} LoggedCheck(p: Payloads, ds: seq<Delivery>, c: Check) returns (k: nat)
    requires c in LogOf(p, ds)
    ensures k < |ds| && IsChecked(p, ds[k]) && c == Check(EventOf(p, ds[k].frame).value.id, ds[k].mono)
  {
    var init := ds[..|ds| - 1];
    if c in LogOf(p, init) {
      k := LoggedCheck(p, init, c);
    } else {
      k := |ds| - 1;
    }
  }

  /** The deliveries `i` and `j` bring events with the same id, `i` is put to the deduper, and no delivery of
      the id between them is. */
  ghost predicate NextOfId(p: Payloads, ds: seq<Delivery>, i: nat, j: nat) {
    && i < j < |ds| && IsChecked(p, ds[i])
    && EventOf(p, ds[j].frame).Some? && EventOf(p, ds[j].frame).value.id == EventOf(p, ds[i].frame).value.id
    && forall k :: i < k < j && IsChecked(p, ds[k]) ==> EventOf(p, ds[k].frame).value.id != EventOf(p, ds[i].frame).value.id
  }

  /** Exactly when a duplicate is sent on: the inbound channel is open, the time it carries parses as no
      stale one, and the time to live has passed since the id was last put to the deduper, whether or not
      it was sent on then. */
  lemma DuplicateForwardedIff(p: Payloads, ttl: nat, start: int, ds: seq<Delivery>, i: nat, j: nat)
    requires NextOfId(p, ds, i, j) && Monotonic(start, ds)
    ensures Forwards(p, ttl, ds, j) <==>
            && ds[j].open && !IsStale(EventOf(p, ds[j].frame).value.timestamp, ds[j].wallMs)
            && ds[j].mono - ds[i].mono >= ttl
  {
    ForwardsIff(p, ttl, start, ds, j);
    FreshSince(p, ttl, start, ds, i, j);
  }

  lemma FreshIff(log: seq<Check>, ttl: nat, id: Id, at: int, now: int)
    requires Check(id, at) in log && forall c :: c in log && c.id == id ==> c.at <= at
    ensures Fresh(log, ttl, id, now) <==> now - at >= ttl
  {
  }

  lemma NoLaterCheck(p: Payloads, start: int, ds: seq<Delivery>, i: nat, j: nat, c: Check)
    requires NextOfId(p, ds, i, j) && Monotonic(start, ds)
    requires c in LogOf(p, ds[..j]) && c.id == EventOf(p, ds[i].frame).value.id
    ensures c.at <= ds[i].mono
  {
    var k := LoggedCheck(p, ds[..j], c);
    assert !(i < k < j);
  }

  lemma FreshSince(p: Payloads, ttl: nat, start: int, ds: seq<Delivery>, i: nat, j: nat)
    requires NextOfId(p, ds, i, j) && Monotonic(start, ds)
    ensures Fresh(LogOf(p, ds[..j]), ttl, EventOf(p, ds[i].frame).value.id, ds[j].mono) <==> ds[j].mono - ds[i].mono >= ttl
  {
    var log, id := LogOf(p, ds[..j]), EventOf(p, ds[i].frame).value.id;
    CheckLogged(p, ds[..j], i);
    forall c | c in log && c.id == id ensures c.at <= ds[i].mono {
      NoLaterCheck(p, start, ds, i, j, c);
    }
    FreshIff(log, ttl, id, ds[i].mono, ds[j].mono);
  }

  /** So a message is sent on twice if it is stale at neither delivery, because its time does not parse or
      lies ahead, and the deliveries are the time to live apart. */
  lemma ForwardedTwice(p: Payloads, ttl: nat, first: Delivery, again: Delivery)
    requires first.open && again.open && again.mono - first.mono >= ttl
    requires IsChecked(p, first) && IsChecked(p, again) && EventOf(p, again.frame) == EventOf(p, first.frame)
    ensures Forwards(p, ttl, [first, again], 0) && Forwards(p, ttl, [first, again], 1)
  {
    var ds := [first, again];
    ForwardsIff(p, ttl, first.mono, ds, 0);
    assert ds[..0] == [] && LogOf(p, []) == [];
    DuplicateForwardedIff(p, ttl, first.mono, ds, 0, 1);
  }

  /** A time that does not parse, or that lies no more than the threshold before the wall clock, is not stale. */
  lemma FreshTimes(timestamp: string, nowMs: u64)
    ensures !IsStale(timestamp, nowMs) <==> ParseU64(timestamp).None? || ParseU64(timestamp).value >= nowMs - 120_000
  {
  }

  /** What delivery `i` is to forward, by its frame, the clocks and the log of checks: a card action of an
      `event` or `card` frame, or else the message of an `event` frame that is not gzip-encoded, unless it
      is stale by two minutes or its id was checked within the time to live. */
  ghost function Due(p: Payloads, ttl: nat, ds: seq<Delivery>, i: nat): seq<Forward>
    requires i < |ds|
  {
    var d := ds[i];
    var frame, kind := d.frame, FrameType(d.frame.headers);
    if kind != Some(Ascii("event")) && kind != Some(Ascii("card")) then []
    else if p.cardAction(frame.payload, kind.value).Some? then [CardAction(p.cardAction(frame.payload, kind.value).value)]
    else if kind != Some(Ascii("event")) || frame.payloadEncoding == Ascii("gzip") || p.event(frame.payload).None? then []
    else
      var m := p.event(frame.payload).value;
      if ParseU64(m.timestamp).Some? && d.wallMs - ParseU64(m.timestamp).value > 120_000 then []
      else if forall c :: c in LogOf(p, ds[..i]) && c.id == m.id ==> c.at <= d.mono - ttl then [Event(m)]
      else []
  }

  lemma NamesAreAscii()
    ensures EVENT_TYPE == Ascii("event") && CARD_TYPE == Ascii("card") && GZIP == Ascii("gzip") && BIZ_RT == Ascii("biz_rt")
  {
  }

  lemma DueIs(p: Payloads, ttl: nat, start: int, ds: seq<Delivery>, i: nat)
    requires i < |ds| && Monotonic(start, ds)
    ensures var out := ToForward(p, ttl, Run(p, ttl, ds[..i]).seen, ds[i]);
            IsData(ds[i].frame) ==> Due(p, ttl, ds, i) == if out.Some? then [out.value] else []
    ensures !IsData(ds[i].frame) ==> Due(p, ttl, ds, i) == []
  {
    NamesAreAscii();
    var latest := RunTracks(p, ttl, start, ds[..i]);
    if IsChecked(p, ds[i]) {
      PrunedMapAnswers(Run(p, ttl, ds[..i]).seen, LogOf(p, ds[..i]), ttl, latest, EventOf(p, ds[i].frame).value.id, ds[i].mono);
    }
  }

  lemma RunUnfold(p: Payloads, ttl: nat, ds: seq<Delivery>, i: nat)
    requires i < |ds|
    ensures Run(p, ttl, ds[..i + 1]) == Handle(p, ttl, Run(p, ttl, ds[..i]), ds[i])
  {
    assert ds[..i + 1][..i] == ds[..i];
  }

  /** In every run a delivery adds to what is forwarded exactly what it is to forward if the inbound channel
      is open, and nothing otherwise. */
  lemma ForwardedIs(p: Payloads, ttl: nat, start: int, ds: seq<Delivery>, i: nat)
    requires i < |ds| && Monotonic(start, ds)
    ensures Run(p, ttl, ds[..i + 1]).forwarded ==
            Run(p, ttl, ds[..i]).forwarded + if ds[i].open then Due(p, ttl, ds, i) else []
  {
    RunUnfold(p, ttl, ds, i);
    DueIs(p, ttl, start, ds, i);
  }

  /** How often an event with the id has been forwarded. */
  function TimesForwarded(forwarded: seq<Forward>, id: Id): nat {
    if forwarded == [] then 0
    else
      var last := forwarded[|forwarded| - 1];
      TimesForwarded(forwarded[..|forwarded| - 1], id) + if last.Event? && last.message.id == id then 1 else 0
  }

  /** Delivery `i` forwards an event with the id. */
  ghost predicate ForwardsId(p: Payloads, ttl: nat, ds: seq<Delivery>, i: nat, id: Id)
    requires i < |ds|
  {
    Forwards(p, ttl, ds, i) && EventOf(p, ds[i].frame).Some? && EventOf(p, ds[i].frame).value.id == id
  }

  lemma CountStep(p: Payloads, ttl: nat, ds: seq<Delivery>, i: nat, id: Id)
    requires i < |ds|
    ensures TimesForwarded(Run(p, ttl, ds[..i + 1]).forwarded, id) ==
            TimesForwarded(Run(p, ttl, ds[..i]).forwarded, id) + if ForwardsId(p, ttl, ds, i, id) then 1 else 0
  {
    RunUnfold(p, ttl, ds, i);
    var before, after := Run(p, ttl, ds[..i]).forwarded, Run(p, ttl, ds[..i + 1]).forwarded;
    if |after| > |before| {
      assert after[..|after| - 1] == before;
    } else {
      assert after == before;
    }
  }

  lemma {:induction false} NeverForwarded(p: Payloads, ttl: nat, ds: seq<Delivery>, n: nat, id: Id)
    requires n <= |ds| && forall i: nat :: i < n ==> !ForwardsId(p, ttl, ds, i, id)
    ensures TimesForwarded(Run(p, ttl, ds[..n]).forwarded, id) == 0
  {
    if n > 0 {
      NeverForwarded(p, ttl, ds, n - 1, id);
      CountStep(p, ttl, ds, n - 1, id);
    }
  }

  lemma {:induction false} OnceAtMost(p: Payloads, ttl: nat, ds: seq<Delivery>, n: nat, id: Id)
    requires n <= |ds|
    requires forall i: nat, j: nat :: i < j < n ==> !(ForwardsId(p, ttl, ds, i, id) && ForwardsId(p, ttl, ds, j, id))
    ensures TimesForwarded(Run(p, ttl, ds[..n]).forwarded, id) <= 1
  {
    if n > 0 {
      CountStep(p, ttl, ds, n - 1, id);
      if ForwardsId(p, ttl, ds, n - 1, id) {
        NeverForwarded(p, ttl, ds, n - 1, id);
      } else {
        OnceAtMost(p, ttl, ds, n - 1, id);
      }
    }
  }

  ghost predicate Brings(p: Payloads, d: Delivery, id: Id) {
    EventOf(p, d.frame).Some? && EventOf(p, d.frame).value.id == id
  }

  /** Of any two deliveries of the id the later carries the creation time of the message, which does not lie
      after the earlier, and between them the monotonic clock does not run ahead of the wall clock by
      nearly a day. */
  ghost predicate WellTimed(p: Payloads, ds: seq<Delivery>, id: Id, created: nat) {
    forall i: nat, j: nat :: i < j < |ds| && Brings(p, ds[i], id) && Brings(p, ds[j], id) ==>
      && ParseU64(EventOf(p, ds[j].frame).value.timestamp) == Some(created) && created <= ds[i].wallMs
      && (ds[j].mono - ds[i].mono) - (ds[j].wallMs - ds[i].wallMs) < 86_400_000 - 120_000
  }

  lemma NotTwice(p: Payloads, start: int, ds: seq<Delivery>, i: nat, j: nat, id: Id, created: nat)
    requires i < j < |ds| && Monotonic(start, ds) && WellTimed(p, ds, id, created)
    ensures !(ForwardsId(p, DEDUP_TTL_MS, ds, i, id) && ForwardsId(p, DEDUP_TTL_MS, ds, j, id))
  {
    if ForwardsId(p, DEDUP_TTL_MS, ds, i, id) && ForwardsId(p, DEDUP_TTL_MS, ds, j, id) {
      assert Brings(p, ds[i], id) && Brings(p, ds[j], id);
      ForwardsAreApart(p, DEDUP_TTL_MS, start, ds, i, j);
      ForwardsIff(p, DEDUP_TTL_MS, start, ds, j);
    }
  }

  /** In one process, across reconnects, such an event is among the forwarded messages at most once ever. */
  lemma ForwardedAtMostOnce(p: Payloads, start: int, ds: seq<Delivery>, id: Id, created: nat)
    requires Monotonic(start, ds) && WellTimed(p, ds, id, created)
    ensures TimesForwarded(Run(p, DEDUP_TTL_MS, ds).forwarded, id) <= 1
  {
    forall i: nat, j: nat | i < j < |ds|
      ensures !(ForwardsId(p, DEDUP_TTL_MS, ds, i, id) && ForwardsId(p, DEDUP_TTL_MS, ds, j, id))
    {
      NotTwice(p, start, ds, i, j, id, created);
    }
    OnceAtMost(p, DEDUP_TTL_MS, ds, |ds|, id);
    assert ds[..|ds|] == ds;
  }

  /** Every `event` or `card` frame of a run gets exactly one acknowledgement, echoing its ids and all its
      headers and adding the processing time, unless it brings something to forward and the inbound
      channel is closed or the socket does not take the acknowledgement; no other frame does. */
  lemma AcknowledgedIff(p: Payloads, ttl: nat, start: int, ds: seq<Delivery>, i: nat)
    requires i < |ds| && Monotonic(start, ds)
    ensures var before, after, d := Run(p, ttl, ds[..i]).acks, Run(p, ttl, ds[..i + 1]).acks, ds[i];
            var kind := FrameType(d.frame.headers);
            if (kind == Some(Ascii("event")) || kind == Some(Ascii("card"))) && d.ackSent && (d.open || Due(p, ttl, ds, i) == []) then
              && |after| == |before| + 1 && after[..|before|] == before
              && var ack := after[|before|];
                 && ack.seqid == d.frame.seqid && ack.logid == d.frame.logid
                 && ack.service == d.frame.service && ack.method_ == d.frame.method_
                 && |ack.headers| == |d.frame.headers| + 1 && ack.headers[..|d.frame.headers|] == d.frame.headers
                 && ack.headers[|d.frame.headers|].key == Ascii("biz_rt") && ack.headers[|d.frame.headers|].value == d.elapsed
                 && ack.payloadEncoding == [] && ack.payloadType == [] && ack.payload == p.ackPayload
            else after == before
  {
    RunUnfold(p, ttl, ds, i);
    DueIs(p, ttl, start, ds, i);
    NamesAreAscii();
  }
}
