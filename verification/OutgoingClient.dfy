/** The client's tables and the methods that update them (bmchat/core/client.py). Each method is shown to
    perform the steps of the `Delivery` machine, so every interleaving of such methods is one of its runs. */
module OutgoingClient {
  import opened Bytes
  import opened Delivery
  import opened Objects
  import Address
  import AckLoop
  import KeyExchange
  import Messages

  /** Messages one of whose watches has passed its deadline. */
  ghost function Overdue(watches: map<Bytes, (Id, int)>, now: int): set<Id> {
    set key | key in watches && watches[key].1 < now :: watches[key].0
  }

  const SCAN_MAX := 5

  function Lookup(rows: map<Id, Row>, id: Id): Option<Row> {
    if id in rows then Some(rows[id]) else None
  }

  function Count(tries: map<Id, nat>, id: Id): nat {
    if id in tries then tries[id] else 0
  }

  /** `UPDATE messages SET status=? WHERE id=?` */
  function SetStatus(rows: map<Id, Row>, id: Id, status: Status): map<Id, Row> {
    if id in rows then rows[id := rows[id].(status := status)] else rows
  }

  /** The tables agree with the machine about one message. */
  predicate Matches(m: Message, row: Option<Row>, flagged: bool, tries: nat, announced: nat) {
    m.row == row && m.inFlight == flagged && m.tries == tries && m.announced == announced
  }

  ghost predicate Coupled(messages: map<Id, Message>, rows: map<Id, Row>, inFlight: set<Id>, tries: map<Id, nat>,
                          announcements: seq<Id>) {
    && rows.Keys <= messages.Keys && inFlight <= messages.Keys && tries.Keys <= messages.Keys
    && (forall id :: id in announcements ==> id in messages)
    && forall id :: id in messages ==>
      Matches(messages[id], Lookup(rows, id), id in inFlight, Count(tries, id), multiset(announcements)[id])
  }

  /** Tables that change for one message only stay in agreement if they agree about that message. */
  lemma Recouple(ms: map<Id, Message>, rows: map<Id, Row>, inFlight: set<Id>, tries: map<Id, nat>,
                 announcements: seq<Id>, id: Id, m: Message, rows': map<Id, Row>, inFlight': set<Id>,
                 tries': map<Id, nat>, announcements': seq<Id>)
    requires Coupled(ms, rows, inFlight, tries, announcements) && id in ms
    requires rows' - {id} == rows - {id} && inFlight' - {id} == inFlight - {id} && tries' - {id} == tries - {id}
    requires announcements' == announcements || announcements' == announcements + [id]
    requires Matches(m, Lookup(rows', id), id in inFlight', Count(tries', id), multiset(announcements')[id])
    ensures Coupled(ms[id := m], rows', inFlight', tries', announcements')
  {
    hide Matches, Lookup, Count;
    OthersKeep(rows, inFlight, tries, announcements, id, rows', inFlight', tries', announcements');
    forall k | k in ms && k != id
      ensures Matches(ms[k], Lookup(rows', k), k in inFlight', Count(tries', k), multiset(announcements')[k])
    {
      assert Matches(ms[k], Lookup(rows, k), k in inFlight, Count(tries, k), multiset(announcements)[k]);
    }
  }

  lemma OthersKeep(rows: map<Id, Row>, inFlight: set<Id>, tries: map<Id, nat>, announcements: seq<Id>, id: Id,
                   rows': map<Id, Row>, inFlight': set<Id>, tries': map<Id, nat>, announcements': seq<Id>)
    requires rows' - {id} == rows - {id} && inFlight' - {id} == inFlight - {id} && tries' - {id} == tries - {id}
    requires announcements' == announcements || announcements' == announcements + [id]
    ensures rows'.Keys <= rows.Keys + {id} && inFlight' <= inFlight + {id} && tries'.Keys <= tries.Keys + {id}
    ensures forall k :: k in announcements' ==> k in announcements || k == id
    ensures forall k :: k != id ==>
      && Lookup(rows', k) == Lookup(rows, k) && (k in inFlight' <==> k in inFlight)
      && Count(tries', k) == Count(tries, k) && multiset(announcements')[k] == multiset(announcements)[k]
  {
    assert forall k :: k in rows' && k != id ==> k in rows' - {id};
    assert forall k :: k in inFlight' && k != id ==> k in inFlight' - {id};
    assert forall k :: k in tries' && k != id ==> k in tries' - {id};
    forall k | k != id
      ensures Lookup(rows', k) == Lookup(rows, k) && (k in inFlight' <==> k in inFlight)
      ensures Count(tries', k) == Count(tries, k)
    {
      assert k in rows <==> k in rows - {id};
      assert k in inFlight <==> k in inFlight - {id};
      assert k in tries <==> k in tries - {id};
    }
  }

  /** What every run keeps about a message. */
  predicate Kept(m: Message) {
    m.Sound() && m.WithinBudget()
  }

  lemma KeptNext(m: Message, e: Step)
    requires Kept(m)
    ensures Kept(Next(m, e))
  {
    hide Next;
    StepKeepsSound(m, e);
    StepKeepsBudget(m, e);
  }

  lemma KeptAll(ms: map<Id, Message>, ids: set<Id>, e: Step)
    requires forall id :: id in ms ==> Kept(ms[id])
    ensures OnAll(ms, ids, e).Keys == ms.Keys && forall id :: id in ms ==> Kept(OnAll(ms, ids, e)[id])
  {
    hide Next, Kept;
    forall id | id in ms
      ensures Kept(OnAll(ms, ids, e)[id])
    {
      KeptNext(ms[id], e);
    }
  }

  /** A new message, in agreement with its new row. */
  lemma CoupleNew(ms: map<Id, Message>, rows: map<Id, Row>, inFlight: set<Id>, tries: map<Id, nat>,
                  announcements: seq<Id>, id: Id, row: Row, picked: nat)
    requires Coupled(ms, rows, inFlight, tries, announcements) && id !in ms
    ensures var m := Idle(Some(row)).(picked := picked);
      Kept(m) && Coupled(ms[id := m], rows[id := row], inFlight, tries, announcements)
  {
  }

  lemma KeptRun(m: Message, steps: seq<Step>)
    requires Kept(m)
    ensures Kept(Run(m, steps))
  {
    hide Next, Run;
    RunKeepsBudget(m, steps);
  }

  // ---- what the composed steps do to the tables ----------------------------------------

  lemma RunTwo(m: Message, a: Step, b: Step)
    ensures Run(m, [a, b]) == Next(Next(m, a), b)
  {
    hide Next, Run;
    RunAppend(m, [a], [b]);
    RunOne(m, a);
    RunOne(Next(m, a), b);
    assert [a] + [b] == [a, b];
  }

  predicate AtGate(m: Message, paid: bool) {
    (if paid then m.claims > 0 else m.picked > 0) && m.enteredPaid == m.enteredUnpaid == 0
  }

  /** What is known of the recipient at the gate: a message to oneself needs no network, and others need the
      recipient's keys, a valid address and the sender's identity. */
  datatype Recipient = Oneself | Usable | Unusable

  function GateSteps(paid: bool, to: Recipient): seq<Step> {
    [Enter(paid, to.Usable?), if to.Oneself? then Settle(AckReceived) else SetSending(paid)]
  }

  lemma GateEffect(m: Message, paid: bool, to: Recipient)
    requires AtGate(m, paid)
    ensures var r := Run(m, GateSteps(paid, to));
      var started := to.Usable? && !m.inFlight;
      var status := if to.Oneself? then Some(AckReceived) else if started then Some(Sending) else None;
      && Matches(r, (if status.Some? then m.WithStatus(status.value) else m).row, m.inFlight || started, m.tries,
                 m.announced)
      && r.enteredPaid == r.enteredUnpaid == 0
  {
    hide Run;
    RunTwo(m, Enter(paid, to.Usable?), if to.Oneself? then Settle(AckReceived) else SetSending(paid));
  }

  lemma FinishEffect(m: Message)
    requires m.workers > 0 && m.publishing == m.closing == 0
    ensures Matches(Run(m, [Check, Announce, RecordSent]),
                    (if m.Waiting() then m.WithStatus(Sent) else m).row, false, m.tries,
                    m.announced + if m.Waiting() then 1 else 0)
  {
    hide Run;
    Run3(m, Check, Announce, RecordSent);
  }

  /** What a queue scan does with a row it finds waiting. */
  function ScanSteps(to: Recipient): seq<Step> {
    [Pick] + GateSteps(false, to)
  }

  /** The rows one scan publishes: the first five; none of several while no peer is connected. */
  function Chosen(found: seq<Id>, offline: bool): (chosen: seq<Id>)
    ensures chosen <= found
    ensures |chosen| == if offline && |found| > 1 then 0 else if |found| < 5 then |found| else 5
  {
    var first := if |found| <= SCAN_MAX then found else found[..SCAN_MAX];
    if offline && |first| > 1 then [] else first
  }

  /** The expiries after some rows were published: a row is stamped when its publication starts. */
  function Stamped(expiries: map<Id, int>, ids: seq<Id>, inFlight: set<Id>, recipient: Id -> Recipient,
                   expires: Id -> int): map<Id, int>
  {
    if ids == [] then expiries
    else
      var front, id := ids[..|ids| - 1], ids[|ids| - 1];
      var before := Stamped(expiries, front, inFlight, recipient, expires);
      if recipient(id).Usable? && id !in inFlight then before[id := expires(id)] else before
  }

  lemma StampedNone(expiries: map<Id, int>, inFlight: set<Id>, recipient: Id -> Recipient, expires: Id -> int)
    ensures Stamped(expiries, [], inFlight, recipient, expires) == expiries
  {
  }

  lemma StampedNext(expiries: map<Id, int>, ids: seq<Id>, id: Id, inFlight: set<Id>, recipient: Id -> Recipient,
                    expires: Id -> int)
    ensures var before := Stamped(expiries, ids, inFlight, recipient, expires);
      Stamped(expiries, ids + [id], inFlight, recipient, expires) ==
      if recipient(id).Usable? && id !in inFlight then before[id := expires(id)] else before
  {
    assert (ids + [id])[..|ids|] == ids;
  }

  lemma {:induction false} StampedAt(expiries: map<Id, int>, ids: seq<Id>, inFlight: set<Id>,
                                     recipient: Id -> Recipient, expires: Id -> int, id: Id)
    ensures var after := Stamped(expiries, ids, inFlight, recipient, expires);
      if id in ids && recipient(id).Usable? && id !in inFlight then id in after && after[id] == expires(id)
      else (id in after <==> id in expiries) && (id in after ==> after[id] == expiries[id])
  {
    if ids != [] {
      var front := ids[..|ids| - 1];
      assert ids == front + [ids[|ids| - 1]];
      StampedAt(expiries, front, inFlight, recipient, expires, id);
    }
  }

  /** What comes of an attempt to send a message. */
  datatype Outcome =
    | BadAddress(error: Address.DecodeError)
    | Unsupported
    | TooLarge
    | DeliveredLocally(id: Id)
    | Publishing(id: Id)
    | Requested(id: Id, request: Bytes)
  {
    predicate Refused() {
      BadAddress? || Unsupported? || TooLarge?
    }
  }

  /** A row whose watch ran out while it still counted as sent. */
  function Failed(m: Message, unacknowledged: bool): Message {
    if unacknowledged && m.row.Some? && m.row.value.status == Sent then Next(m, Settle(AckFailed)) else m
  }

  function FailSteps(m: Message): seq<Step> {
    if m.Waiting() then [Release, Settle(AckFailed)] else [Release]
  }

  lemma FailEffect(m: Message)
    requires m.workers > 0
    ensures Matches(Run(m, FailSteps(m)), (if m.Waiting() then m.WithStatus(AckFailed) else m).row, false, m.tries,
                    m.announced)
  {
    hide Run;
    if m.Waiting() {
      RunTwo(m, Release, Settle(AckFailed));
    } else {
      RunOne(m, Release);
    }
  }

  lemma GiveUpEffect(m: Message)
    requires m.workers > 0
    ensures Matches(Run(m, [Settle(AckFailed), Release]), m.WithStatus(AckFailed).row, false, m.tries, m.announced)
  {
    hide Run;
    RunTwo(m, Settle(AckFailed), Release);
  }

  lemma ReadEffect(m: Message)
    ensures var r := Next(m, ReadRetryable);
      && Matches(r, m.row, m.inFlight, m.tries, m.announced)
      && r == if m.Retryable() then m.(readers := m.readers + 1) else m
  {
  }

  lemma ClaimEffect(m: Message)
    requires m.readers > 0
    ensures var r := Next(m, Claim);
      && Matches(r, m.row, m.inFlight, if m.tries < MAX_TRIES then m.tries + 1 else m.tries, m.announced)
      && (m.tries < MAX_TRIES ==> r.claims == m.claims + 1)
      && r.enteredPaid == m.enteredPaid && r.enteredUnpaid == m.enteredUnpaid
  {
  }

  lemma RequeueEffect(m: Message)
    requires m.claims > 0
    ensures Matches(Next(m, Requeue), m.WithStatus(AwaitingPubkey).row, m.inFlight, m.tries, m.announced)
  {
  }

  lemma PickEffect(m: Message)
    requires m.row.Some? && m.row.value.status == AwaitingPubkey
    ensures Next(m, Pick) == m.(picked := m.picked + 1)
  {
  }

  lemma SettleEffect(m: Message, status: Status)
    requires status != AwaitingPubkey && status != Sending
    ensures Matches(Next(m, Settle(status)), m.WithStatus(status).row, m.inFlight, m.tries, m.announced)
  {
  }

  lemma AcknowledgeEffect(m: Message)
    ensures Matches(Next(m, Acknowledge), m.WithStatus(AckReceived).row, m.inFlight, 0, m.announced)
  {
  }

  function UnstickRow(row: Row, now: int): Row {
    if row.status == Sending && row.created < now - 600 then row.(status := AwaitingPubkey) else row
  }

  lemma UnstickEffect(m: Message, now: int)
    ensures Matches(Next(m, Unstick(now)), if m.row.Some? then Some(UnstickRow(m.row.value, now)) else None,
                    m.inFlight, m.tries, m.announced)
  {
  }

  lemma RemoveEffect(m: Message)
    ensures Matches(Next(m, Remove), None, m.inFlight, m.tries, m.announced)
  {
  }

  lemma UnstickAll(ms: map<Id, Message>, rows: map<Id, Row>, inFlight: set<Id>, tries: map<Id, nat>,
                   announcements: seq<Id>, now: int)
    requires Coupled(ms, rows, inFlight, tries, announcements)
    ensures Coupled(OnAll(ms, ms.Keys, Unstick(now)), map id | id in rows :: UnstickRow(rows[id], now), inFlight, tries,
                    announcements)
  {
    hide Next;
    forall id | id in ms
      ensures Matches(Next(ms[id], Unstick(now)), Lookup(map id | id in rows :: UnstickRow(rows[id], now), id),
                      id in inFlight, Count(tries, id), multiset(announcements)[id])
    {
      UnstickEffect(ms[id], now);
    }
  }

  lemma RemoveAll(ms: map<Id, Message>, rows: map<Id, Row>, inFlight: set<Id>, tries: map<Id, nat>,
                  announcements: seq<Id>, ids: set<Id>)
    requires Coupled(ms, rows, inFlight, tries, announcements)
    ensures Coupled(OnAll(ms, ids, Remove), rows - ids, inFlight, tries, announcements)
  {
    hide Next;
    forall id | id in ms
      ensures Matches(OnAll(ms, ids, Remove)[id], Lookup(rows - ids, id), id in inFlight, Count(tries, id),
                      multiset(announcements)[id])
    {
      RemoveEffect(ms[id]);
    }
  }

  /** A message is among the first `n` of a list of expired watches. */
  ghost predicate Listed(expired: seq<(Bytes, Id)>, n: nat, id: Id)
    requires n <= |expired|
  {
    exists j :: 0 <= j < n && expired[j].1 == id
  }

  lemma NoneListed(expired: seq<(Bytes, Id)>)
    ensures forall id :: !Listed(expired, 0, id)
  {
  }

  lemma ListedNext(expired: seq<(Bytes, Id)>, n: nat)
    requires n < |expired|
    ensures forall id :: Listed(expired, n + 1, id) <==> Listed(expired, n, id) || id == expired[n].1
  {
    assert Listed(expired, n + 1, expired[n].1);
  }

  class Client {
    var rows: map<Id, Row>
    var nextId: Id
    var inFlight: set<Id>
    var tries: map<Id, nat>
    var watches: map<Bytes, (Id, int)>
    /** Messages in the order they were announced. */
    var announcements: seq<Id>
    /** When the message being sent expires. */
    var expiries: map<Id, int>
    /** Where the threads are: the state of the `Delivery` machine. */
    ghost var messages: map<Id, Message>

    /** The tables are those of the machine; no id is given out twice. */
    ghost predicate Valid()
      reads this
    {
      && Coupled(messages, rows, inFlight, tries, announcements)
      && (forall id :: id in messages ==> Kept(messages[id]))
      && (forall id :: id in messages ==> id < nextId)
      && (forall key :: key in watches ==> watches[key].0 in messages && AckLoop.IsAckKey(key))
    }

    constructor (rows: map<Id, Row>, nextId: Id)
      requires forall id :: id in rows ==> id < nextId
      ensures Valid() && this.rows == rows && this.nextId == nextId
      ensures messages == (map id | id in rows :: Idle(Some(rows[id]))) && announcements == []
    {
      this.rows, this.nextId := rows, nextId;
      inFlight, tries, watches, announcements, expiries := {}, map[], map[], [], map[];
      messages := map id | id in rows :: Idle(Some(rows[id]));
    }

    /** The announcements really made for a message, before its first acknowledgement, are at most four and one more
        for every stale start; nothing is announced that the machine does not know. */
    lemma AnnouncementsAreBounded(id: Id)
      requires Valid()
      ensures id in messages ==>
                messages[id].acked || multiset(announcements)[id] <= 4 + messages[id].stale
      ensures id !in messages ==> id !in announcements
    {
      if id in messages {
        LookupMessage(id);
      }
    }

    /** Stores a new outgoing message under an unused id. A message to oneself is delivered at once, with a second
        row for the copy received; with the recipient's keys at hand the caller goes on to publish; otherwise they
        are asked for with the tag of the address. */
    method SendMessage(c: Messages.Crypto, to: string, wire: Bytes, own: bool, pubkeyKnown: bool, now: nat)
      returns (outcome: Outcome)
      requires Valid() && now + KeyExchange.GETPUBKEY_TTL < MAX_U64
      modifies this`rows, this`nextId, this`messages
      ensures Valid()
      ensures var decoded := Address.DecodeAddress(c.sha512, to);
        && (outcome.Refused() <==> Messages.KeysOfAddress(c, to) == None || |wire| > 200_000)
        && (outcome.BadAddress? <==> decoded.Err?) && (outcome.BadAddress? ==> outcome.error == decoded.error)
        && (outcome.Unsupported? <==> decoded.Ok? && decoded.value.version != 4)
      ensures outcome.Refused() ==> messages == old(messages) && rows == old(rows) && nextId == old(nextId)
      ensures !outcome.Refused() ==>
        && outcome.id == old(nextId) && outcome.id !in old(messages) && nextId == outcome.id + (if own then 2 else 1)
        && var m := Idle(Some(Row(if own then AckReceived else AwaitingPubkey, now)));
        && messages == old(messages)[outcome.id := m.(picked := if outcome.Publishing? then 1 else 0)]
        && var keys := Messages.KeysOfAddress(c, to).value;
        && (outcome.DeliveredLocally? <==> own) && (outcome.Publishing? <==> !own && pubkeyKnown)
        && (outcome.Requested? ==>
              outcome.request == KeyExchange.KeyRequest(now + 4 * 24 * 3600, keys))
    {
      hide Coupled, Kept, Idle, AckLoop.IsAckKey, Address.DecodeAddress, KeyExchange.KeyRequest;
      var decoded := Address.DecodeAddress(c.sha512, to);
      if decoded.Err? {
        return BadAddress(decoded.error);
      }
      if decoded.value.version != 4 {
        return Unsupported;
      }
      if |wire| > Messages.MAX_WIRE_BODY_BYTES {
        return TooLarge;
      }
      var id := nextId;
      if own {
        StoreMessage(AckReceived, now, 0);
        nextId := nextId + 1;
        return DeliveredLocally(id);
      }
      StoreMessage(AwaitingPubkey, now, if pubkeyKnown then 1 else 0);
      var keys := Messages.KeysOfAddress(c, to).value;
      if pubkeyKnown {
        outcome := Publishing(id);
      } else {
        outcome := Requested(id, KeyExchange.KeyRequest(now + KeyExchange.GETPUBKEY_TTL, keys));
      }
    }

    /** A new row; `picked` threads go on to publish it. */
    method StoreMessage(status: Status, now: int, picked: nat)
      requires Valid()
      modifies this`rows, this`nextId, this`messages
      ensures Valid() && nextId == old(nextId) + 1 && old(nextId) !in old(messages)
      ensures messages == old(messages)[old(nextId) := Idle(Some(Row(status, now))).(picked := picked)]
    {
      hide Coupled, Kept, Idle, AckLoop.IsAckKey;
      CoupleNew(messages, rows, inFlight, tries, announcements, nextId, Row(status, now), picked);
      rows := rows[nextId := Row(status, now)];
      messages := messages[nextId := Idle(Some(Row(status, now))).(picked := picked)];
      nextId := nextId + 1;
    }

    /** The in-flight gate, and the status and expiry written behind it. */
    method PowAndPublish(id: Id, paid: bool, to: Recipient, expires: int) returns (started: bool)
      requires Valid() && id in messages && AtGate(messages[id], paid)
      modifies this`rows, this`inFlight, this`expiries, this`messages
      ensures Valid() && started == (to.Usable? && id !in old(inFlight))
      ensures messages == old(messages)[id := Run(old(messages)[id], GateSteps(paid, to))]
      ensures inFlight == (if started then old(inFlight) + {id} else old(inFlight)) && rows.Keys == old(rows.Keys)
      ensures expiries == if started && id in old(rows) then old(expiries)[id := expires] else old(expiries)
    {
      hide Next, Run, Coupled, Kept, AckLoop.IsAckKey, GateSteps;
      GateEffect(messages[id], paid, to);
      LookupMessage(id);
      started := to.Usable? && id !in inFlight;
      if to.Oneself? {
        rows := SetStatus(rows, id, AckReceived);
      } else if started {
        inFlight := inFlight + {id};
        rows := SetStatus(rows, id, Sending);
        if id in rows {
          expiries := expiries[id := expires];
        }
      }
      KeptRun(messages[id], GateSteps(paid, to));
      Recouple(messages, old(rows), old(inFlight), tries, announcements, id, Run(messages[id], GateSteps(paid, to)),
               rows, inFlight, tries, announcements);
      messages := messages[id := Run(messages[id], GateSteps(paid, to))];
    }

    lemma LookupMessage(id: Id)
      requires Valid() && id in messages
      ensures Matches(messages[id], Lookup(rows, id), id in inFlight, Count(tries, id), multiset(announcements)[id])
      ensures Kept(messages[id])
    {
    }

    /** One row of the scan. */
    method PublishQueued(id: Id, to: Recipient, expires: int)
      requires Valid() && id in messages && id in rows
      requires messages[id].row.Some? && messages[id].row.value.status == AwaitingPubkey
      requires messages[id].enteredPaid == messages[id].enteredUnpaid == 0
      modifies this`rows, this`inFlight, this`expiries, this`messages
      ensures Valid() && messages == old(messages)[id := Run(old(messages)[id], ScanSteps(to))]
      ensures var started := to.Usable? && id !in old(inFlight);
        && rows.Keys == old(rows.Keys) && inFlight == (if started then old(inFlight) + {id} else old(inFlight))
        && expiries == if started then old(expiries)[id := expires] else old(expiries)
    {
      hide Next, Run, Coupled, Kept, AckLoop.IsAckKey, ScanSteps, GateSteps;
      ScanIsPickThenGate(messages[id], to);
      PickOne(id);
      var _ := PowAndPublish(id, false, to, expires);
    }

    /** The queue scan: rows read as waiting, published one after the other. */
    method SendQueued(found: seq<Id>, offline: bool, recipient: Id -> Recipient, expires: Id -> int)
      requires Valid()
      requires forall i :: 0 <= i < |found| ==>
        && found[i] in messages && found[i] in rows && rows[found[i]].status == AwaitingPubkey
        && messages[found[i]].enteredPaid == messages[found[i]].enteredUnpaid == 0
      requires forall i, j :: 0 <= i < j < |found| ==> found[i] != found[j]
      modifies this`rows, this`inFlight, this`expiries, this`messages
      ensures Valid() && messages.Keys == old(messages.Keys)
      ensures forall id :: id in old(messages) ==>
        messages[id] == if id in Chosen(found, offline) then Run(old(messages)[id], ScanSteps(recipient(id)))
                        else old(messages)[id]
      ensures expiries == Stamped(old(expiries), Chosen(found, offline), old(inFlight), recipient, expires)
    {
      hide Next, Run, Coupled, Kept, AckLoop.IsAckKey, ScanSteps, GateSteps, Stamped;
      var waiting := Chosen(found, offline);
      StampedNone(expiries, inFlight, recipient, expires);
      for i := 0 to |waiting|
        invariant Valid() && messages.Keys == old(messages.Keys)
        invariant forall id :: id in old(messages) ==>
          messages[id] == if id in waiting[..i] then Run(old(messages)[id], ScanSteps(recipient(id)))
                          else old(messages)[id]
        invariant forall id :: id !in waiting[..i] ==> (id in inFlight <==> id in old(inFlight))
        invariant rows.Keys == old(rows.Keys)
        invariant expiries == Stamped(old(expiries), waiting[..i], old(inFlight), recipient, expires)
      {
        var id := waiting[i];
        assert id !in waiting[..i];
        assert waiting[..i + 1] == waiting[..i] + [id];
        OldRow(id);
        StampedNext(old(expiries), waiting[..i], id, old(inFlight), recipient, expires);
        PublishQueued(id, recipient(id), expires(id));
      }
      assert waiting[..|waiting|] == waiting;
    }

    twostate lemma OldRow(id: Id)
      requires old(Valid()) && id in old(messages) && id in old(rows)
      ensures old(messages)[id].row == Some(old(rows)[id])
    {
      assert Matches(old(messages)[id], Lookup(old(rows), id), id in old(inFlight), Count(old(tries), id),
                     multiset(old(announcements))[id]);
    }

    /** The scan has read the row as waiting. */
    ghost method PickOne(id: Id)
      requires Valid() && id in messages && messages[id].row.Some? && messages[id].row.value.status == AwaitingPubkey
      modifies this`messages
      ensures Valid() && messages == old(messages)[id := Next(old(messages)[id], Pick)]
    {
      hide Next, Coupled, Kept, AckLoop.IsAckKey;
      PickEffect(messages[id]);
      LookupMessage(id);
      KeptNext(messages[id], Pick);
      Recouple(messages, rows, inFlight, tries, announcements, id, Next(messages[id], Pick), rows, inFlight, tries,
          announcements);
      messages := messages[id := Next(messages[id], Pick)];
    }

    /** The worker is done: announce only if the row is still waiting, then record it as sent. */
    method FinishMessageSend(id: Id)
      requires Valid() && id in messages && messages[id].workers > 0
      requires messages[id].publishing == messages[id].closing == 0
      modifies this`rows, this`inFlight, this`messages, this`announcements
      ensures Valid()
      ensures messages == old(messages)[id := Run(old(messages)[id], [Check, Announce, RecordSent])]
      ensures announcements == if old(messages)[id].Waiting() then old(announcements) + [id] else old(announcements)
    {
      hide Next, Run, Coupled, Kept, AckLoop.IsAckKey;
      FinishEffect(messages[id]);
      LookupMessage(id);
      var waiting := id in rows && (rows[id].status == Sending || rows[id].status == AwaitingPubkey);
      inFlight := inFlight - {id};
      if waiting {
        announcements := announcements + [id];
        rows := SetStatus(rows, id, Sent);
      }
      KeptRun(messages[id], [Check, Announce, RecordSent]);
      Recouple(messages, old(rows), old(inFlight), tries, old(announcements), id,
               Run(messages[id], [Check, Announce, RecordSent]), rows, inFlight, tries, announcements);
      messages := messages[id := Run(messages[id], [Check, Announce, RecordSent])];
    }

    /** The proof of work failed: release the message and leave it for a retry. */
    method FailPow(id: Id)
      requires Valid() && id in messages && messages[id].workers > 0
      modifies this`rows, this`inFlight, this`messages
      ensures Valid() && messages == old(messages)[id := Run(old(messages)[id], FailSteps(old(messages)[id]))]
    {
      hide Next, Run, Coupled, Kept, AckLoop.IsAckKey;
      FailEffect(messages[id]);
      LookupMessage(id);
      inFlight := inFlight - {id};
      if id in rows && (rows[id].status == Sending || rows[id].status == AwaitingPubkey) {
        rows := SetStatus(rows, id, AckFailed);
      }
      KeptRun(messages[id], FailSteps(messages[id]));
      Recouple(messages, old(rows), old(inFlight), tries, announcements, id,
               Run(messages[id], FailSteps(messages[id])), rows, inFlight, tries, announcements);
      messages := messages[id := Run(messages[id], FailSteps(messages[id]))];
    }

    /** The worker gives up before its proof of work: no acknowledgement could be built, or the body is too large, in
        which case the `watch` is dropped again. The status is written without being read. */
    method GiveUp(id: Id, watch: Option<Bytes>)
      requires Valid() && id in messages && messages[id].workers > 0
      modifies this`rows, this`inFlight, this`watches, this`messages
      ensures Valid() && messages == old(messages)[id := Run(old(messages)[id], [Settle(AckFailed), Release])]
      ensures watches == if watch.Some? then old(watches) - {watch.value} else old(watches)
    {
      hide Next, Run, Coupled, Kept, AckLoop.IsAckKey;
      GiveUpEffect(messages[id]);
      LookupMessage(id);
      rows := SetStatus(rows, id, AckFailed);
      inFlight := inFlight - {id};
      if watch.Some? {
        watches := watches - {watch.value};
      }
      KeptRun(messages[id], [Settle(AckFailed), Release]);
      Recouple(messages, old(rows), old(inFlight), tries, announcements, id,
               Run(messages[id], [Settle(AckFailed), Release]), rows, inFlight, tries, announcements);
      messages := messages[id := Run(messages[id], [Settle(AckFailed), Release])];
    }

    method ClaimResendSlot(id: Id) returns (ok: bool)
      requires Valid() && id in messages && messages[id].readers > 0
      modifies this`tries, this`messages
      ensures Valid() && ok == (old(messages)[id].tries < 3)
      ensures messages == old(messages)[id := Next(old(messages)[id], Claim)]
    {
      hide Next, Coupled, Kept, AckLoop.IsAckKey;
      ClaimEffect(messages[id]);
      LookupMessage(id);
      var used := Count(tries, id);
      ok := used < MAX_TRIES;
      if ok {
        tries := tries[id := used + 1];
      }
      KeptNext(messages[id], Claim);
      Recouple(messages, rows, inFlight, old(tries), announcements, id, Next(messages[id], Claim), rows, inFlight,
          tries, announcements);
      messages := messages[id := Next(messages[id], Claim)];
    }

    /** A message may be sent again unless it is sent and not failed, acknowledged, or gone. */
    method ReadStatus(id: Id) returns (ok: bool)
      requires Valid() && id in messages
      modifies this`messages
      ensures Valid() && messages == old(messages)[id := Next(old(messages)[id], ReadRetryable)]
      ensures ok == (id in rows && rows[id].status in {AckFailed, Sending, AwaitingPubkey})
      ensures ok ==> messages[id] == old(messages)[id].(readers := old(messages)[id].readers + 1)
    {
      hide Next, Coupled, Kept, AckLoop.IsAckKey;
      ReadEffect(messages[id]);
      LookupMessage(id);
      ok := id in rows && (rows[id].status == AckFailed || rows[id].status == Sending
                           || rows[id].status == AwaitingPubkey);
      KeptNext(messages[id], ReadRetryable);
      Recouple(messages, rows, inFlight, tries, announcements, id, Next(messages[id], ReadRetryable), rows, inFlight,
               tries, announcements);
      messages := messages[id := Next(messages[id], ReadRetryable)];
    }

    /** One retry of a failed message, automatic or by hand, once its status has been read. When the recipient's keys
        are known but the sender's identity is gone nothing happens; otherwise it costs a slot, and either publishes
        again or goes back to waiting for the keys. */
    method Retry(id: Id, pubkeyKnown: bool, identityKnown: bool, to: Recipient, expires: int) returns (ok: bool)
      requires Valid() && id in messages && messages[id].readers > 0
      requires messages[id].enteredPaid == messages[id].enteredUnpaid == 0
      modifies this`rows, this`inFlight, this`expiries, this`tries, this`messages
      ensures Valid() && ok == ((pubkeyKnown ==> identityKnown) && old(messages)[id].tries < 3)
      ensures messages == old(messages)[id :=
        if pubkeyKnown && !identityKnown then old(messages)[id]
        else if !ok then Next(old(messages)[id], Claim)
        else if pubkeyKnown then Run(Next(old(messages)[id], Claim), GateSteps(true, to))
        else Next(Next(old(messages)[id], Claim), Requeue)]
    {
      hide Next, Run, Coupled, Kept, AckLoop.IsAckKey;
      if pubkeyKnown && !identityKnown {
        return false;
      }
      ClaimEffect(messages[id]);
      ok := ClaimResendSlot(id);
      if !ok {
        return;
      }
      if pubkeyKnown {
        var _ := PowAndPublish(id, true, to, expires);
      } else {
        ghost var m := messages[id];
        RequeueEffect(m);
        LookupMessage(id);
        rows := SetStatus(rows, id, AwaitingPubkey);
        KeptNext(m, Requeue);
        Recouple(messages, old(rows), inFlight, tries, announcements, id, Next(m, Requeue), rows, inFlight, tries,
            announcements);
        messages := messages[id := Next(m, Requeue)];
      }
    }

    /** By hand, a message to oneself that got stuck is delivered at once, without a slot. */
    method ResendToOneself(id: Id)
      requires Valid() && id in messages
      modifies this`rows, this`messages
      ensures Valid() && messages == old(messages)[id := Next(old(messages)[id], Settle(AckReceived))]
    {
      hide Next, Coupled, Kept, AckLoop.IsAckKey;
      SettleEffect(messages[id], AckReceived);
      LookupMessage(id);
      rows := SetStatus(rows, id, AckReceived);
      KeptNext(messages[id], Settle(AckReceived));
      Recouple(messages, old(rows), inFlight, tries, announcements, id, Next(messages[id], Settle(AckReceived)), rows,
               inFlight, tries, announcements);
      messages := messages[id := Next(messages[id], Settle(AckReceived))];
    }

    /** The worker has built an acknowledgement for the message and waits for it until it expires. An earlier
        attempt's watch stays. */
    method WatchAck(id: Id, expires: nat, watch: Bytes, stream: nat, nonce: nat)
      requires Valid() && id in messages && expires < MAX_U64 && stream < MAX_U64
      modifies this`watches
      ensures Valid()
      ensures var key := AckLoop.WatchKey(AckLoop.AckObject(expires, watch, stream, nonce));
        watches == old(watches)[key := (id, expires)]
    {
      hide Coupled, Kept, AckLoop.AckObject, AckLoop.WatchKey;
      watches := watches[AckLoop.WatchKey(AckLoop.AckObject(expires, watch, stream, nonce)) := (id, expires)];
    }

    /** An incoming object acknowledges the message it is watched for. */
    method MaybeMarkAck(p: Parsed)
      requires Valid() && |p.raw| >= 16
      modifies this`rows, this`tries, this`watches, this`messages
      ensures Valid()
      ensures var (left, marked) := AckLoop.MarkAck(old(watches), p);
        && watches == left
        && messages == match marked
                       case Some(id) => OnMessage(old(messages), id, Acknowledge)
                       case None => old(messages)
    {
      hide Next, Coupled, Kept, AckLoop.IsAckKey;
      if p.objectType != OBJECT_MSG || p.version != 1 {
        return;
      }
      var key := p.raw[16..];
      if key !in watches {
        return;
      }
      var id := watches[key].0;
      AcknowledgeEffect(messages[id]);
      LookupMessage(id);
      KeptNext(messages[id], Acknowledge);
      watches := watches - {key};
      rows := SetStatus(rows, id, AckReceived);
      tries := tries - {id};
      Recouple(messages, old(rows), inFlight, old(tries), announcements, id, Next(messages[id], Acknowledge),
               rows, inFlight, tries, announcements);
      messages := messages[id := Next(messages[id], Acknowledge)];
    }

    /** Drops watches past their deadline; a message that was waiting for one of them has failed. */
    method PruneAckWatch(now: int) returns (pruned: nat)
      requires Valid()
      modifies this`rows, this`watches, this`messages
      ensures Valid()
      ensures watches == map key | key in old(watches) && old(watches)[key].1 >= now :: old(watches)[key]
      ensures pruned == |old(watches)| - |watches|
      ensures messages.Keys == old(messages.Keys)
      ensures forall id :: id in messages ==>
        messages[id] == Failed(old(messages)[id], id in Overdue(old(watches), now))
    {
      hide Valid, Next, Failed, Listed, Overdue;
      ghost var before := watches;
      var expired := ExpiredWatches(now);
      OverdueAreListed(before, now, expired);
      ExpiredAreKnown(expired);
      DropWatches(expired);
      LiveAreLeft(before, watches, now, expired);
      pruned := |expired|;
      FailUnacknowledged(expired);
    }

    lemma ExpiredAreKnown(expired: seq<(Bytes, Id)>)
      requires Valid()
      requires forall i :: 0 <= i < |expired| ==> expired[i].0 in watches && watches[expired[i].0].0 == expired[i].1
      ensures forall i :: 0 <= i < |expired| ==> expired[i].1 in messages
    {
    }

    method DropWatches(expired: seq<(Bytes, Id)>)
      requires Valid() && forall i :: 0 <= i < |expired| ==> expired[i].0 in watches
      requires forall i, j :: 0 <= i < j < |expired| ==> expired[i].0 != expired[j].0
      modifies this`watches
      ensures Valid() && |watches| == |old(watches)| - |expired|
      ensures forall key :: key in watches <==>
        key in old(watches) && forall j :: 0 <= j < |expired| ==> expired[j].0 != key
      ensures forall key :: key in watches ==> watches[key] == old(watches)[key]
    {
      hide Coupled, Kept, AckLoop.IsAckKey;
      for i := 0 to |expired|
        invariant Valid() && |watches| == |old(watches)| - i
        invariant forall key :: key in watches <==>
          key in old(watches) && forall j :: 0 <= j < i ==> expired[j].0 != key
        invariant forall key :: key in watches ==> watches[key] == old(watches)[key]
      {
        assert expired[i].0 in watches;
        watches := watches - {expired[i].0};
      }
    }

    /** The watches past their deadline, each once, with their messages. */
    method ExpiredWatches(now: int) returns (expired: seq<(Bytes, Id)>)
      ensures forall i :: 0 <= i < |expired| ==>
        expired[i].0 in watches && watches[expired[i].0].0 == expired[i].1 && watches[expired[i].0].1 < now
      ensures forall key :: key in watches && watches[key].1 < now ==> (key, watches[key].0) in expired
      ensures forall i, j :: 0 <= i < j < |expired| ==> expired[i].0 != expired[j].0
    {
      expired := [];
      var todo := watches.Keys;
      while todo != {}
        invariant todo <= watches.Keys
        invariant forall i :: 0 <= i < |expired| ==>
          && expired[i].0 in watches && expired[i].0 !in todo
          && watches[expired[i].0].0 == expired[i].1 && watches[expired[i].0].1 < now
        invariant forall key :: key in watches && key !in todo && watches[key].1 < now ==>
            (key, watches[key].0) in expired
        invariant forall i, j :: 0 <= i < j < |expired| ==> expired[i].0 != expired[j].0
        decreases |todo|
      {
        var key :| key in todo;
        todo := todo - {key};
        if watches[key].1 < now {
          expired := expired + [(key, watches[key].0)];
        }
      }
    }

    /** Messages still marked as sent when their watch ran out have failed. */
    method FailUnacknowledged(expired: seq<(Bytes, Id)>)
      requires Valid() && forall i :: 0 <= i < |expired| ==> expired[i].1 in messages
      modifies this`rows, this`messages
      ensures Valid() && messages.Keys == old(messages.Keys)
      ensures forall id :: id in messages ==>
        messages[id] == Failed(old(messages)[id], Listed(expired, |expired|, id))
    {
      hide Next, Coupled, Kept, Listed, AckLoop.IsAckKey;
      assert forall id :: !Listed(expired, 0, id) by { NoneListed(expired); }
      for i := 0 to |expired|
        invariant Valid() && messages.Keys == old(messages.Keys)
        invariant forall id :: id in messages ==> messages[id] == Failed(old(messages)[id], Listed(expired, i, id))
      {
        var id := expired[i].1;
        ghost var m := messages[id];
        ListedNext(expired, i);
        SettleEffect(old(messages)[id], AckFailed);
        LookupMessage(id);
        if id in rows && rows[id].status == Sent {
          SettleEffect(m, AckFailed);
          ghost var before := rows;
          rows := SetStatus(rows, id, AckFailed);
          KeptNext(m, Settle(AckFailed));
          Recouple(messages, before, inFlight, tries, announcements, id, Next(m, Settle(AckFailed)), rows, inFlight,
                   tries, announcements);
          messages := messages[id := Next(m, Settle(AckFailed))];
        }
      }
    }

    /** `UPDATE messages SET status='awaiting-pubkey' WHERE status='sending' AND timestamp < now - 600` */
    method RetryStuckSending(now: int)
      requires Valid()
      modifies this`rows, this`messages
      ensures Valid() && messages == OnAll(old(messages), old(messages.Keys), Unstick(now))
    {
      hide Next, Coupled, Kept, OnAll, AckLoop.IsAckKey;
      KeptAll(messages, messages.Keys, Unstick(now));
      UnstickAll(messages, rows, inFlight, tries, announcements, now);
      rows := map id | id in rows :: UnstickRow(rows[id], now);
      messages := OnAll(messages, messages.Keys, Unstick(now));
    }

    /** Deleting a conversation. Threads that are still at work keep their place in the machine. */
    method DeleteMessages(ids: set<Id>)
      requires Valid()
      modifies this`rows, this`expiries, this`messages
      ensures Valid() && messages == OnAll(old(messages), ids, Remove)
      ensures expiries == old(expiries) - ids
    {
      hide Next, Coupled, Kept, OnAll, AckLoop.IsAckKey;
      KeptAll(messages, ids, Remove);
      RemoveAll(messages, rows, inFlight, tries, announcements, ids);
      rows, expiries := rows - ids, expiries - ids;
      messages := OnAll(messages, ids, Remove);
    }
  }

  lemma OverdueAreListed(watches: map<Bytes, (Id, int)>, now: int, expired: seq<(Bytes, Id)>)
    requires forall i :: 0 <= i < |expired| ==>
      expired[i].0 in watches && watches[expired[i].0].0 == expired[i].1 && watches[expired[i].0].1 < now
    requires forall key :: key in watches && watches[key].1 < now ==> (key, watches[key].0) in expired
    ensures forall id :: id in Overdue(watches, now) <==> Listed(expired, |expired|, id)
  {
    forall id
      ensures id in Overdue(watches, now) <==> Listed(expired, |expired|, id)
    {
      if id in Overdue(watches, now) {
        var key :| key in watches && watches[key].1 < now && watches[key].0 == id;
        assert (key, id) in expired;
      }
    }
  }

  /** Without the expired watches, those that have not passed their deadline are left. */
  lemma LiveAreLeft(before: map<Bytes, (Id, int)>, after: map<Bytes, (Id, int)>, now: int, expired: seq<(Bytes, Id)>)
    requires forall i :: 0 <= i < |expired| ==> expired[i].0 in before && before[expired[i].0].1 < now
    requires forall key :: key in before && before[key].1 < now ==> (key, before[key].0) in expired
    requires forall key :: key in after <==> key in before && forall j :: 0 <= j < |expired| ==> expired[j].0 != key
    requires forall key :: key in after ==> after[key] == before[key]
    ensures after == map key | key in before && before[key].1 >= now :: before[key]
  {
    forall key | key in before
      ensures key in after <==> before[key].1 >= now
    {
      if before[key].1 < now {
        var j :| 0 <= j < |expired| && expired[j] == (key, before[key].0);
      }
    }
  }

  lemma ScanIsPickThenGate(m: Message, to: Recipient)
    requires m.row.Some? && m.row.value.status == AwaitingPubkey && m.enteredPaid == m.enteredUnpaid == 0
    ensures Run(m, ScanSteps(to)) == Run(Next(m, Pick), GateSteps(false, to))
    ensures AtGate(Next(m, Pick), false)
  {
    hide Run, GateSteps;
    PickEffect(m);
    RunOne(m, Pick);
    RunAppend(m, [Pick], GateSteps(false, to));
  }

  /** Marking an acknowledgement is the event of the machine, or nothing when it is no acknowledgement. */
  lemma MarkAckIsAckSeen(c: Delivery.Client, p: Parsed)
    requires |p.raw| >= 16
    ensures var (left, marked) := AckLoop.MarkAck(c.watches, p);
      var messages := if marked.Some? then OnMessage(c.messages, marked.value, Acknowledge) else c.messages;
      var c' := c.(watches := left, messages := messages);
      c' == c || c' == After(c, AckSeen(p.raw[16..]))
  {
    hide Next;
  }
}
