/** Outgoing messages (bmchat/core/client.py) as a state machine. Every lock section and every database
    statement of the sending, retrying and acknowledging code is one step, so a run is an arbitrary
    interleaving of the client's threads. */
module Delivery {
  import opened Bytes

  type Id = nat

  datatype Status = AwaitingPubkey | Sending | Sent | AckFailed | AckReceived

  datatype Row = Row(status: Status, created: int)

  const MAX_TRIES := 3
  const STUCK_AFTER := 600

  /** Everything the client holds about one message.
      row: its database row, gone once deleted; inFlight, tries: its entries in the tables guarded by the
      client's lock. The next fields count threads. picked: chose to publish the row without a retry slot
      (it is fresh, or the queue scan found it waiting); readers: read a status that allows a retry;
      claims: paid a retry slot; enteredPaid, enteredUnpaid: past the in-flight gate; workers: doing the
      proof of work; crashed: lost to an exception; publishing: past the final status check, not announced
      yet; closing: announced, not recorded as sent yet. The last three record what was observed.
      announced: announcements made; stale: unpaid publications begun although the row was not waiting or
      was just being published; acked: an acknowledgement was seen. */
  datatype Message = Message(
    row: Option<Row>, inFlight: bool, tries: nat,
    picked: nat, readers: nat, claims: nat, enteredPaid: nat, enteredUnpaid: nat, workers: nat, crashed: nat,
    publishing: nat, closing: nat, announced: nat, stale: nat, acked: bool)
  {
    predicate Waiting() {
      row.Some? && (row.value.status == AwaitingPubkey || row.value.status == Sending)
    }

    predicate Retryable() {
      Waiting() || (row.Some? && row.value.status == AckFailed)
    }

    /** Some thread is between the final check and recording the message as sent. */
    predicate Closing() {
      publishing + closing > 0
    }

    /** `UPDATE messages SET status=? WHERE id=?` */
    function WithStatus(status: Status): Message {
      if row.Some? then this.(row := Some(row.value.(status := status))) else this
    }

    /** Threads holding the in-flight mark. */
    function Holders(): nat {
      enteredPaid + enteredUnpaid + workers + crashed
    }

    /** The message is marked in flight exactly while one thread holds the mark, never more than one does,
        and its retries are bounded. */
    predicate Sound() {
      Holders() <= 1 && (inFlight <==> Holders() == 1) && tries <= 3
    }

    /** Announcements made, or still possible without another retry slot or another stale start. */
    function Spent(): nat {
      announced + publishing + claims + enteredPaid + (if !Waiting() then 0 else if !Closing() then 1 else workers)
    }

    predicate WithinBudget() {
      acked || Spent() <= 1 + tries + stale
    }
  }

  /** A message nothing has happened to yet in this process. */
  function Idle(row: Option<Row>): Message {
    Message(row, false, 0, 0, 0, 0, 0, 0, 0, 0, 0, 0, 0, 0, false)
  }

  datatype Step =
    | Pick
    | ReadRetryable
    | Claim
    | Requeue
    | Enter(paid: bool, ready: bool)
    | SetSending(paid: bool)
    | Check
    | Announce
    | RecordSent
    | Release
    | Crash
    | Settle(status: Status)
    | Acknowledge
    | Unstick(now: int)
    | Remove

  /** One step of one message; a step whose thread or row is not there does nothing. */
  function Next(m: Message, e: Step): Message {
    match e
    case Pick =>
      if m.row.Some? && m.row.value.status == AwaitingPubkey then m.(picked := m.picked + 1) else m
    case ReadRetryable =>
      if m.Retryable() then m.(readers := m.readers + 1) else m
    case Claim =>
      if m.readers == 0 then m
      else if m.tries >= MAX_TRIES then m.(readers := m.readers - 1)
      else m.(readers := m.readers - 1, tries := m.tries + 1, claims := m.claims + 1)
    case Requeue =>
      if m.claims == 0 then m else m.WithStatus(AwaitingPubkey).(claims := m.claims - 1)
    case Enter(paid, ready) =>
      if (if paid then m.claims else m.picked) == 0 then m
      else
        var left := if paid then m.(claims := m.claims - 1) else m.(picked := m.picked - 1);
        if !ready || m.inFlight then left
        else if paid then left.(inFlight := true, enteredPaid := m.enteredPaid + 1)
        else left.(inFlight := true, enteredUnpaid := m.enteredUnpaid + 1)
    case SetSending(paid) =>
      if (if paid then m.enteredPaid else m.enteredUnpaid) == 0 then m
      else if paid then m.WithStatus(Sending).(enteredPaid := m.enteredPaid - 1, workers := m.workers + 1)
      else
        var late := m.row.Some? && (!m.Waiting() || m.Closing());
        m.WithStatus(Sending).(enteredUnpaid := m.enteredUnpaid - 1, workers := m.workers + 1,
                               stale := if late then m.stale + 1 else m.stale)
    case Check =>
      if m.workers == 0 then m
      else m.(inFlight := false, workers := m.workers - 1,
              publishing := if m.Waiting() then m.publishing + 1 else m.publishing)
    case Announce =>
      if m.publishing == 0 then m
      else m.(publishing := m.publishing - 1, closing := m.closing + 1, announced := m.announced + 1)
    case RecordSent =>
      if m.closing == 0 then m else m.WithStatus(Sent).(closing := m.closing - 1)
    case Release =>
      if m.workers == 0 then m else m.(inFlight := false, workers := m.workers - 1)
    case Crash =>
      if m.workers == 0 then m else m.(workers := m.workers - 1, crashed := m.crashed + 1)
    case Settle(status) =>
      if status == AwaitingPubkey || status == Sending then m else m.WithStatus(status)
    case Acknowledge => m.WithStatus(AckReceived).(tries := 0, acked := true)
    case Unstick(now) =>
      if m.row.Some? && m.row.value.status == Sending && m.row.value.created < now - STUCK_AFTER
      then m.WithStatus(AwaitingPubkey) else m
    case Remove => m.(row := None)
  }

  function Run(m: Message, steps: seq<Step>): Message
    decreases |steps|
  {
    if steps == [] then m else Run(Next(m, steps[0]), steps[1..])
  }

  // ---- mutual exclusion and the announcement budget ------------------------------------

  lemma StepKeepsSound(m: Message, e: Step)
    requires m.Sound()
    ensures Next(m, e).Sound()
  {
  }

  lemma StepKeepsBudget(m: Message, e: Step)
    requires m.Sound() && m.WithinBudget()
    ensures Next(m, e).WithinBudget()
  {
  }

  lemma {:induction false} RunKeepsBudget(m: Message, steps: seq<Step>)
    requires m.Sound() && m.WithinBudget()
    ensures Run(m, steps).Sound() && Run(m, steps).WithinBudget()
    decreases |steps|
  {
    hide Next;
    if steps != [] {
      StepKeepsSound(m, steps[0]);
      StepKeepsBudget(m, steps[0]);
      RunKeepsBudget(Next(m, steps[0]), steps[1..]);
    }
  }

  lemma {:induction false} RunAppend(m: Message, a: seq<Step>, b: seq<Step>)
    ensures Run(m, a + b) == Run(Run(m, a), b)
    decreases |a|
  {
    hide Next;
    if a == [] {
      assert a + b == b;
    } else {
      assert (a + b)[0] == a[0] && (a + b)[1..] == a[1..] + b;
      RunAppend(Next(m, a[0]), a[1..], b);
    }
  }

  // ---- silence ------------------------------------------------------------------------

  /** Announcements no step can prevent any more. */
  function Committed(m: Message): nat {
    m.announced + m.publishing
  }

  /** The row is gone for good, or an exception has left the in-flight mark behind. */
  predicate Silenced(m: Message) {
    m.Sound() && (m.row.None? || m.crashed > 0)
  }

  lemma StepKeepsSilence(m: Message, e: Step)
    requires Silenced(m)
    ensures Silenced(Next(m, e)) && Committed(Next(m, e)) == Committed(m)
  {
  }

  /** Once its row is deleted, or its worker is lost to an exception, a message is announced only by threads
      that were already past the final status check. */
  lemma {:induction false} SilencedStaysSilent(m: Message, steps: seq<Step>)
    requires m.Sound() && (m.row.None? || m.crashed > 0)
    ensures m.announced <= Run(m, steps).announced <= m.announced + m.publishing
    ensures Silenced(Run(m, steps)) && Committed(Run(m, steps)) == Committed(m)
    decreases |steps|
  {
    if steps != [] {
      StepKeepsSilence(m, steps[0]);
      StepCountsUp(m, steps[0]);
      SilencedStaysSilent(Next(m, steps[0]), steps[1..]);
    }
  }

  lemma StepCountsUp(m: Message, e: Step)
    ensures m.announced <= Next(m, e).announced <= m.announced + 1
    ensures Next(m, e).announced > m.announced ==> e == Announce
  {
  }

  // ---- the bound is exact -------------------------------------------------------------

  const UNPAID_ROUND: seq<Step> := [Enter(false, true), SetSending(false), Check, Announce, RecordSent]
  const PAID_ROUND: seq<Step> :=
    [Settle(AckFailed), ReadRetryable, Claim, Enter(true, true), SetSending(true), Check, Announce, RecordSent]

  function Repeat(round: seq<Step>, n: nat): seq<Step> {
    if n == 0 then [] else round + Repeat(round, n - 1)
  }

  lemma RunOne(m: Message, e: Step)
    ensures Run(m, [e]) == Next(m, e)
  {
    hide Next;
    assert [e][1..] == [];
  }

  lemma Run3(m: Message, a: Step, b: Step, c: Step)
    ensures Run(m, [a, b, c]) == Next(Next(Next(m, a), b), c)
  {
    hide Next, Run;
    RunAppend(m, [a], [b, c]);
    RunAppend(Next(m, a), [b], [c]);
    RunOne(m, a);
    RunOne(Next(m, a), b);
    RunOne(Next(Next(m, a), b), c);
    assert [a] + [b, c] == [a, b, c] && [b] + [c] == [b, c];
  }

  lemma Run5(m: Message, a: Step, b: Step, c: Step, d: Step, e: Step)
    ensures Run(m, [a, b, c, d, e]) == Next(Next(Next(Next(Next(m, a), b), c), d), e)
  {
    hide Next, Run;
    RunAppend(m, [a, b], [c, d, e]);
    RunAppend(m, [a], [b]);
    assert [a, b] + [c, d, e] == [a, b, c, d, e] && [a] + [b] == [a, b];
    RunOne(m, a);
    RunOne(Next(m, a), b);
    Run3(Next(Next(m, a), b), c, d, e);
  }

  /** Nobody is at work on the message. */
  predicate Quiet(m: Message) {
    m.row.Some? && !m.inFlight && m.enteredPaid == m.enteredUnpaid == m.publishing == m.closing == 0
    && m.workers == 0 && m.claims == 0 && m.readers == 0
  }

  lemma StartUnpaid(m: Message)
    requires Quiet(m) && m.picked > 0
    ensures Next(Next(m, Enter(false, true)), SetSending(false)) ==
            m.WithStatus(Sending).(picked := m.picked - 1, inFlight := true, workers := 1,
                                   stale := if m.Waiting() then m.stale else m.stale + 1)
  {
  }

  lemma Publish(m: Message)
    requires m.Waiting() && m.workers == 1 && m.publishing == m.closing == 0
    ensures Next(Next(Next(m, Check), Announce), RecordSent) ==
            m.WithStatus(Sent).(inFlight := false, workers := 0, announced := m.announced + 1)
  {
  }

  lemma UnpaidRound(m: Message)
    requires Quiet(m) && m.picked > 0
    ensures Run(m, UNPAID_ROUND) ==
            m.WithStatus(Sent).(picked := m.picked - 1, announced := m.announced + 1,
                                stale := if m.Waiting() then m.stale else m.stale + 1)
  {
    hide Next, Run;
    StartUnpaid(m);
    Publish(Next(Next(m, Enter(false, true)), SetSending(false)));
    Run5(m, Enter(false, true), SetSending(false), Check, Announce, RecordSent);
  }

  lemma PaySlot(m: Message)
    requires Quiet(m) && m.tries < MAX_TRIES
    ensures Next(Next(Next(m, Settle(AckFailed)), ReadRetryable), Claim)
            == m.WithStatus(AckFailed).(tries := m.tries + 1, claims := 1)
  {
  }

  lemma StartPaid(m: Message)
    requires m.row.Some? && m.claims == 1 && !m.inFlight && m.enteredPaid == 0 && m.workers == 0
    ensures Next(Next(m, Enter(true, true)), SetSending(true))
            == m.WithStatus(Sending).(claims := 0, inFlight := true, workers := 1)
  {
  }

  lemma PaidRound(m: Message)
    requires Quiet(m) && m.tries < MAX_TRIES
    ensures Run(m, PAID_ROUND) == m.WithStatus(Sent).(tries := m.tries + 1, announced := m.announced + 1)
  {
    hide Next, Run;
    var pay, publish := [Settle(AckFailed), ReadRetryable, Claim],
                        [Enter(true, true), SetSending(true), Check, Announce, RecordSent];
    assert pay + publish == PAID_ROUND;
    RunAppend(m, pay, publish);
    Run3(m, Settle(AckFailed), ReadRetryable, Claim);
    PaySlot(m);
    var m1 := m.WithStatus(AckFailed).(tries := m.tries + 1, claims := 1);
    StartPaid(m1);
    Publish(Next(Next(m1, Enter(true, true)), SetSending(true)));
    Run5(m1, Enter(true, true), SetSending(true), Check, Announce, RecordSent);
  }

  lemma {:induction false} UnpaidRounds(m: Message, n: nat)
    requires Quiet(m) && m.picked >= n && !m.Waiting()
    ensures Run(m, Repeat(UNPAID_ROUND, n)) ==
            (if n == 0 then m else m.WithStatus(Sent)).(picked := m.picked - n, announced := m.announced + n,
                stale := m.stale + n)
    decreases n
  {
    hide Next;
    if n > 0 {
      UnpaidRound(m);
      RunAppend(m, UNPAID_ROUND, Repeat(UNPAID_ROUND, n - 1));
      UnpaidRounds(Run(m, UNPAID_ROUND), n - 1);
    }
  }

  lemma {:induction false} Picks(m: Message, n: nat)
    requires m.row.Some? && m.row.value.status == AwaitingPubkey
    ensures Run(m, Repeat([Pick], n)) == m.(picked := m.picked + n)
    decreases n
  {
    if n > 0 {
      RunAppend(m, [Pick], Repeat([Pick], n - 1));
      RunOne(m, Pick);
      Picks(Next(m, Pick), n - 1);
    }
  }

  lemma ThreePaidRounds(m: Message)
    requires Quiet(m) && m.tries == 0
    ensures Run(m, PAID_ROUND + PAID_ROUND + PAID_ROUND)
            == m.WithStatus(Sent).(tries := 3, announced := m.announced + 3)
  {
    hide Next;
    RunAppend(m, PAID_ROUND + PAID_ROUND, PAID_ROUND);
    RunAppend(m, PAID_ROUND, PAID_ROUND);
    PaidRound(m);
    PaidRound(Run(m, PAID_ROUND));
    PaidRound(Run(Run(m, PAID_ROUND), PAID_ROUND));
  }

  /** A run in which `n` queue scans have read the row as waiting before the first of them publishes it: each of
      the others announces the message again without paying, and the three retries come on top. */
  function StaleRun(n: nat): seq<Step> {
    Repeat([Pick], n) + UNPAID_ROUND + Repeat(UNPAID_ROUND, n) + (PAID_ROUND + PAID_ROUND + PAID_ROUND)
  }

  /** The bound is attained for every number of stale starts, so four announcements are not a bound: a fresh
      message can be announced five times before its first acknowledgement. */
  lemma BoundIsAttained(n: nat, created: int)
    ensures var m := Run(Idle(Some(Row(AwaitingPubkey, created))).(picked := 1), StaleRun(n));
      !m.acked && m.stale == n && m.announced == 4 + n
  {
    hide Next;
    var m0 := Idle(Some(Row(AwaitingPubkey, created))).(picked := 1);
    var picks, more, paid := Repeat([Pick], n), Repeat(UNPAID_ROUND, n), PAID_ROUND + PAID_ROUND + PAID_ROUND;
    RunAppend(m0, picks + UNPAID_ROUND + more, paid);
    RunAppend(m0, picks + UNPAID_ROUND, more);
    RunAppend(m0, picks, UNPAID_ROUND);
    Picks(m0, n);
    UnpaidRound(m0.(picked := 1 + n));
    UnpaidRounds(Run(m0, picks + UNPAID_ROUND), n);
    ThreePaidRounds(Run(m0, picks + UNPAID_ROUND + more));
  }

  /** A queue scan that publishes what it has just read, with nobody publishing meanwhile, is never stale. */
  lemma PromptScanIsNotStale(m: Message, ready: bool)
    requires !m.Closing() && m.picked == 0 && m.enteredUnpaid == 0
    ensures Run(m, [Pick, Enter(false, ready), SetSending(false)]).stale == m.stale
  {
    hide Run;
    Run3(m, Pick, Enter(false, ready), SetSending(false));
  }

  // ---- the whole client ---------------------------------------------------------------

  /** All messages of the process, also the deleted ones threads may still work on; ids are never reused. */
  datatype Client = Client(messages: map<Id, Message>, nextId: Id, watches: map<Bytes, (Id, int)>)

  datatype Event =
    | Insert(now: int, pubkeyKnown: bool)
    | On(id: Id, step: Step)
    | AddWatch(id: Id, key: Bytes, deadline: int)
    | DropWatches(keys: set<Bytes>)
    | AckSeen(key: Bytes)
    | RetryStuck(now: int)
    | Delete(ids: set<Id>)

  function OnMessage(messages: map<Id, Message>, id: Id, step: Step): map<Id, Message> {
    if id in messages then messages[id := Next(messages[id], step)] else messages
  }

  function OnAll(messages: map<Id, Message>, ids: set<Id>, step: Step): map<Id, Message> {
    map id | id in messages :: if id in ids then Next(messages[id], step) else messages[id]
  }

  function After(c: Client, e: Event): Client {
    match e
    case Insert(now, pubkeyKnown) =>
      var m := Idle(Some(Row(AwaitingPubkey, now)));
      c.(messages := c.messages[c.nextId := if pubkeyKnown then m.(picked := 1) else m], nextId := c.nextId + 1)
    case On(id, step) => c.(messages := OnMessage(c.messages, id, step))
    case AddWatch(id, key, deadline) => c.(watches := c.watches[key := (id, deadline)])
    case DropWatches(keys) => c.(watches := c.watches - keys)
    case AckSeen(key) =>
      if key !in c.watches then c
      else c.(watches := c.watches - {key}, messages := OnMessage(c.messages, c.watches[key].0, Acknowledge))
    case RetryStuck(now) => c.(messages := OnAll(c.messages, c.messages.Keys, Unstick(now)))
    case Delete(ids) => c.(messages := OnAll(c.messages, ids, Remove))
  }

  function History(c: Client, events: seq<Event>): Client
    decreases |events|
  {
    if events == [] then c else History(After(c, events[0]), events[1..])
  }

  /** A process that has just started, over whatever the database holds. */
  ghost predicate Started(c: Client) {
    forall id :: id in c.messages ==> id < c.nextId && exists row :: c.messages[id] == Idle(row)
  }

  ghost predicate Good(c: Client) {
    forall id :: id in c.messages ==> id < c.nextId && c.messages[id].Sound() && c.messages[id].WithinBudget()
  }

  lemma EventKeepsGood(c: Client, e: Event)
    requires Good(c)
    ensures Good(After(c, e))
  {
    hide Next;
    var d := After(c, e);
    forall id | id in d.messages
      ensures id < d.nextId && d.messages[id].Sound() && d.messages[id].WithinBudget()
    {
      if id in c.messages && d.messages[id] != c.messages[id] {
        var step := StepOf(c, e, id);
        StepKeepsSound(c.messages[id], step);
        StepKeepsBudget(c.messages[id], step);
      }
    }
  }

  /** What an event does to a message it touches. */
  lemma StepOf(c: Client, e: Event, id: Id) returns (step: Step)
    requires Good(c) && id in c.messages && After(c, e).messages[id] != c.messages[id]
    ensures After(c, e).messages[id] == Next(c.messages[id], step)
  {
    hide Next;
    match e
    case On(_, s) => step := s;
    case AckSeen(_) => step := Acknowledge;
    case RetryStuck(now) => step := Unstick(now);
    case Delete(_) => step := Remove;
    case _ => step := Pick;
  }

  lemma {:induction false} HistoryKeepsGood(c: Client, events: seq<Event>)
    requires Good(c)
    ensures Good(History(c, events))
    decreases |events|
  {
    hide After, Good;
    if events != [] {
      EventKeepsGood(c, events[0]);
      HistoryKeepsGood(After(c, events[0]), events[1..]);
    }
  }

  /** In any run of one process, up to its first acknowledgement a message is announced at most four times,
      plus once for each publication begun without a retry slot on a stale reading of its row. At every moment
      at most one worker handles it, and its in-flight mark is held exactly as long as a thread holds it. */
  lemma AnnouncementBound(c: Client, events: seq<Event>, id: Id)
    requires Started(c) && id in History(c, events).messages
    ensures var m := History(c, events).messages[id];
      && (m.acked || m.announced <= 4 + m.stale)
      && m.workers <= 1 && (m.inFlight <==> m.Holders() == 1)
  {
    HistoryKeepsGood(c, events);
  }

  // ---- when nothing is stale --------------------------------------------------------------

  /** The events of a client whose threads do not come between reading a row and publishing it, nor between the
      final check and recording the message as sent. */
  datatype Block =
    | Scan(id: Id, ready: bool)
    | SendNow(now: int, ready: bool)
    | Finish(id: Id)
    | Single(event: Event)

  /** The other events: no unpaid publication, and no part of a final check. */
  predicate IsOther(e: Event) {
    match e
    case Insert(_, pubkeyKnown) => !pubkeyKnown
    case On(_, step) => IsOtherStep(step)
    case _ => true
  }

  predicate IsOtherStep(step: Step) {
    match step
    case Pick => false
    case Enter(paid, _) => paid
    case SetSending(paid) => paid
    case Check => false
    case Announce => false
    case RecordSent => false
    case _ => true
  }

  function OnSteps(id: Id, steps: seq<Step>): seq<Event> {
    seq(|steps|, i requires 0 <= i < |steps| => On(id, steps[i]))
  }

  function BlockEvents(c: Client, b: Block): seq<Event> {
    match b
    case Scan(id, ready) => OnSteps(id, [Pick, Enter(false, ready), SetSending(false)])
    case SendNow(now, ready) => [Insert(now, true)] + OnSteps(c.nextId, [Enter(false, ready), SetSending(false)])
    case Finish(id) => OnSteps(id, [Check, Announce, RecordSent])
    case Single(e) => [e]
  }

  /** A run of blocks. */
  function Blocks(c: Client, blocks: seq<Block>): Client
    decreases |blocks|
  {
    if blocks == [] then c else Blocks(History(c, BlockEvents(c, blocks[0])), blocks[1..])
  }

  /** No thread is in between. */
  predicate Settled(m: Message) {
    m.picked == m.enteredUnpaid == m.publishing == m.closing == 0 && m.stale == 0
  }

  lemma {:induction false} HistoryAppend(c: Client, a: seq<Event>, b: seq<Event>)
    ensures History(c, a + b) == History(History(c, a), b)
    decreases |a|
  {
    hide After;
    if a == [] {
      assert a + b == b;
    } else {
      assert (a + b)[1..] == a[1..] + b;
      HistoryAppend(After(c, a[0]), a[1..], b);
    }
  }

  /** Steps of one message are a run of it and leave everything else alone. */
  lemma {:induction false} HistoryOfSteps(c: Client, id: Id, steps: seq<Step>)
    requires id in c.messages
    ensures History(c, OnSteps(id, steps)) == c.(messages := c.messages[id := Run(c.messages[id], steps)])
    decreases |steps|
  {
    hide Next;
    if steps == [] {
      assert c.messages[id := c.messages[id]] == c.messages;
    } else {
      var d := After(c, On(id, steps[0]));
      assert OnSteps(id, steps)[1..] == OnSteps(id, steps[1..]);
      HistoryOfSteps(d, id, steps[1..]);
      assert d.messages[id := Run(d.messages[id], steps[1..])] == c.messages[id := Run(c.messages[id], steps)];
    }
  }

  lemma {:induction false} HistoryOfNothing(c: Client, id: Id, steps: seq<Step>)
    requires id !in c.messages
    ensures History(c, OnSteps(id, steps)) == c
    decreases |steps|
  {
    if steps != [] {
      assert OnSteps(id, steps)[1..] == OnSteps(id, steps[1..]);
      HistoryOfNothing(c, id, steps[1..]);
    }
  }

  lemma ScanSettles(m: Message, ready: bool)
    requires Settled(m)
    ensures Settled(Run(m, [Pick, Enter(false, ready), SetSending(false)]))
  {
    hide Run;
    Run3(m, Pick, Enter(false, ready), SetSending(false));
  }

  lemma FinishSettles(m: Message)
    requires Settled(m)
    ensures Settled(Run(m, [Check, Announce, RecordSent]))
  {
    hide Run;
    Run3(m, Check, Announce, RecordSent);
  }

  lemma SendNowSettles(now: int, ready: bool)
    ensures Settled(Run(Idle(Some(Row(AwaitingPubkey, now))).(picked := 1), [Enter(false, ready), SetSending(false)]))
  {
    hide Run;
    var m := Idle(Some(Row(AwaitingPubkey, now))).(picked := 1);
    RunAppend(m, [Enter(false, ready)], [SetSending(false)]);
    RunOne(m, Enter(false, ready));
    RunOne(Next(m, Enter(false, ready)), SetSending(false));
    assert [Enter(false, ready)] + [SetSending(false)] == [Enter(false, ready), SetSending(false)];
  }

  lemma OtherStepSettles(m: Message, step: Step)
    requires Settled(m) && IsOtherStep(step)
    ensures Settled(Next(m, step))
  {
  }

  ghost predicate AllSettled(c: Client) {
    forall id :: id in c.messages ==> Settled(c.messages[id])
  }

  lemma OtherEventSettles(c: Client, e: Event)
    requires AllSettled(c) && IsOther(e)
    ensures AllSettled(After(c, e))
  {
    hide Next, Settled;
    match e {
      case Insert(now, _) => IdleSettled(Some(Row(AwaitingPubkey, now)));
      case On(id, step) => OthersSettle(c, step);
      case AckSeen(_) => OthersSettle(c, Acknowledge);
      case RetryStuck(now) => OthersSettle(c, Unstick(now));
      case Delete(_) => OthersSettle(c, Remove);
      case _ =>
    }
  }

  lemma IdleSettled(row: Option<Row>)
    ensures Settled(Idle(row))
  {
  }

  lemma OthersSettle(c: Client, step: Step)
    requires AllSettled(c) && IsOtherStep(step)
    ensures forall id :: id in c.messages ==> Settled(Next(c.messages[id], step))
  {
    hide Next, Settled, IsOtherStep;
    forall id | id in c.messages
      ensures Settled(Next(c.messages[id], step))
    {
      OtherStepSettles(c.messages[id], step);
    }
  }

  lemma BlockSettles(c: Client, b: Block)
    requires AllSettled(c) && (b.Single? ==> IsOther(b.event))
    ensures AllSettled(History(c, BlockEvents(c, b)))
  {
    hide Run, Next, Settled, After, OnSteps, IsOther;
    match b
    case Scan(id, ready) =>
      StepsSettle(c, id, [Pick, Enter(false, ready), SetSending(false)]) by {
        if id in c.messages {
          ScanSettles(c.messages[id], ready);
        }
      }
    case Finish(id) =>
      StepsSettle(c, id, [Check, Announce, RecordSent]) by {
        if id in c.messages {
          FinishSettles(c.messages[id]);
        }
      }
    case SendNow(now, ready) =>
      SendNowBlock(c, now, ready);
    case Single(e) =>
      OtherEventSettles(c, e);
      assert [e][1..] == [];
  }

  lemma StepsSettle(c: Client, id: Id, steps: seq<Step>)
    requires AllSettled(c) && (id in c.messages ==> Settled(Run(c.messages[id], steps)))
    ensures AllSettled(History(c, OnSteps(id, steps)))
  {
    hide Run, Settled, History;
    if id in c.messages {
      HistoryOfSteps(c, id, steps);
    } else {
      HistoryOfNothing(c, id, steps);
    }
  }

  lemma SendNowBlock(c: Client, now: int, ready: bool)
    requires AllSettled(c)
    ensures AllSettled(History(c, [Insert(now, true)] + OnSteps(c.nextId, [Enter(false, ready), SetSending(false)])))
  {
    hide Run, Next, Settled, OnSteps;
    var id, steps := c.nextId, [Enter(false, ready), SetSending(false)];
    HistoryAppend(c, [Insert(now, true)], OnSteps(id, steps));
    assert [Insert(now, true)][1..] == [];
    HistoryOfSteps(After(c, Insert(now, true)), id, steps);
    SendNowSettles(now, ready);
  }

  lemma {:induction false} BlocksSettle(c: Client, blocks: seq<Block>)
    requires AllSettled(c) && Good(c) && forall b :: b in blocks && b.Single? ==> IsOther(b.event)
    ensures AllSettled(Blocks(c, blocks)) && Good(Blocks(c, blocks))
    decreases |blocks|
  {
    hide History, AllSettled, Good, BlockEvents, IsOther;
    if blocks != [] {
      assert blocks[0] in blocks;
      BlockSettles(c, blocks[0]);
      HistoryKeepsGood(c, BlockEvents(c, blocks[0]));
      BlocksSettle(History(c, BlockEvents(c, blocks[0])), blocks[1..]);
    }
  }

  /** When every scan publishes what it has read before anyone else comes, every new message that is sent at once
      likewise, and every final check is followed through, nothing is stale: a message is announced at most four
      times before its first acknowledgement. */
  lemma FourAnnouncements(c: Client, blocks: seq<Block>, id: Id)
    requires Started(c) && (forall b :: b in blocks && b.Single? ==> IsOther(b.event))
    requires id in Blocks(c, blocks).messages
    ensures var m := Blocks(c, blocks).messages[id];
      m.stale == 0 && (m.acked || m.announced <= 4)
  {
    hide Blocks, IsOther;
    BlocksSettle(c, blocks);
  }

  /** In a whole client: for every n there is a history of a single new message that announces it 4 + n times. */
  lemma BoundIsAttainedByClient(n: nat, created: int)
    ensures var c := History(Client(map[], 0, map[]), [Insert(created, true)] + OnSteps(0, StaleRun(n)));
      0 in c.messages && var m := c.messages[0];
      !m.acked && m.stale == n && m.announced == 4 + n
  {
    hide Run, Next, OnSteps, StaleRun;
    var c := Client(map[], 0, map[]);
    HistoryAppend(c, [Insert(created, true)], OnSteps(0, StaleRun(n)));
    assert [Insert(created, true)][1..] == [];
    HistoryOfSteps(After(c, Insert(created, true)), 0, StaleRun(n));
    BoundIsAttained(n, created);
  }
}
