/**
 * The pub/sub manager: message tuples, the runnables' queue protocols, and the
 * manager's registry, broker and relay steps. Queues are sequences with a
 * `maxsize` (0 = unbounded); a blocking get or put that would time out is
 * modelled as the non-blocking one, since no other thread runs in the model.
 */
module PubSub {
  import opened Wrappers
  import opened Strings
  import opened TopicTree

  const PublishCode: int := 1
  const SubscribeCode: int := 2
  const UnsubscribeCode: int := 3

  /** `(1, sender, topic, payload)`, `(2, sender, topic)` and `(3, sender, topic)`. */
  datatype Msg<P> =
    | Publish(sender: string, topic: string, payload: P)
    | Subscribe(sender: string, topic: string)
    | Unsubscribe(sender: string, topic: string)

  function MessageType<P>(m: Msg<P>): (c: int)
    ensures c == PublishCode <==> m.Publish?
    ensures c == SubscribeCode <==> m.Subscribe?
    ensures c == UnsubscribeCode <==> m.Unsubscribe?
  {
    match m
    case Publish(_, _, _) => PublishCode
    case Subscribe(_, _) => SubscribeCode
    case Unsubscribe(_, _) => UnsubscribeCode
  }

  function GetSender<P>(m: Msg<P>): string { m.sender }
  function GetTopic<P>(m: Msg<P>): string { m.topic }

  /** `getPayload`: None for the 3-tuples. */
  function GetPayload<P>(m: Msg<P>): (r: Option<P>)
    ensures r.None? <==> !m.Publish?
  {
    if m.Publish? then Some(m.payload) else None
  }

  /** `PubSubMsg.Message(topic, payload, name)`. */
  function Message<P>(topic: string, payload: P, name: string): (m: Msg<P>)
    ensures MessageType(m) == PublishCode && GetSender(m) == name && GetTopic(m) == topic && GetPayload(m) == Some(payload)
  {
    Publish(name, topic, payload)
  }

  /** `PubSubMsg.Subscribe(topic, name)`. */
  function SubscribeMsg<P>(topic: string, name: string): (m: Msg<P>)
    ensures MessageType(m) == SubscribeCode && GetSender(m) == name && GetTopic(m) == topic && GetPayload(m).None?
  {
    Subscribe(name, topic)
  }

  /** `PubSubMsg.Unsubscribe(topic, name)`. */
  function UnsubscribeMsg<P>(topic: string, name: string): (m: Msg<P>)
    ensures MessageType(m) == UnsubscribeCode && GetSender(m) == name && GetTopic(m) == topic && GetPayload(m).None?
  {
    Unsubscribe(name, topic)
  }

  /** `filterMessages(messages, topics)`: the messages whose topic is one of `topics`, exactly. */
  function FilterMessages<P>(messages: seq<Msg<P>>, topics: seq<string>): (r: seq<Msg<P>>)
    ensures |r| <= |messages|
    ensures forall k :: 0 <= k < |r| ==> r[k] in messages && GetTopic(r[k]) in topics
    ensures forall m :: m in messages && GetTopic(m) in topics ==> m in r
  {
    if messages == [] then []
    else (if GetTopic(messages[0]) in topics then [messages[0]] else []) + FilterMessages(messages[1..], topics)
  }

  /** Filtering distributes over concatenation, so the kept messages stay in order. */
  lemma {:induction false} FilterAppend<P>(a: seq<Msg<P>>, b: seq<Msg<P>>, topics: seq<string>)
    ensures FilterMessages(a + b, topics) == FilterMessages(a, topics) + FilterMessages(b, topics)
  {
    if a != [] {
      assert (a + b)[1..] == a[1..] + b;
      FilterAppend(a[1..], b, topics);
    } else {
      assert a + b == b;
    }
  }

  /** A `Queue`: its contents, oldest first, and its `maxsize` (0 for unbounded). */
  class Channel<T> {
    var items: seq<T>
    const maxsize: nat

    constructor(capacity: nat)
      ensures items == [] && maxsize == capacity
    {
      items := [];
      maxsize := capacity;
    }

    predicate Full()
      reads this
    {
      IsFull(items, maxsize)
    }

    /** `put(x)`: appends unless full (`queue.Full`). */
    method Put(x: T) returns (ok: bool)
      modifies this
      ensures ok == !old(Full())
      ensures items == if ok then old(items) + [x] else old(items)
    {
      ok := !Full();
      if ok {
        items := items + [x];
      }
    }

    /** `get()`: the oldest item, or None for `queue.Empty`. */
    method Get() returns (r: Option<T>)
      modifies this
      ensures old(items) == [] ==> r.None? && items == []
      ensures old(items) != [] ==> r == Some(old(items)[0]) && items == old(items)[1..]
    {
      if items == [] {
        r := None;
      } else {
        r := Some(items[0]);
        items := items[1..];
      }
    }

    /** `while not q.empty(): q.get()`. */
    method Drain()
      modifies this
      ensures items == []
    {
      while items != []
        decreases |items|
      {
        var _ := Get();
      }
    }
  }

  /** A `threading.Event` / `multiprocessing.Event`. */
  class Event {
    var flag: bool

    constructor()
      ensures !flag
    {
      flag := false;
    }

    method Set()
      modifies this
      ensures flag
    {
      flag := true;
    }
  }

  /** A `ManagedPubSubRunnable`: its name, its three queues and the shared exit event. */
  class Runnable<P> {
    const name: string
    const pubSubInput: Channel<Msg<P>>
    const pubSubOutput: Channel<Msg<P>>
    const cmdInput: Channel<bool>
    const exitEvent: Event?

    constructor(name: string, cmdInput: Channel<bool>, pubSubInput: Channel<Msg<P>>, pubSubOutput: Channel<Msg<P>>, exitEvent: Event?)
      ensures this.name == name && this.cmdInput == cmdInput && this.pubSubInput == pubSubInput
      ensures this.pubSubOutput == pubSubOutput && this.exitEvent == exitEvent
    {
      this.name := name;
      this.cmdInput := cmdInput;
      this.pubSubInput := pubSubInput;
      this.pubSubOutput := pubSubOutput;
      this.exitEvent := exitEvent;
    }

    /** `publish(topic, payload)`: True when the message was queued for the broker. */
    method PublishTo(topic: string, payload: P) returns (ok: bool)
      modifies pubSubOutput
      ensures ok == !old(pubSubOutput.Full())
      ensures pubSubOutput.items == if ok then old(pubSubOutput.items) + [Message(topic, payload, name)] else old(pubSubOutput.items)
    {
      ok := pubSubOutput.Put(Message(topic, payload, name));
    }

    /**
     * `subscribe(topic, ensureReply=...)` (and `unsubscribe` with `subscribe` false):
     * False when the request cannot be queued; True without waiting unless a reply is
     * wanted; else the reply waiting in the command queue, False when there is none.
     */
    method Request(topic: string, subscribe: bool, ensureReply: bool) returns (ok: bool)
      modifies pubSubOutput, cmdInput
      ensures var m := if subscribe then SubscribeMsg(topic, name) else UnsubscribeMsg(topic, name);
        pubSubOutput.items == if old(pubSubOutput.Full()) then old(pubSubOutput.items) else old(pubSubOutput.items) + [m]
      ensures old(pubSubOutput.Full()) ==> !ok && cmdInput.items == old(cmdInput.items)
      ensures !old(pubSubOutput.Full()) && !ensureReply ==> ok && cmdInput.items == old(cmdInput.items)
      ensures !old(pubSubOutput.Full()) && ensureReply ==>
        (if old(cmdInput.items) == [] then !ok && cmdInput.items == []
         else ok == old(cmdInput.items)[0] && cmdInput.items == old(cmdInput.items)[1..])
    {
      var m := if subscribe then SubscribeMsg(topic, name) else UnsubscribeMsg(topic, name);
      var sent := pubSubOutput.Put(m);
      if !sent {
        return false;
      }
      if !ensureReply {
        return true;
      }
      var reply := cmdInput.Get();
      ok := reply.Some? && reply.value;
    }

    /**
     * `getMessages()`: tries `max(qsize, 1)` gets and stops at the first `Empty`;
     * with nothing else running, that takes every queued message in FIFO order.
     */
    method GetMessages() returns (messages: seq<Msg<P>>)
      modifies pubSubInput
      ensures messages == old(pubSubInput.items) && pubSubInput.items == []
    {
      messages := [];
      var approx := if |pubSubInput.items| > 1 then |pubSubInput.items| else 1;
      ghost var all := pubSubInput.items;
      for i := 0 to approx
        invariant all == messages + pubSubInput.items
        invariant |messages| == i || pubSubInput.items == []
        invariant |messages| <= i
      {
        var r := pubSubInput.Get();
        if r.None? {
          assert messages + [] == messages;
          return;
        }
        messages := messages + [r.value];
      }
      assert |messages| == |all| && all == messages + pubSubInput.items;
    }

    /** `doExit()`: sets the exit event. */
    method DoExit()
      requires exitEvent != null
      modifies exitEvent
      ensures exitEvent.flag
    {
      exitEvent.Set();
    }

    /** `isExit()`: False without an exit event, else whether it is set. */
    predicate IsExit()
      reads this, exitEvent
    {
      exitEvent != null && exitEvent.flag
    }
  }

  datatype Kind = ThreadKind | ProcessKind

  /** One `executables[name]` entry: the runnable and its input, output and command queues. */
  datatype Entry<P> = Entry(kind: Kind, executable: Runnable<P>, input: Channel<Msg<P>>, output: Channel<Msg<P>>, command: Channel<bool>)

  /** The name `add_thread` / `add_process` gives an unnamed runnable: `Executable-{n+1}-t` / `-p`. */
  function DefaultName(count: nat, kind: Kind): string
  {
    "Executable-" + NatToString(count + 1) + (if kind == ThreadKind then "-t" else "-p")
  }

  /** Grow by one node: the walk of `addSubscriber` one segment further. */
  lemma GrowStep(t: Tree, q: Path, x: string)
    requires TopicTree.Valid(t) && NoSep(q + [x], '/')
    ensures NoSep(q, '/')
    ensures var g := Grow(t, q); Grow(t, q + [x]) == if q + [x] in g then g else g[q + [x] := {}]
  {
    NoSepInit(q, x, '/');
    var g := Grow(t, q);
    var g2 := Grow(t, q + [x]);
    var h := if q + [x] in g then g else g[q + [x] := {}];
    forall p
      ensures p in g2 <==> p in h
    {
      PrefixOfSnoc(p, q, x);
    }
    assert g2.Keys == h.Keys;
    forall p | p in g2
      ensures g2[p] == h[p]
    {
    }
  }

  /** `GrowStep` at the `i`-th segment of the walk along `parts`. */
  lemma GrowStepAt(t: Tree, parts: Path, i: nat)
    requires TopicTree.Valid(t) && NoSep(parts, '/') && i < |parts|
    ensures NoSep(parts[..i], '/') && NoSep(parts[..i + 1], '/')
    ensures var g := Grow(t, parts[..i]); var q := parts[..i + 1];
      Grow(t, q) == if q in g then g else g[q := {}]
  {
    assert parts[..i + 1] == parts[..i] + [parts[i]];
    NoSepTake(parts, i + 1, '/');
    GrowStep(t, parts[..i], parts[i]);
  }

  lemma NoSepTake(parts: Path, n: nat, sep: char)
    requires NoSep(parts, sep) && n <= |parts|
    ensures NoSep(parts[..n], sep)
  {
    forall i | 0 <= i < n
      ensures sep !in parts[..n][i]
    {
      assert parts[..n][i] == parts[i];
    }
  }

  lemma NoSepInit(q: Path, x: string, sep: char)
    requires NoSep(q + [x], sep)
    ensures NoSep(q, sep)
  {
    forall i | 0 <= i < |q|
      ensures sep !in q[i]
    {
      assert q[i] == (q + [x])[i];
    }
  }

  lemma PrefixOfSnoc(p: Path, q: Path, x: string)
    ensures IsPrefix(p, q + [x]) <==> IsPrefix(p, q) || p == q + [x]
  {
    if |p| <= |q| {
      assert (q + [x])[..|p|] == q[..|p|];
    }
    if |p| == |q| + 1 {
      assert (q + [x])[..|p|] == q + [x];
    }
  }

  /**
   * The walk of `addSubscriber` down the topic's path: each missing node is created
   * with no subscribers. The empty topic stays at the root.
   */
  method WalkCreating(t0: Tree, topic: string) returns (t: Tree)
    requires TopicTree.Valid(t0)
    ensures t == Grow(t0, TargetPath(topic))
  {
    var parts := ParseTopic(topic);
    t := t0;
    GrowRoot(t0);
    if parts != [""] {
      var i := 0;
      while i < |parts|
        invariant i <= |parts| && NoSep(parts[..i], '/')
        invariant t == Grow(t0, parts[..i])
        decreases |parts| - i
      {
        GrowStepAt(t0, parts, i);
        if parts[..i + 1] !in t {
          t := t[parts[..i + 1] := {}];
        }
        i := i + 1;
      }
      assert parts[..i] == TargetPath(topic);
    }
  }

  lemma GrowRoot(t: Tree)
    requires TopicTree.Valid(t)
    ensures Grow(t, []) == t
  {
    assert Grow(t, []).Keys == t.Keys;
  }

  predicate Drained<P>(e: Entry<P>)
    reads e.input, e.output, e.command
  {
    e.input.items == [] && e.output.items == [] && e.command.items == []
  }

  /** Drains one entry's input, output and command queues. */
  method DrainEntry<P>(e: Entry<P>)
    modifies e.input, e.output, e.command
    ensures Drained(e)
  {
    e.input.Drain();
    e.output.Drain();
    e.command.Drain();
  }

  /** No two entries share an input queue or a command queue. */
  predicate OwnQueues<P>(entries: map<string, Entry<P>>)
  {
    forall n1, n2 :: n1 in entries && n2 in entries && n1 != n2 ==>
      entries[n1].input != entries[n2].input && entries[n1].command != entries[n2].command
  }

  /** Registering (or replacing) an entry whose queues no other entry has keeps the queues owned. */
  lemma OwnQueuesAdd<P>(entries: map<string, Entry<P>>, name: string, e: Entry<P>)
    requires OwnQueues(entries)
    requires forall n :: n in entries && n != name ==> entries[n].input != e.input && entries[n].command != e.command
    ensures OwnQueues(entries[name := e])
  {
  }

  /** Every queue of every entry. */
  function QueuesOf<P>(entries: map<string, Entry<P>>): set<object>
  {
    (set n | n in entries :: entries[n].input as object)
      + (set n | n in entries :: entries[n].output as object)
      + (set n | n in entries :: entries[n].command as object)
  }

  /** Drains the entries one at a time in any order; a queue shared by several entries stays empty. */
  method DrainAll<P>(entries: map<string, Entry<P>>)
    modifies QueuesOf(entries)
    ensures forall n :: n in entries ==> Drained(entries[n])
  {
    var rest := entries.Keys;
    while rest != {}
      invariant rest <= entries.Keys
      invariant forall n :: n in entries && n !in rest ==> Drained(entries[n])
      decreases rest
    {
      var n :| n in rest;
      DrainEntry(entries[n]);
      rest := rest - {n};
    }
  }

  /** The first try block of the unsubscribe branch: True, False, or (when `set.remove` raises) the `result` left over from before. */
  function UnsubscribeReply(r: RemoveOutcome, stale: Option<bool>): Option<bool>
  {
    match r
    case RemovedOk => Some(true)
    case NoSuchTopic => Some(false)
    case RemoveRaised => stale
  }

  /** The topic tree after the broker handles `m` from a sender that is (`known`) or is not registered. */
  function TreeAfter<P>(t: Tree, m: Msg<P>, known: bool): (r: Tree)
    requires TopicTree.Valid(t)
    ensures TopicTree.Valid(r)
  {
    if !known then t
    else match m
      case Publish(_, _, _) => t
      case Subscribe(s, topic) => AddSub(t, topic, s)
      case Unsubscribe(s, topic) => RemoveSub(t, topic, s).1
  }

  /** The reply the broker puts on the sender's command queue for `m`, if any. */
  function ReplyFor<P>(t: Tree, m: Msg<P>, known: bool, stale: Option<bool>): Option<bool>
    requires TopicTree.Valid(t)
  {
    if !known then None
    else match m
      case Publish(_, _, _) => None
      case Subscribe(_, _) => Some(true)
      case Unsubscribe(s, topic) => UnsubscribeReply(RemoveSub(t, topic, s).0, stale)
  }

  /** A queue bounded by `maxsize` (0 = unbounded) is full at `maxsize` items. */
  predicate IsFull<T>(items: seq<T>, maxsize: nat)
  {
    maxsize > 0 && |items| >= maxsize
  }

  /** A non-blocking `put` on a queue of capacity `maxsize`: appended unless the queue was full. */
  function PutResult<T>(items: seq<T>, maxsize: nat, x: Option<T>): seq<T>
  {
    if x.Some? && !IsFull(items, maxsize) then items + [x.value] else items
  }

  /**
   * A non-blocking `put` of `x` on the queue of each name in `names`, in any order;
   * the queues of the other names do not change.
   */
  method PutEach<T>(queues: map<string, Channel<T>>, names: set<string>, x: T)
    requires forall n1, n2 :: n1 in queues && n2 in queues && n1 != n2 ==> queues[n1] != queues[n2]
    modifies set n | n in queues :: queues[n]
    ensures forall n :: n in queues ==>
      queues[n].items == PutResult(old(queues[n].items), queues[n].maxsize, if n in names then Some(x) else None)
  {
    var rest := names;
    while rest != {}
      invariant rest <= names
      invariant forall n :: n in queues ==>
        queues[n].items == PutResult(old(queues[n].items), queues[n].maxsize, if n in names - rest then Some(x) else None)
      decreases rest
    {
      var name :| name in rest;
      if name in queues {
        var _ := queues[name].Put(x);
      }
      rest := rest - {name};
    }
  }

  /** A non-blocking `put` of `x`, when there is one, on the queue of `name` alone. */
  method PutOne<T>(queues: map<string, Channel<T>>, name: string, x: Option<T>)
    requires forall n1, n2 :: n1 in queues && n2 in queues && n1 != n2 ==> queues[n1] != queues[n2]
    modifies set n | n in queues :: queues[n]
    ensures forall n :: n in queues ==>
      queues[n].items == PutResult(old(queues[n].items), queues[n].maxsize, if n == name then x else None)
  {
    if x.Some? && name in queues {
      var _ := queues[name].Put(x.value);
    }
  }

  /** The broker's answer to an unsubscribe is True exactly when the sender was subscribed at the topic's node. */
  lemma UnsubscribeReplyIff<P>(t: Tree, s: string, topic: string, stale: Option<bool>)
    requires TopicTree.Valid(t)
    ensures var q := TargetPath(topic);
      (q in t && s in t[q] ==> ReplyFor(t, Msg<P>.Unsubscribe(s, topic), true, stale) == Some(true))
      && (q !in t ==> ReplyFor(t, Msg<P>.Unsubscribe(s, topic), true, stale) == Some(false))
  {
  }

  /** A registered subscriber is answered True, and its later publishes under the topic reach it. */
  lemma SubscribeThenPublish<P>(t: Tree, s: string, topic: string, published: string, stale: Option<bool>)
    requires TopicTree.Valid(t) && IsPrefix(TargetPath(topic), ParseTopic(published))
    ensures ReplyFor(t, Msg<P>.Subscribe(s, topic), true, stale) == Some(true)
    ensures s in Targets(TreeAfter(t, Msg<P>.Subscribe(s, topic), true), published)
  {
    AddedReceives(t, topic, s, published);
  }

  /** The `PubSubManager`: the topic tree, the registered runnables, the two message queues and exit events. */
  class PubSubManager<P> {
    var channels: Tree
    var executables: map<string, Entry<P>>
    const threadMessageQueue: Channel<Msg<P>>
    const processMessageQueue: Channel<Msg<P>>
    const threadExitEvent: Event
    const processExitEvent: Event

    /**
     * The registry invariant: a well-formed tree; each entry's queues are those of its
     * runnable, its output is the shared queue of its kind, and its input and command
     * queues belong to it alone.
     */
    predicate Valid()
      reads this
    {
      && TopicTree.Valid(channels)
      && threadMessageQueue != processMessageQueue
      && threadExitEvent != processExitEvent
      && Registered(executables)
    }

    /** Every entry is wired to this manager's queues and events, and owns its input and command queues. */
    predicate Registered(entries: map<string, Entry<P>>)
    {
      (forall n :: n in entries ==> EntryValid(entries[n])) && OwnQueues(entries)
    }

    predicate EntryValid(e: Entry<P>)
    {
      && e.input != threadMessageQueue && e.input != processMessageQueue
      && e.output == (if e.kind == ThreadKind then threadMessageQueue else processMessageQueue)
      && e.executable.pubSubInput == e.input && e.executable.pubSubOutput == e.output
      && e.executable.cmdInput == e.command
      && e.executable.exitEvent == (if e.kind == ThreadKind then threadExitEvent else processExitEvent)
    }

    constructor()
      ensures Valid() && channels == Empty() && executables == map[]
      ensures threadMessageQueue.items == [] && threadMessageQueue.maxsize == 0
      ensures processMessageQueue.items == [] && processMessageQueue.maxsize == 0
      ensures !threadExitEvent.flag && !processExitEvent.flag
      ensures fresh(threadMessageQueue) && fresh(processMessageQueue) && fresh(threadExitEvent) && fresh(processExitEvent)
    {
      channels := Empty();
      executables := map[];
      threadMessageQueue := new Channel(0);
      processMessageQueue := new Channel(0);
      threadExitEvent := new Event();
      processExitEvent := new Event();
    }

    /**
     * `add_thread(name=...)` and `add_process(name=...)`: a fresh unbounded input queue and a
     * command queue of capacity 1; an empty name takes the default one; a name already
     * registered is overwritten. Always True.
     */
    method Add(name: string, kind: Kind) returns (ok: bool, registered: string)
      requires Valid()
      modifies this
      ensures Valid() && ok && channels == old(channels)
      ensures registered == if name != "" then name else DefaultName(|old(executables)|, kind)
      ensures executables.Keys == old(executables).Keys + {registered}
      ensures forall n :: n in old(executables) && n != registered ==> executables[n] == old(executables)[n]
      ensures var e := executables[registered];
        && e.kind == kind && fresh(e.input) && fresh(e.command) && fresh(e.executable)
        && e.input.items == [] && e.input.maxsize == 0
        && e.command.items == [] && e.command.maxsize == 1
        && e.executable.name == registered
    {
      var inQ := new Channel<Msg<P>>(0);
      var cmdQ := new Channel<bool>(1);
      var outQ := if kind == ThreadKind then threadMessageQueue else processMessageQueue;
      var exitEvent := if kind == ThreadKind then threadExitEvent else processExitEvent;
      registered := if name != "" then name else DefaultName(|executables|, kind);
      var r := new Runnable(registered, cmdQ, inQ, outQ, exitEvent);
      OwnQueuesAdd(executables, registered, Entry(kind, r, inQ, outQ, cmdQ));
      executables := executables[registered := Entry(kind, r, inQ, outQ, cmdQ)];
      ok := true;
    }

    /** `exit_all()`: sets both exit events (setting a set event changes nothing). */
    method ExitAll()
      modifies threadExitEvent, processExitEvent
      ensures threadExitEvent.flag && processExitEvent.flag
    {
      if !threadExitEvent.flag {
        threadExitEvent.Set();
      }
      if !processExitEvent.flag {
        processExitEvent.Set();
      }
    }

    function Queues(): set<object>
      reads this
    {
      QueuesOf(executables)
    }

    /** `join_all()` after the runnables have ended: every entry's three queues are drained. */
    method JoinAll() returns (ok: bool)
      requires Valid()
      modifies Queues()
      ensures ok && forall n :: n in executables ==> Drained(executables[n])
    {
      DrainAll(executables);
      ok := true;
    }
  
    /** `getTopicTargets(topic)`: walks the parsed topic from the root, collecting subscribers, until a node is missing. */
    method GetTopicTargets(topic: string) returns (targets: set<string>)
      requires Valid()
      ensures targets == Targets(channels, topic)
    {
      targets := channels[[]];
      var parts := ParseTopic(topic);
      var i := 0;
      assert parts[..0] == [];
      while i < |parts|
        invariant i <= |parts| && parts[..i] in channels
        invariant forall j :: 0 <= j <= i ==> parts[..j] in channels
        invariant Reach(channels, parts, i) == Reach(channels, parts, 0)
        invariant targets == UnionAlong(channels, parts, i)
        decreases |parts| - i
      {
        if parts[..i + 1] in channels {
          targets := targets + channels[parts[..i + 1]];
          i := i + 1;
        } else {
          break;
        }
      }
    }

    /** `addSubscriber(topic, subscriber)`: creates the missing nodes on the walk, then adds the subscriber. */
    method AddSubscriber(topic: string, subscriber: string) returns (ok: bool)
      requires Valid()
      modifies this
      ensures Valid() && ok && executables == old(executables)
      ensures channels == AddSub(old(channels), topic, subscriber)
    {
      var q := TargetPath(topic);
      var t := WalkCreating(channels, topic);
      channels := t[q := t[q] + {subscriber}];
      ok := true;
    }

    /**
     * `removeSubscriber(topic, subscriber)`: False at the first missing node; at the
     * node, `set.remove` raises when the subscriber is absent.
     */
    method RemoveSubscriber(topic: string, subscriber: string) returns (r: RemoveOutcome)
      requires Valid()
      modifies this
      ensures Valid() && executables == old(executables)
      ensures (r, channels) == RemoveSub(old(channels), topic, subscriber)
    {
      var parts := ParseTopic(topic);
      var q := TargetPath(topic);
      if parts != [""] {
        var i := 0;
        while i < |parts|
          invariant i <= |parts| && parts[..i] in channels
          decreases |parts| - i
        {
          if parts[..i + 1] !in channels {
            if q in channels {
              PrefixClosed(channels, q, i + 1);
            }
            return NoSuchTopic;
          }
          i := i + 1;
        }
        assert parts[..i] == q;
      }
      if subscriber !in channels[q] {
        return RemoveRaised;
      }
      channels := channels[q := channels[q] - {subscriber}];
      r := RemovedOk;
    }
  
    function Inputs(): set<object>
      reads this
    {
      set n | n in executables :: executables[n].input as object
    }

    function Commands(): set<object>
      reads this
    {
      set n | n in executables :: executables[n].command as object
    }

    /**
     * The broker's publish branch: a non-blocking put of `m` on the input queue of each
     * target that is registered and alive; a full queue drops the message.
     */
    method BrokerPublish(m: Msg<P>, alive: set<string>)
      requires Valid() && m.Publish?
      modifies Inputs()
      ensures forall n :: n in executables ==>
        executables[n].input.items == PutResult(old(executables[n].input.items), executables[n].input.maxsize,
          if n in Targets(channels, m.topic) && n in alive then Some(m) else None)
    {
      var targets := GetTopicTargets(GetTopic(m));
      var inputs := map n | n in executables :: executables[n].input;
      PutEach(inputs, targets * alive, m);
      assert executables == old(executables);
      assert forall n :: n in executables ==> executables[n].input == inputs[n];
      assert targets == Targets(channels, m.topic);
    }

    /** The tree update of a subscribe or unsubscribe branch, and the reply it produces. */
    method Request(m: Msg<P>, stale: Option<bool>) returns (result: Option<bool>)
      requires Valid() && !m.Publish?
      modifies this
      ensures Valid() && executables == old(executables)
      ensures channels == TreeAfter(old(channels), m, true)
      ensures result == ReplyFor(old(channels), m, true, stale)
    {
      if m.Subscribe? {
        var ok := AddSubscriber(GetTopic(m), GetSender(m));
        result := Some(ok);
      } else {
        var r := RemoveSubscriber(GetTopic(m), GetSender(m));
        result := UnsubscribeReply(r, stale);
      }
    }

    /**
     * The subscribe and unsubscribe branches: for a registered sender, update the tree
     * and put the reply on its command queue without blocking (dropped when full).
     */
    method BrokerRequest(m: Msg<P>, stale: Option<bool>)
      requires Valid() && !m.Publish?
      modifies this, Commands()
      ensures Valid() && executables == old(executables)
      ensures channels == TreeAfter(old(channels), m, m.sender in executables)
      ensures forall n :: n in executables ==>
        executables[n].command.items == PutResult(old(executables[n].command.items), executables[n].command.maxsize,
          if n == m.sender then ReplyFor(old(channels), m, true, stale) else None)
    {
      var subscriber := GetSender(m);
      if subscriber !in executables {
        return;
      }
      var commands := map n | n in executables :: executables[n].command;
      var result := Request(m, stale);
      PutOne(commands, subscriber, result);
      forall n | n in executables
        ensures executables[n].command.items == PutResult(old(executables[n].command.items), executables[n].command.maxsize,
          if n == m.sender then result else None)
      {
        assert executables[n].command == commands[n];
      }
    }
  
    /**
     * One pass of the broker loop. When either exit event is set the loop ends and both
     * events are set. Otherwise the oldest message of the thread queue, if any, is taken
     * and handled; `alive` names the runnables whose `is_alive()` holds.
     */
    method BrokerStep(alive: set<string>, stale: Option<bool>) returns (running: bool)
      requires Valid()
      modifies this, threadMessageQueue, threadExitEvent, processExitEvent, Inputs(), Commands()
      ensures Valid() && executables == old(executables)
      ensures running == !(old(threadExitEvent.flag) || old(processExitEvent.flag))
      ensures !running ==> threadExitEvent.flag && processExitEvent.flag
      ensures running ==> threadExitEvent.flag == old(threadExitEvent.flag) && processExitEvent.flag == old(processExitEvent.flag)
      ensures !running || old(threadMessageQueue.items) == [] ==>
        && channels == old(channels) && threadMessageQueue.items == old(threadMessageQueue.items)
        && (forall n :: n in executables ==> executables[n].input.items == old(executables[n].input.items))
        && (forall n :: n in executables ==> executables[n].command.items == old(executables[n].command.items))
      ensures running && old(threadMessageQueue.items) != [] ==>
        var m := old(threadMessageQueue.items)[0];
        && threadMessageQueue.items == old(threadMessageQueue.items)[1..]
        && channels == TreeAfter(old(channels), m, m.sender in executables)
        && (forall n :: n in executables ==>
              executables[n].input.items == PutResult(old(executables[n].input.items), executables[n].input.maxsize,
                if m.Publish? && n in Targets(old(channels), m.topic) && n in alive then Some(m) else None))
        && (forall n :: n in executables ==>
              executables[n].command.items == PutResult(old(executables[n].command.items), executables[n].command.maxsize,
                if n == m.sender then ReplyFor(old(channels), m, true, stale) else None))
    {
      if threadExitEvent.flag || processExitEvent.flag {
        ExitAll();
        return false;
      }
      running := true;
      var message := threadMessageQueue.Get();
      if message.None? {
        return;
      }
      BrokerHandle(message.value, alive, stale);
    }

    /** The body of the broker loop for one message taken off the thread queue. */
    method BrokerHandle(m: Msg<P>, alive: set<string>, stale: Option<bool>)
      requires Valid()
      modifies this, Inputs(), Commands()
      ensures Valid() && executables == old(executables)
      ensures channels == TreeAfter(old(channels), m, m.sender in executables)
      ensures forall n :: n in executables ==>
        executables[n].input.items == PutResult(old(executables[n].input.items), executables[n].input.maxsize,
          if m.Publish? && n in Targets(old(channels), m.topic) && n in alive then Some(m) else None)
      ensures forall n :: n in executables ==>
        executables[n].command.items == PutResult(old(executables[n].command.items), executables[n].command.maxsize,
          if n == m.sender then ReplyFor(old(channels), m, true, stale) else None)
    {
      if MessageType(m) == PublishCode {
        BrokerPublish(m, alive);
      } else {
        BrokerRequest(m, stale);
      }
    }

    /**
     * One pass of the process relay loop: ends when either exit event is set; otherwise
     * moves the oldest message of the process queue, if any, to the thread queue, where
     * a full queue drops it.
     */
    method RelayStep() returns (running: bool)
      requires Valid()
      modifies threadMessageQueue, processMessageQueue
      ensures running == !(threadExitEvent.flag || processExitEvent.flag)
      ensures !running || old(processMessageQueue.items) == [] ==>
        threadMessageQueue.items == old(threadMessageQueue.items) && processMessageQueue.items == old(processMessageQueue.items)
      ensures running && old(processMessageQueue.items) != [] ==>
        && processMessageQueue.items == old(processMessageQueue.items)[1..]
        && threadMessageQueue.items ==
             PutResult(old(threadMessageQueue.items), threadMessageQueue.maxsize, Some(old(processMessageQueue.items)[0]))
    {
      if threadExitEvent.flag || processExitEvent.flag {
        return false;
      }
      running := true;
      var result := processMessageQueue.Get();
      if result.Some? {
        var _ := threadMessageQueue.Put(result.value);
      }
    }
  }
}
