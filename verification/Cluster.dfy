/** The replication protocol as a transition system. Every node has a store, a ring, the quorum
    writes it is waiting on and an anti-entropy cursor. The network remembers every packet ever
    sent: a packet may be delivered late, out of order, several times or never. */
module Cluster {
  import opened Strings
  import opened LwwStore
  import opened HashRing
  import opened RingChanges

  type NodeId = Str

  const VIRTUAL_NODES: int := 256

  datatype Message =
    | ReplicateRequest(id: nat, sender: NodeId, entries: seq<Keyed>)
    | ReplicateResponse(id: nat, node: NodeId, success: bool)
    | EntryBatch(entries: seq<Keyed>)

  datatype Packet = Packet(to: NodeId, msg: Message)

  datatype Ack = Ack(node: NodeId, ok: bool)

  /** The buffered channel registered in `pendingReqs`. */
  datatype Channel = Channel(capacity: nat, queue: seq<Ack>)

  /** How far one execution of `ReplicateWithQuorum` has come. */
  datatype Phase =
    | Applied
    | Sending(id: nat, remaining: seq<NodeId>)
    | Waiting(id: nat, acked: set<NodeId>)

  datatype Call = Call(key: Str, entry: Entry, w: int, phase: Phase, ring: seq<RingEntry>, expected: set<NodeId>)

  datatype Node = Node(
    rf: int,
    store: State,
    ring: Ring,
    calls: map<nat, Call>,
    pending: map<nat, Channel>,
    cursor: nat)

  /** What a request id stands for. */
  datatype Request = Request(sender: NodeId, key: Str, entry: Entry)

  /** A call of `ReplicateWithQuorum` that returned nil, with the nodes it counted. */
  datatype Completion = Completion(
    writer: NodeId, key: Str, entry: Entry, w: int, holders: set<NodeId>, ring: seq<RingEntry>, rf: int)

  /** `Wrote` is a local SET or DEL; `Merged` is an entry passed to `SetWithVersion`. */
  datatype Event =
    | Wrote(node: NodeId, key: Str, entry: Entry)
    | Merged(node: NodeId, key: Str, entry: Entry)

  datatype Cluster = Cluster(
    nodes: map<NodeId, Node>,
    sent: set<Packet>,
    requests: map<nat, Request>,
    done: seq<Completion>,
    log: seq<Event>)

  /** What one step changes: the acting node, and additions to everything that only grows. */
  datatype Effect = Effect(
    node: Node, out: set<Packet>, requests: map<nat, Request>, done: seq<Completion>, events: seq<Event>)

  function Quiet(node: Node): Effect {
    Effect(node, {}, map[], [], [])
  }

  ghost function Commit(s: Cluster, n: NodeId, e: Effect): Cluster {
    Cluster(s.nodes[n := e.node], s.sent + e.out, s.requests + e.requests, s.done + e.done, s.log + e.events)
  }

  // ----- routing -----

  predicate HasId(rs: seq<Replica>, id: NodeId) {
    exists i :: 0 <= i < |rs| && rs[i].nodeId == id
  }

  predicate IsReplica(hash: Str -> Uint64, node: Node, me: NodeId, key: Str) {
    HasId(Replicas(node.ring.entries, hash(key), node.rf), me)
  }

  /** The command is answered with MOVED. */
  predicate Moved(hash: Str -> Uint64, node: Node, me: NodeId, key: Str) {
    var owner := Owner(node.ring.entries, hash(key)).nodeId;
    owner != [] && owner != me
  }

  function Others(rs: seq<Replica>, me: NodeId): seq<NodeId> {
    if rs == [] then []
    else if rs[0].nodeId == me then Others(rs[1..], me)
    else [rs[0].nodeId] + Others(rs[1..], me)
  }

  function Remotes(hash: Str -> Uint64, ring: seq<RingEntry>, rf: int, me: NodeId, key: Str): seq<NodeId> {
    Others(Replicas(ring, hash(key), rf), me)
  }

  // ----- client commands -----

  function MergedEvents(me: NodeId, xs: seq<Keyed>): seq<Event> {
    seq(|xs|, i requires 0 <= i < |xs| => Merged(me, xs[i].key, xs[i].entry))
  }

  /** One write per distinct key, in the order the keys were given. */
  function TombstoneEvents(me: NodeId, keys: seq<Str>, tombstones: map<Str, Entry>): seq<Event>
    requires forall k :: k in keys ==> k in tombstones
  {
    if keys == [] then []
    else
      var init, key := keys[..|keys| - 1], keys[|keys| - 1];
      TombstoneEvents(me, init, tombstones) + (if key in init then [] else [Wrote(me, key, tombstones[key])])
  }

  function SetEffect(node: Node, me: NodeId, key: Str, value: Str): Effect {
    var (store, entry) := SetFrom(node.store, key, value, me);
    Quiet(node.(store := store)).(events := [Wrote(me, key, entry)])
  }

  function DelEffect(node: Node, me: NodeId, keys: seq<Str>): Effect {
    var d := Del(node.store, me, keys);
    DelDeletes(node.store, me, keys);
    Quiet(node.(store := d.state)).(events := TombstoneEvents(me, keys, d.tombstones))
  }

  // ----- ReplicateWithQuorum -----

  /** Apply locally; a write concern of at most 1 is then satisfied. */
  function BeginEffect(node: Node, me: NodeId, call: nat, key: Str, entry: Entry, w: int): Effect {
    var applied := node.(store := Merge(node.store, Keyed(key, entry)));
    var events := [Merged(me, key, entry)];
    if w <= 1 then
      Quiet(applied).(events := events, done := [Completion(me, key, entry, w, {me}, node.ring.entries, node.rf)])
    else
      Quiet(applied.(calls := node.calls[call := Call(key, entry, w, Applied, [], {})])).(events := events)
  }

  /** Look up the replicas; give up if there are too few, else register for acknowledgements. */
  function RouteEffect(hash: Str -> Uint64, node: Node, me: NodeId, call: nat, id: nat): Effect
    requires call in node.calls
  {
    var c := node.calls[call];
    var remote := Remotes(hash, node.ring.entries, node.rf, me, c.key);
    if c.w > |remote| + 1 then
      Quiet(node.(calls := node.calls - {call}))
    else
      Quiet(node.(
        calls := node.calls[call := c.(phase := Sending(id, remote), ring := node.ring.entries)],
        pending := node.pending[id := Channel(|remote|, [])]))
      .(requests := map[id := Request(me, c.key, c.entry)])
  }

  /** One turn of the sending loop. A send that reports an error may still have arrived. */
  function SendEffect(node: Node, me: NodeId, call: nat, ok: bool): Effect
    requires call in node.calls && node.calls[call].phase.Sending? && node.calls[call].phase.remaining != []
  {
    var c := node.calls[call];
    var target := c.phase.remaining[0];
    var expected := if ok then c.expected + {target} else c.expected;
    Quiet(node.(calls := node.calls[call := c.(
      phase := c.phase.(remaining := c.phase.remaining[1..]),
      expected := expected)]))
    .(out := {Packet(target, ReplicateRequest(c.phase.id, me, [Keyed(c.key, c.entry)]))})
  }

  function Abandon(node: Node, call: nat, id: nat): Node {
    node.(calls := node.calls - {call}, pending := node.pending - {id})
  }

  function StartWaitEffect(node: Node, call: nat): Effect
    requires call in node.calls && node.calls[call].phase.Sending?
  {
    var c := node.calls[call];
    if |c.expected| + 1 < c.w then Quiet(Abandon(node, call, c.phase.id))
    else Quiet(node.(calls := node.calls[call := c.(phase := Waiting(c.phase.id, {}))]))
  }

  function CountAck(expected: set<NodeId>, acked: set<NodeId>, ack: Ack): set<NodeId> {
    if ack.node in expected && ack.ok then acked + {ack.node} else acked
  }

  /** One turn of the waiting loop: take an acknowledgement off the channel. */
  function CountEffect(node: Node, me: NodeId, call: nat): Effect
    requires call in node.calls && node.calls[call].phase.Waiting?
    requires node.calls[call].phase.id in node.pending && node.pending[node.calls[call].phase.id].queue != []
  {
    var c := node.calls[call];
    var ch := node.pending[c.phase.id];
    var acked := CountAck(c.expected, c.phase.acked, ch.queue[0]);
    if 1 + |acked| >= c.w then
      Quiet(Abandon(node, call, c.phase.id))
      .(done := [Completion(me, c.key, c.entry, c.w, acked + {me}, c.ring, node.rf)])
    else
      Quiet(node.(
        calls := node.calls[call := c.(phase := Waiting(c.phase.id, acked))],
        pending := node.pending[c.phase.id := ch.(queue := ch.queue[1..])]))
  }

  // ----- message handlers -----

  /** The entries of a batch this node is a replica for. */
  function Accepted(hash: Str -> Uint64, node: Node, me: NodeId, xs: seq<Keyed>): seq<Keyed> {
    if xs == [] then []
    else
      var last := xs[|xs| - 1];
      Accepted(hash, node, me, xs[..|xs| - 1]) + (if IsReplica(hash, node, me, last.key) then [last] else [])
  }

  /** A request is applied up to the first entry this node is no replica for. */
  function Served(hash: Str -> Uint64, node: Node, me: NodeId, xs: seq<Keyed>): seq<Keyed> {
    if xs == [] || !IsReplica(hash, node, me, xs[0].key) then []
    else [xs[0]] + Served(hash, node, me, xs[1..])
  }

  function BatchEffect(hash: Str -> Uint64, node: Node, me: NodeId, xs: seq<Keyed>): Effect {
    var accepted := Accepted(hash, node, me, xs);
    Quiet(node.(store := MergeAll(node.store, accepted))).(events := MergedEvents(me, accepted))
  }

  function RequestEffect(hash: Str -> Uint64, node: Node, me: NodeId, id: nat, sender: NodeId, xs: seq<Keyed>): Effect {
    var served := Served(hash, node, me, xs);
    Quiet(node.(store := MergeAll(node.store, served)))
    .(out := {Packet(sender, ReplicateResponse(id, me, |served| == |xs|))}, events := MergedEvents(me, served))
  }

  function ResponseEffect(node: Node, id: nat, from: NodeId, success: bool): Effect {
    if id in node.pending && |node.pending[id].queue| < node.pending[id].capacity then
      var ch := node.pending[id];
      Quiet(node.(pending := node.pending[id := ch.(queue := ch.queue + [Ack(from, success)])]))
    else
      Quiet(node)
  }

  function DeliverEffect(hash: Str -> Uint64, node: Node, me: NodeId, msg: Message): Effect {
    match msg
    case EntryBatch(xs) => BatchEffect(hash, node, me, xs)
    case ReplicateRequest(id, sender, xs) => RequestEffect(hash, node, me, id, sender, xs)
    case ReplicateResponse(id, from, success) => ResponseEffect(node, id, from, success)
  }

  // ----- anti-entropy -----

  /** `items` is a snapshot of the store, in whatever order the map was iterated. */
  ghost predicate IsSnapshot(tree: map<Str, Entry>, items: seq<Keyed>) {
    forall x :: x in items <==> x.key in tree && tree[x.key] == x.entry
  }

  ghost function Peers(members: set<NodeId>, me: NodeId): seq<NodeId> {
    SortedKeys(members - {me})
  }

  ghost function ExchangeEffect(node: Node, me: NodeId, members: set<NodeId>, items: seq<Keyed>): Effect {
    var peers := Peers(members, me);
    if items == [] || |members| <= 1 || |peers| == 0 then Quiet(node)
    else
      var index := node.cursor % |peers|;
      Quiet(node.(cursor := (index + 1) % |peers|)).(out := {Packet(peers[index], EntryBatch(items))})
  }

  // ----- steps -----

  datatype Step =
    | ClientSet(n: NodeId, key: Str, value: Str)
    | ClientDel(n: NodeId, keys: seq<Str>)
    | Begin(n: NodeId, call: nat, key: Str, entry: Entry, w: int)
    | Route(n: NodeId, call: nat, id: nat)
    | Send(n: NodeId, call: nat, ok: bool)
    | StartWait(n: NodeId, call: nat)
    | Count(n: NodeId, call: nat)
    | Timeout(n: NodeId, call: nat)
    | Deliver(packet: Packet)
    | Exchange(n: NodeId, members: set<NodeId>, items: seq<Keyed>)
    | PushState(n: NodeId, to: NodeId, items: seq<Keyed>)
    | Join(n: NodeId, who: NodeId, address: Str, ring: Ring)
    | Leave(n: NodeId, who: NodeId)

  function Actor(step: Step): NodeId {
    match step
    case Deliver(packet) => packet.to
    case _ => step.n
  }

  ghost predicate Enabled(hash: Str -> Uint64, s: Cluster, step: Step) {
    && Actor(step) in s.nodes
    && var node := s.nodes[Actor(step)];
       match step
       case ClientSet(n, key, _) => !Moved(hash, node, n, key) && node.store.clock < MAX_INT64
       case ClientDel(n, keys) =>
         && (forall k :: k in keys ==> !Moved(hash, node, n, k))
         && node.store.clock + |Elements(keys)| <= MAX_INT64
       case Begin(_, call, _, _, _) => call !in node.calls
       case Route(_, call, id) => call in node.calls && node.calls[call].phase.Applied? && id !in s.requests
       case Send(_, call, _) =>
         call in node.calls && node.calls[call].phase.Sending? && node.calls[call].phase.remaining != []
       case StartWait(_, call) =>
         call in node.calls && node.calls[call].phase.Sending? && node.calls[call].phase.remaining == []
       case Count(_, call) =>
         && call in node.calls && node.calls[call].phase.Waiting?
         && node.calls[call].phase.id in node.pending && node.pending[node.calls[call].phase.id].queue != []
       case Timeout(_, call) => call in node.calls && node.calls[call].phase.Waiting?
       case Deliver(packet) => packet in s.sent
       case Exchange(_, _, items) => IsSnapshot(node.store.tree, items)
       case PushState(_, _, items) => IsSnapshot(node.store.tree, items)
       case Join(_, who, address, ring) => Added(hash, node.ring, who, address, VIRTUAL_NODES, ring)
       case Leave(_, _) => true
  }

  ghost function EffectOf(hash: Str -> Uint64, s: Cluster, step: Step): Effect
    requires Enabled(hash, s, step)
  {
    var node := s.nodes[Actor(step)];
    match step
    case ClientSet(n, key, value) => SetEffect(node, n, key, value)
    case ClientDel(n, keys) => DelEffect(node, n, keys)
    case Begin(n, call, key, entry, w) => BeginEffect(node, n, call, key, entry, w)
    case Route(n, call, id) => RouteEffect(hash, node, n, call, id)
    case Send(n, call, ok) => SendEffect(node, n, call, ok)
    case StartWait(_, call) => StartWaitEffect(node, call)
    case Count(n, call) => CountEffect(node, n, call)
    case Timeout(_, call) => Quiet(Abandon(node, call, node.calls[call].phase.id))
    case Deliver(packet) => DeliverEffect(hash, node, packet.to, packet.msg)
    case Exchange(n, members, items) => ExchangeEffect(node, n, members, items)
    case PushState(_, to, items) => Quiet(node).(out := if items == [] then {} else {Packet(to, EntryBatch(items))})
    case Join(_, _, _, ring) => Quiet(node.(ring := ring))
    case Leave(_, who) => Quiet(node.(ring := Removed(node.ring, who)))
  }

  ghost function Next(hash: Str -> Uint64, s: Cluster, step: Step): Cluster
    requires Enabled(hash, s, step)
  {
    Commit(s, Actor(step), EffectOf(hash, s, step))
  }

  // ----- runs -----

  /** Every node starts with an empty store and nothing under way; rings and replication factors
      may differ from node to node. */
  ghost predicate Init(s: Cluster) {
    && s.sent == {} && s.requests == map[] && s.done == [] && s.log == []
    && forall n :: n in s.nodes ==> Fresh(s.nodes[n])
  }

  predicate Fresh(node: Node) {
    node.store == EMPTY && node.calls == map[] && node.pending == map[]
  }

  ghost predicate Runnable(hash: Str -> Uint64, s: Cluster, steps: seq<Step>)
    decreases |steps|
  {
    steps == [] ||
    (Enabled(hash, s, steps[0]) && Runnable(hash, Next(hash, s, steps[0]), steps[1..]))
  }

  ghost function Run(hash: Str -> Uint64, s: Cluster, steps: seq<Step>): Cluster
    requires Runnable(hash, s, steps)
    decreases |steps|
  {
    if steps == [] then s else Run(hash, Next(hash, s, steps[0]), steps[1..])
  }
}
