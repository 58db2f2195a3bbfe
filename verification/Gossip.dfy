/** Transaction gossip: the handler of one node, and networks of such nodes (p2p.rs). */
module Gossip {
  import opened Types
  import M = Mempool
  import N = Nested
  import TransactionPools

  type PeerId = nat
  type Hashing = Transaction -> Hash

  datatype Config = Config(enableTxGossip: bool, maxTxPropagatePeers: nat)

  // ----- one node

  /** Whom the forwarding loop sends to: the first peers other than the sender, at least one if there is any. */
  function Targets(peers: seq<PeerId>, sender: PeerId, limit: nat): seq<PeerId> {
    if peers == [] then []
    else if peers[0] == sender then Targets(peers[1..], sender, limit)
    else if limit <= 1 then [peers[0]]
    else [peers[0]] + Targets(peers[1..], sender, limit - 1)
  }

  function Outgoing(c: Config, peers: seq<PeerId>, sender: PeerId): seq<PeerId> {
    if c.enableTxGossip then Targets(peers, sender, c.maxTxPropagatePeers) else []
  }

  type Outbox = map<PeerId, seq<Transaction>>

  function Post(outbox: Outbox, p: PeerId, tx: Transaction): Outbox {
    outbox[p := (if p in outbox then outbox[p] else []) + [tx]]
  }

  function PostAll(outbox: Outbox, targets: seq<PeerId>, tx: Transaction): Outbox
    decreases |targets|
  {
    if targets == [] then outbox else PostAll(Post(outbox, targets[0], tx), targets[1..], tx)
  }

  predicate Distinct(s: seq<PeerId>) {
    s == [] || (s[0] !in s[1..] && Distinct(s[1..]))
  }

  function FanOut(c: Config): nat {
    Max(1, c.maxTxPropagatePeers)
  }

  /** Forwarding reaches distinct peers, never the sender, and no more than the fan-out. */
  lemma {:induction false} TargetsAreSafe(peers: seq<PeerId>, sender: PeerId, limit: nat)
    requires Distinct(peers)
    ensures Distinct(Targets(peers, sender, limit))
    ensures forall t :: t in Targets(peers, sender, limit) ==> t in peers && t != sender
    ensures |Targets(peers, sender, limit)| <= Max(1, limit)
  {
    if peers != [] {
      assert peers == [peers[0]] + peers[1..];
      if peers[0] == sender {
        TargetsAreSafe(peers[1..], sender, limit);
      } else if limit > 1 {
        TargetsAreSafe(peers[1..], sender, limit - 1);
        assert Targets(peers, sender, limit)[1..] == Targets(peers[1..], sender, limit - 1);
      }
    }
  }

  /** A limit that covers the peers leaves nobody out but the sender. */
  lemma {:induction false} TargetsCoverPeers(peers: seq<PeerId>, sender: PeerId, limit: nat, p: PeerId)
    requires |peers| <= limit && p in peers && p != sender
    ensures p in Targets(peers, sender, limit)
  {
    if peers[0] != p {
      assert p in peers[1..];
      TargetsCoverPeers(peers[1..], sender, if peers[0] == sender then limit else limit - 1, p);
    }
  }

  /** The peers other than the sender. */
  function Others(peers: seq<PeerId>, sender: PeerId): seq<PeerId> {
    if peers == [] then [] else (if peers[0] == sender then [] else [peers[0]]) + Others(peers[1..], sender)
  }

  /** Forwarding goes to exactly the first peers other than the sender, as many as the limit or else one. */
  lemma {:induction false} TargetsAreFirst(peers: seq<PeerId>, sender: PeerId, limit: nat)
    ensures var others := Others(peers, sender);
      Targets(peers, sender, limit) == others[..Min(|others|, Max(1, limit))]
  {
    if peers != [] {
      var others := Others(peers, sender);
      if peers[0] == sender {
        assert others == Others(peers[1..], sender);
        TargetsAreFirst(peers[1..], sender, limit);
      } else {
        assert others[1..] == Others(peers[1..], sender);
        if limit > 1 {
          TargetsAreFirst(peers[1..], sender, limit - 1);
        }
      }
    }
  }

  /** So it is where gossip is on; where it is off nothing is forwarded. */
  lemma OutgoingIs(c: Config, peers: seq<PeerId>, sender: PeerId)
    ensures var others := Others(peers, sender);
      Outgoing(c, peers, sender) ==
      if c.enableTxGossip then others[..Min(|others|, Max(1, c.maxTxPropagatePeers))] else []
  {
    TargetsAreFirst(peers, sender, c.maxTxPropagatePeers);
  }

  /** The messages waiting for a peer. */
  function Box(outbox: Outbox, p: PeerId): seq<Transaction> {
    if p in outbox then outbox[p] else []
  }

  /** Forwarding appends the transaction to each target's messages and touches nobody else's. */
  lemma {:induction false} PostAllIs(outbox: Outbox, targets: seq<PeerId>, tx: Transaction, p: PeerId)
    requires Distinct(targets)
    ensures if p in targets then Lookup(PostAll(outbox, targets, tx), p) == Some(Box(outbox, p) + [tx])
            else Lookup(PostAll(outbox, targets, tx), p) == Lookup(outbox, p)
    decreases |targets|
  {
    if targets != [] {
      assert targets == [targets[0]] + targets[1..];
      PostAllIs(Post(outbox, targets[0], tx), targets[1..], tx, p);
    }
  }

  /** A known peer's reputation, and whether it has been banned. */
  datatype Standing = Standing(reputation: int, banned: bool)

  /** The peer's standing after its transaction was or was not accepted by the pool. */
  function Judged(s: Standing, accepted: bool): Standing {
    if accepted then s.(reputation := Min(s.reputation + 1, 1000))
    else
      var lower := Max(s.reputation - 5, -0x8000_0000);
      Standing(lower, s.banned || lower < -100)
  }

  function JudgedIn(known: map<PeerId, Standing>, p: PeerId, accepted: bool): map<PeerId, Standing> {
    if p in known then known[p := Judged(known[p], accepted)] else known
  }

  function JudgedTimes(s: Standing, accepted: bool, n: nat): Standing {
    if n == 0 then s else Judged(JudgedTimes(s, accepted, n - 1), accepted)
  }

  /** A new peer gains one point per accepted transaction up to 1000, loses five per refused one down to the least
      32-bit number, and is banned from the twenty-first refusal on. */
  lemma {:induction false} StandingAfter(n: nat)
    ensures JudgedTimes(Standing(0, false), true, n) == Standing(Min(n, 1000), false)
    ensures JudgedTimes(Standing(0, false), false, n) == Standing(Max(-5 * n, -2147483648), n >= 21)
  {
    if n > 0 {
      StandingAfter(n - 1);
    }
  }

  class NetworkService {
    const config: Config
    const hash: Hashing
    const mempool: TransactionPools.TransactionPool?
    var seenTx: map<Hash, nat>
    var outbox: Outbox
    var standing: map<PeerId, Standing>

    constructor (config: Config, hash: Hashing, mempool: TransactionPools.TransactionPool?)
      ensures this.config == config && this.hash == hash && this.mempool == mempool
      ensures seenTx == map[] && outbox == map[] && standing == map[]
    {
      this.config, this.hash, this.mempool := config, hash, mempool;
      seenTx, outbox, standing := map[], map[], map[];
    }

    /** Refuses an invalid transaction, ignores a seen one, and otherwise records it, offers it to the pool and forwards
        it; false is an error. The pool is told an account nonce of zero. */
    method HandleNewPendingTransaction(sender: PeerId, tx: Transaction, now: nat, peers: seq<PeerId>)
      returns (ok: bool, ghost victim: Hash)
      requires mempool != null ==> mempool.hash == hash && N.NoEmpty(mempool.pending)
      modifies this, mempool
      ensures ok <==> hash(tx) in old(seenTx) || ValidBasic(tx)
      ensures hash(tx) in old(seenTx) || !ValidBasic(tx) ==>
        && seenTx == old(seenTx) && outbox == old(outbox) && standing == old(standing)
        && (mempool != null ==> mempool.Value() == old(mempool.Value()))
      ensures hash(tx) !in old(seenTx) && ValidBasic(tx) ==>
        && seenTx == old(seenTx)[hash(tx) := now]
        && outbox == PostAll(old(outbox), Outgoing(config, peers, sender), tx)
        && (mempool == null ==> standing == old(standing))
        && (mempool != null ==>
              && (old(mempool.pending) != map[] ==> M.Evictable(old(mempool.Value()), victim))
              && mempool.Value() == M.Add(mempool.config, hash, old(mempool.Value()), tx, 0, now, victim)
              && standing == JudgedIn(old(standing), sender,
                   M.AddRefusal(mempool.config, hash, old(mempool.Value()), tx, 0, victim).None?))
    {
      victim := ZERO_HASH;
      if hash(tx) in seenTx {
        return true, victim;
      }
      if !ValidBasic(tx) {
        return false, victim;
      }
      seenTx := seenTx[hash(tx) := now];
      if mempool != null {
        var refusal;
        refusal, victim := mempool.Add(tx, 0, now);
        standing := JudgedIn(standing, sender, refusal.None?);
      }
      if config.enableTxGossip {
        Forward(sender, tx, peers);
      }
      return true, victim;
    }

    /** The counting loop over the connected peers. */
    method Forward(sender: PeerId, tx: Transaction, peers: seq<PeerId>)
      modifies `outbox
      ensures outbox == PostAll(old(outbox), Targets(peers, sender, config.maxTxPropagatePeers), tx)
    {
      ghost var target := PostAll(outbox, Targets(peers, sender, config.maxTxPropagatePeers), tx);
      var forwarded := 0;
      for i := 0 to |peers|
        invariant forwarded == 0 || forwarded < config.maxTxPropagatePeers
        invariant PostAll(outbox, Targets(peers[i..], sender, config.maxTxPropagatePeers - forwarded), tx) == target
      {
        assert peers[i..][1..] == peers[i + 1..];
        if peers[i] == sender {
          continue;
        }
        outbox := Post(outbox, peers[i], tx);
        forwarded := forwarded + 1;
        if forwarded >= config.maxTxPropagatePeers {
          return;
        }
      }
    }
  }

  // ----- a network

  datatype Message = Message(src: PeerId, dst: PeerId, tx: Transaction)

  /** One forwarding round: a node, the hash it forwards, whom it had it from, and whom it sends it to. */
  datatype Activation = Activation(node: PeerId, hash: Hash, sender: PeerId, targets: seq<PeerId>)

  datatype Network = Network(seen: set<(PeerId, Hash)>, inFlight: multiset<Message>, log: seq<Activation>)

  /** A delivery, with the order in which the receiver lists its connected peers. */
  datatype Delivery = Delivery(message: Message, peers: seq<PeerId>)

  predicate Activates(hash: Hashing, net: Network, m: Message) {
    (m.dst, hash(m.tx)) !in net.seen && ValidBasic(m.tx)
  }

  function Copies(src: PeerId, targets: seq<PeerId>, tx: Transaction): (ms: multiset<Message>)
    ensures |ms| == |targets|
    ensures forall m {:trigger ms[m]} :: m in ms <==> m.src == src && m.tx == tx && m.dst in targets
  {
    if targets == [] then multiset{}
    else
      assert targets == targets[..|targets| - 1] + [targets[|targets| - 1]];
      Copies(src, targets[..|targets| - 1], tx) + multiset{Message(src, targets[|targets| - 1], tx)}
  }

  function Deliver(c: Config, hash: Hashing, net: Network, d: Delivery): Network {
    var m := d.message;
    var rest := net.inFlight - multiset{m};
    if !Activates(hash, net, m) then net.(inFlight := rest)
    else
      var targets := Outgoing(c, d.peers, m.src);
      Network(
        net.seen + {(m.dst, hash(m.tx))},
        rest + Copies(m.dst, targets, m.tx),
        net.log + [Activation(m.dst, hash(m.tx), m.src, targets)])
  }

  lemma {:induction false} CopiesOnce(src: PeerId, targets: seq<PeerId>, tx: Transaction, m: Message)
    requires Distinct(targets)
    ensures Copies(src, targets, tx)[m] == if m.src == src && m.tx == tx && m.dst in targets then 1 else 0
  {
    if targets != [] {
      var before, last := targets[..|targets| - 1], targets[|targets| - 1];
      assert targets == before + [last];
      DistinctInit(before, last);
      CopiesOnce(src, before, tx, m);
    }
  }

  lemma {:induction false} DistinctInit(before: seq<PeerId>, last: PeerId)
    requires Distinct(before + [last])
    ensures Distinct(before) && last !in before
  {
    if before != [] {
      assert (before + [last])[1..] == before[1..] + [last];
      DistinctInit(before[1..], last);
    }
  }

  /** The messages forwarding adds to the outbox are exactly the copies it is meant to send. */
  lemma SentIsCopies(outbox: Outbox, src: PeerId, targets: seq<PeerId>, tx: Transaction, m: Message)
    requires Distinct(targets) && m.src == src
    ensures multiset(Box(PostAll(outbox, targets, tx), m.dst))[m.tx] ==
            multiset(Box(outbox, m.dst))[m.tx] + Copies(src, targets, tx)[m]
  {
    CopiesOnce(src, targets, tx, m);
    PostAllIs(outbox, targets, tx, m.dst);
  }

  /** Whether the node acts on a message, and its outbox afterwards. */
  predicate Acts(hash: Hashing, seenTx: map<Hash, nat>, tx: Transaction) {
    hash(tx) !in seenTx && ValidBasic(tx)
  }

  function OutboxAfter(c: Config, hash: Hashing, seenTx: map<Hash, nat>, outbox: Outbox, d: Delivery): Outbox {
    if Acts(hash, seenTx, d.message.tx) then PostAll(outbox, Outgoing(c, d.peers, d.message.src), d.message.tx)
    else outbox
  }

  /** What a delivery puts in flight from its node is exactly what the handler adds to the node's outbox, and it puts
      nothing in flight from anywhere else. */
  lemma DeliverIsHandler(c: Config, hash: Hashing, net: Network, d: Delivery, seenTx: map<Hash, nat>, outbox: Outbox,
                         k: Message)
    requires Distinct(d.peers) && forall h :: h in seenTx <==> (d.message.dst, h) in net.seen
    ensures var m := d.message;
      var sent: int := if k.src != m.dst then 0
                       else multiset(Box(OutboxAfter(c, hash, seenTx, outbox, d), k.dst))[k.tx] as int -
                            multiset(Box(outbox, k.dst))[k.tx];
      Deliver(c, hash, net, d).inFlight[k] == (net.inFlight - multiset{m})[k] + sent
  {
    var m := d.message;
    if Activates(hash, net, m) {
      var targets := Outgoing(c, d.peers, m.src);
      assert Distinct(targets) by { TargetsAreSafe(d.peers, m.src, c.maxTxPropagatePeers); }
      if k.src == m.dst {
        SentIsCopies(outbox, m.dst, targets, m.tx, k);
      } else {
        CopiesOnce(m.dst, targets, m.tx, k);
      }
    }
  }

  /** And it marks the same hashes as the handler. */
  lemma DeliverMarks(c: Config, hash: Hashing, net: Network, d: Delivery, seenTx: map<Hash, nat>, now: nat, h: Hash)
    requires forall h :: h in seenTx <==> (d.message.dst, h) in net.seen
    ensures var tx := d.message.tx;
      h in (if Acts(hash, seenTx, tx) then seenTx[hash(tx) := now] else seenTx) <==>
      (d.message.dst, h) in Deliver(c, hash, net, d).seen
  {
  }

  /** A message in flight to one of the nodes, which lists distinct peers among the nodes. */
  ghost predicate CanDeliver(nodes: set<PeerId>, net: Network, d: Delivery) {
    && d.message in net.inFlight && d.message.dst in nodes
    && Distinct(d.peers) && forall p :: p in d.peers ==> p in nodes
  }

  ghost predicate IsRun(c: Config, hash: Hashing, nodes: set<PeerId>, net: Network, run: seq<Delivery>)
    decreases |run|
  {
    run == [] || (CanDeliver(nodes, net, run[0]) && IsRun(c, hash, nodes, Deliver(c, hash, net, run[0]), run[1..]))
  }

  function Run(c: Config, hash: Hashing, net: Network, run: seq<Delivery>): Network
    decreases |run|
  {
    if run == [] then net else Run(c, hash, Deliver(c, hash, net, run[0]), run[1..])
  }

  /** Messages in flight before anything was delivered. */
  function Start(inFlight: multiset<Message>): Network {
    Network({}, inFlight, [])
  }

  // ----- each node forwards a hash at most once

  ghost predicate Orderly(c: Config, nodes: set<PeerId>, net: Network) {
    && (forall i :: 0 <= i < |net.log| ==>
          && (net.log[i].node, net.log[i].hash) in net.seen
          && net.log[i].node in nodes
          && Distinct(net.log[i].targets)
          && net.log[i].sender !in net.log[i].targets
          && |net.log[i].targets| <= FanOut(c))
    && (forall i, j :: 0 <= i < j < |net.log| ==>
          (net.log[i].node, net.log[i].hash) != (net.log[j].node, net.log[j].hash))
  }

  lemma DeliverKeepsOrder(c: Config, hash: Hashing, nodes: set<PeerId>, net: Network, d: Delivery)
    requires Orderly(c, nodes, net) && CanDeliver(nodes, net, d)
    ensures Orderly(c, nodes, Deliver(c, hash, net, d))
  {
    TargetsAreSafe(d.peers, d.message.src, c.maxTxPropagatePeers);
  }

  /** In every run each node forwards a hash in at most one round, to distinct peers, never back to the sender. */
  lemma {:induction false} RunsAreOrderly(c: Config, hash: Hashing, nodes: set<PeerId>, net: Network,
                                          run: seq<Delivery>)
    requires Orderly(c, nodes, net) && IsRun(c, hash, nodes, net, run)
    ensures Orderly(c, nodes, Run(c, hash, net, run))
    decreases |run|
  {
    if run != [] {
      DeliverKeepsOrder(c, hash, nodes, net, run[0]);
      RunsAreOrderly(c, hash, nodes, Deliver(c, hash, net, run[0]), run[1..]);
    }
  }

  /** How often `h` was forwarded, and by whom. */
  ghost function Forwards(log: seq<Activation>, h: Hash): nat {
    if log == [] then 0
    else Forwards(log[..|log| - 1], h) + if log[|log| - 1].hash == h then |log[|log| - 1].targets| else 0
  }

  ghost function Forwarders(log: seq<Activation>, h: Hash): set<PeerId> {
    if log == [] then {}
    else Forwarders(log[..|log| - 1], h) + if log[|log| - 1].hash == h then {log[|log| - 1].node} else {}
  }

  lemma {:induction false} ForwarderInLog(log: seq<Activation>, h: Hash, x: PeerId)
    requires x in Forwarders(log, h)
    ensures exists i :: 0 <= i < |log| && log[i].node == x && log[i].hash == h
  {
    var last := |log| - 1;
    if log[last].hash == h && log[last].node == x {
    } else {
      ForwarderInLog(log[..last], h, x);
      var i :| 0 <= i < last && log[..last][i].node == x && log[..last][i].hash == h;
      assert log[i].node == x && log[i].hash == h;
    }
  }

  /** Every activation of a log forwards to few, and none repeats another's node and hash. */
  ghost predicate Sparse(fanOut: nat, nodes: set<PeerId>, log: seq<Activation>) {
    && (forall i :: 0 <= i < |log| ==> log[i].node in nodes && |log[i].targets| <= fanOut)
    && (forall i, j :: 0 <= i < j < |log| ==> log[i].node != log[j].node || log[i].hash != log[j].hash)
  }

  lemma {:induction false} ForwardsPerForwarder(fanOut: nat, nodes: set<PeerId>, log: seq<Activation>, h: Hash)
    requires Sparse(fanOut, nodes, log)
    ensures Forwarders(log, h) <= nodes
    ensures Forwards(log, h) <= |Forwarders(log, h)| * fanOut
  {
    if log != [] {
      var before, last := log[..|log| - 1], log[|log| - 1];
      ForwardsPerForwarder(fanOut, nodes, before, h);
      if last.hash == h {
        if last.node in Forwarders(before, h) {
          ForwarderInLog(before, h, last.node);
        }
        MoreForwarders(|Forwarders(before, h)|, fanOut);
      }
    }
  }

  lemma MoreForwarders(k: nat, fanOut: nat)
    ensures (k + 1) * fanOut == k * fanOut + fanOut
  {
  }

  /** In every run a hash is forwarded at most once per node and fan-out. */
  lemma ForwardsAreBounded(c: Config, hash: Hashing, nodes: set<PeerId>, inFlight: multiset<Message>,
                           run: seq<Delivery>, h: Hash)
    requires IsRun(c, hash, nodes, Start(inFlight), run)
    ensures Forwards(Run(c, hash, Start(inFlight), run).log, h) <= |nodes| * FanOut(c)
  {
    RunsAreOrderly(c, hash, nodes, Start(inFlight), run);
    var net := Run(c, hash, Start(inFlight), run);
    ForwardsPerForwarder(FanOut(c), nodes, net.log, h);
    var who := Forwarders(net.log, h);
    assert nodes == who + (nodes - who);
    assert |who| <= |nodes|;
    ScaleBound(|who|, |nodes|, FanOut(c));
  }

  lemma ScaleBound(k: nat, n: nat, fanOut: nat)
    requires k <= n
    ensures k * fanOut <= n * fanOut
  {
  }

  // ----- flooding terminates

  /** All (node, hash) pairs that deliveries could still mark. */
  ghost function Pairs(nodes: set<PeerId>, hashes: set<Hash>): set<(PeerId, Hash)> {
    set n, h | n in nodes && h in hashes :: (n, h)
  }

  ghost function HashesIn(hash: Hashing, inFlight: multiset<Message>): set<Hash> {
    set m | m in inFlight :: hash(m.tx)
  }

  /** Messages in flight, plus a full fan-out for every pair still unmarked. */
  ghost function Measure(c: Config, nodes: set<PeerId>, hashes: set<Hash>, net: Network): nat {
    |net.inFlight| + |Pairs(nodes, hashes) - net.seen| * FanOut(c)
  }

  lemma DeliverKeepsHashes(c: Config, hash: Hashing, net: Network, d: Delivery, hashes: set<Hash>)
    requires d.message in net.inFlight && HashesIn(hash, net.inFlight) <= hashes
    ensures hash(d.message.tx) in hashes && HashesIn(hash, Deliver(c, hash, net, d).inFlight) <= hashes
  {
    assert hash(d.message.tx) in HashesIn(hash, net.inFlight);
    forall k | k in Deliver(c, hash, net, d).inFlight ensures hash(k.tx) in hashes {
      assert k in net.inFlight ==> hash(k.tx) in HashesIn(hash, net.inFlight);
    }
  }

  /** A delivery takes one message and adds at most a fan-out, and none unless it marks a new pair. */
  lemma DeliverCounts(c: Config, hash: Hashing, nodes: set<PeerId>, net: Network, d: Delivery)
    requires CanDeliver(nodes, net, d)
    ensures |Deliver(c, hash, net, d).inFlight| <=
            |net.inFlight| - 1 + if Activates(hash, net, d.message) then FanOut(c) else 0
  {
    assert |net.inFlight - multiset{d.message}| == |net.inFlight| - 1;
    TargetsAreSafe(d.peers, d.message.src, c.maxTxPropagatePeers);
  }

  lemma DeliverShrinks(c: Config, hash: Hashing, nodes: set<PeerId>, hashes: set<Hash>, net: Network, d: Delivery)
    requires CanDeliver(nodes, net, d) && HashesIn(hash, net.inFlight) <= hashes
    ensures Measure(c, nodes, hashes, Deliver(c, hash, net, d)) < Measure(c, nodes, hashes, net)
    ensures HashesIn(hash, Deliver(c, hash, net, d).inFlight) <= hashes
  {
    var m, net' := d.message, Deliver(c, hash, net, d);
    DeliverKeepsHashes(c, hash, net, d, hashes);
    DeliverCounts(c, hash, nodes, net, d);
    if Activates(hash, net, m) {
      MarkShrinks(nodes, hashes, net.seen, m.dst, hash(m.tx));
      MoreForwarders(|Pairs(nodes, hashes) - net'.seen|, FanOut(c));
    }
  }

  lemma MarkShrinks(nodes: set<PeerId>, hashes: set<Hash>, seen: set<(PeerId, Hash)>, node: PeerId, h: Hash)
    requires node in nodes && h in hashes && (node, h) !in seen
    ensures |Pairs(nodes, hashes) - seen| == |Pairs(nodes, hashes) - (seen + {(node, h)})| + 1
  {
    var open := Pairs(nodes, hashes) - seen;
    assert (node, h) in open;
    assert Pairs(nodes, hashes) - (seen + {(node, h)}) == open - {(node, h)};
  }

  /** Every run, in any delivery order, is no longer than the measure it starts with. */
  lemma {:induction false} RunsAreShort(c: Config, hash: Hashing, nodes: set<PeerId>, hashes: set<Hash>, net: Network,
                                        run: seq<Delivery>)
    requires IsRun(c, hash, nodes, net, run) && HashesIn(hash, net.inFlight) <= hashes
    ensures |run| + Measure(c, nodes, hashes, Run(c, hash, net, run)) <= Measure(c, nodes, hashes, net)
    decreases |run|
  {
    if run != [] {
      DeliverShrinks(c, hash, nodes, hashes, net, run[0]);
      RunsAreShort(c, hash, nodes, hashes, Deliver(c, hash, net, run[0]), run[1..]);
    }
  }

  // ----- a quiet network with full fan-out has told everybody

  type Topology = map<PeerId, set<PeerId>>

  /** Every delivery lists the receiver's peers of the topology, and the fan-out covers them. */
  ghost predicate FollowsTopology(c: Config, topology: Topology, d: Delivery) {
    && d.message.dst in topology
    && (forall p :: p in d.peers <==> p in topology[d.message.dst])
    && |d.peers| <= c.maxTxPropagatePeers
  }

  /** Senders that are nodes have seen what they send; every peer of a node that saw a hash has it or is about to. */
  ghost predicate Spreading(hash: Hashing, topology: Topology, net: Network, h: Hash) {
    && (forall m :: m in net.inFlight && hash(m.tx) == h ==>
          ValidBasic(m.tx) && (m.src in topology ==> (m.src, h) in net.seen))
    && (forall u, p :: (u, h) in net.seen && u in topology && p in topology[u] ==> Informed(hash, net, p, h))
  }

  ghost predicate Informed(hash: Hashing, net: Network, p: PeerId, h: Hash) {
    (p, h) in net.seen || exists m :: m in net.inFlight && m.dst == p && hash(m.tx) == h
  }

  lemma DeliverKeepsInformed(c: Config, hash: Hashing, net: Network, d: Delivery, p: PeerId, h: Hash)
    requires Informed(hash, net, p, h)
    requires hash(d.message.tx) == h ==> ValidBasic(d.message.tx)
    ensures Informed(hash, Deliver(c, hash, net, d), p, h)
  {
    var net' := Deliver(c, hash, net, d);
    if (p, h) !in net.seen {
      var m :| m in net.inFlight && m.dst == p && hash(m.tx) == h;
      if m != d.message {
        assert m in net'.inFlight;
      }
    }
  }

  lemma DeliverSpreads(c: Config, hash: Hashing, topology: Topology, net: Network, d: Delivery, h: Hash)
    requires Spreading(hash, topology, net, h) && d.message in net.inFlight
    requires c.enableTxGossip && FollowsTopology(c, topology, d)
    requires forall u :: u in topology ==> topology[u] <= topology.Keys
    ensures Spreading(hash, topology, Deliver(c, hash, net, d), h)
  {
    var m, net' := d.message, Deliver(c, hash, net, d);
    forall u, p | (u, h) in net'.seen && u in topology && p in topology[u] ensures Informed(hash, net', p, h) {
      if (u, h) in net.seen {
        DeliverKeepsInformed(c, hash, net, d, p, h);
      } else if p != m.src {
        TargetsCoverPeers(d.peers, m.src, c.maxTxPropagatePeers, p);
        assert Message(u, p, m.tx) in net'.inFlight;
      }
    }
  }

  lemma {:induction false} RunsSpread(c: Config, hash: Hashing, nodes: set<PeerId>, topology: Topology, net: Network,
                                      run: seq<Delivery>, h: Hash)
    requires IsRun(c, hash, nodes, net, run) && Spreading(hash, topology, net, h) && c.enableTxGossip
    requires forall u :: u in topology ==> topology[u] <= topology.Keys
    requires forall i :: 0 <= i < |run| ==> FollowsTopology(c, topology, run[i])
    ensures Spreading(hash, topology, Run(c, hash, net, run), h)
    ensures forall p :: Informed(hash, net, p, h) ==> Informed(hash, Run(c, hash, net, run), p, h)
    decreases |run|
  {
    if run != [] {
      forall p | Informed(hash, net, p, h) ensures Informed(hash, Deliver(c, hash, net, run[0]), p, h) {
        DeliverKeepsInformed(c, hash, net, run[0], p, h);
      }
      DeliverSpreads(c, hash, topology, net, run[0], h);
      RunsSpread(c, hash, nodes, topology, Deliver(c, hash, net, run[0]), run[1..], h);
    }
  }

  /** Each node of the path is a peer of the one before. */
  ghost predicate IsPath(topology: Topology, path: seq<PeerId>) {
    forall i :: 0 <= i < |path| - 1 ==> path[i] in topology && path[i + 1] in topology[path[i]]
  }

  /** Once nothing is in flight, whoever can be reached from a node that saw the hash has seen it too. */
  lemma {:induction false} QuietNetworkIsInformed(hash: Hashing, topology: Topology, net: Network, h: Hash,
                                                  path: seq<PeerId>)
    requires Spreading(hash, topology, net, h) && net.inFlight == multiset{}
    requires path != [] && IsPath(topology, path) && (path[0], h) in net.seen
    ensures (path[|path| - 1], h) in net.seen
  {
    if |path| > 1 {
      var before := path[..|path| - 1];
      QuietNetworkIsInformed(hash, topology, net, h, before);
      assert path[|path| - 2] in topology && path[|path| - 2 + 1] in topology[path[|path| - 2]];
      assert Informed(hash, net, path[|path| - 1], h);
    }
  }

  /** A flood from outside, run until quiet, reaches every node reachable from where it entered. */
  lemma {:induction false} FloodReaches(c: Config, hash: Hashing, topology: Topology, inFlight: multiset<Message>,
                                        run: seq<Delivery>, entry: Message, path: seq<PeerId>)
    requires c.enableTxGossip && forall u :: u in topology ==> topology[u] <= topology.Keys
    requires forall m :: m in inFlight ==> ValidBasic(m.tx) && m.src !in topology
    requires IsRun(c, hash, topology.Keys, Start(inFlight), run)
    requires forall i :: 0 <= i < |run| ==> FollowsTopology(c, topology, run[i])
    requires Run(c, hash, Start(inFlight), run).inFlight == multiset{}
    requires entry in inFlight && path != [] && path[0] == entry.dst && IsPath(topology, path)
    ensures (path[|path| - 1], hash(entry.tx)) in Run(c, hash, Start(inFlight), run).seen
  {
    var h, net := hash(entry.tx), Run(c, hash, Start(inFlight), run);
    RunsSpread(c, hash, topology.Keys, topology, Start(inFlight), run, h);
    assert Informed(hash, Start(inFlight), entry.dst, h);
    assert Informed(hash, net, entry.dst, h);
    QuietNetworkIsInformed(hash, topology, net, h, path);
  }
}
