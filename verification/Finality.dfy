/** Reorganisations under justified checkpoints (poas.rs). */
module Finality {
  import opened Types
  import opened Blocks
  import opened Forks
  import Chains
  import Slashing

  // Only this many recent forks are remembered.
  const HISTORY_LIMIT: nat := 100

  datatype ForkInfo = ForkInfo(
    forkPoint: nat,
    forkHash: Hash,
    mainTip: Hash,
    forkTip: Hash,
    mainLength: nat,
    forkLength: nat)

  datatype Config = Config(finalityBlocks: nat, slashForWrongFork: bool, minStake: nat, maxValidators: nat)

  /** Foreign parts: header hashing and the floating-point penalty formula. */
  datatype Oracle = Oracle(hash: Header -> Hash, penalty: (Slashing.Manager, Slashing.Validator) -> nat)

  /** What the persistence callback is given: the fork, its depth, and whether the fork's chain was chosen. */
  datatype Notice = Notice(info: ForkInfo, depth: nat, switched: bool)

  datatype Engine = Engine(
    highestJustified: Option<nat>,
    checkpoints: set<nat>,
    finalityTimes: seq<(nat, nat)>,
    forkEvents: seq<nat>,
    forkHistory: seq<ForkInfo>,
    forkFrequency: nat,
    totalReorgDepth: nat,
    maxReorgDepthObserved: nat,
    slashing: Slashing.Manager,
    validators: map<Address, Slashing.Validator>)

  const NEW_ENGINE := Engine(None, {}, [], [], [], 0, 0, 0, Slashing.NEW_MANAGER, map[])

  datatype Refusal = EmptyPath | PastCheckpoint(depth: nat) | NotPersisted

  datatype RegisterError = TooManyValidators | AlreadyExists | InsufficientStake

  // ----- the operations as functions

  function IsFinalized(c: Config, e: Engine, number: nat, head: nat): bool {
    match e.highestJustified
    case Some(j) => number <= j
    case None => head >= number + c.finalityBlocks
  }

  function Justify(e: Engine, number: nat, now: nat): Engine {
    e.(highestJustified := Some(Max(if e.highestJustified.Some? then e.highestJustified.value else 0, number)),
       checkpoints := e.checkpoints + {number},
       finalityTimes := e.finalityTimes + [(number, now)])
  }

  function RegisterRefusal(c: Config, e: Engine, a: Address, stake: nat): Option<RegisterError> {
    if |e.validators| >= c.maxValidators then Some(TooManyValidators)
    else if a in e.validators then Some(AlreadyExists)
    else if stake < c.minStake then Some(InsufficientStake)
    else None
  }

  function Register(c: Config, e: Engine, a: Address, stake: nat): Engine {
    if RegisterRefusal(c, e, a, stake).Some? then e
    else e.(validators := e.validators[a := Slashing.Validator(a, stake, false, 0)])
  }

  /** `verify_chain_canonical`: no remembered fork ended in `head` without being longer than what it replaced. */
  predicate IsCanonical(e: Engine, head: Hash) {
    forall i :: 0 <= i < |e.forkHistory| ==>
      !(e.forkHistory[i].forkTip == head && e.forkHistory[i].forkLength <= e.forkHistory[i].mainLength)
  }

  /** The producer is credited with a block, once by itself and once more with its uptime. */
  function Credit(e: Engine, a: Address): Engine {
    if a !in e.validators then e
    else e.(validators := e.validators[a := e.validators[a].(produced := e.validators[a].produced + 2)])
  }

  function MinNumber(blocks: seq<Block>): nat
    requires blocks != []
  {
    if |blocks| == 1 then blocks[0].header.number
    else Min(blocks[0].header.number, MinNumber(blocks[1..]))
  }

  /** The ancestor's number as inferred from the path alone. */
  function InferredAncestor(p: ReorgPath): Option<nat> {
    if p.revert != [] then Some(Max(MinNumber(p.revert) - 1, 0))
    else if p.apply != [] then Some(Max(p.apply[0].header.number - 1, 0))
    else None
  }

  function Refused(e: Engine, p: ReorgPath): Option<Refusal> {
    match InferredAncestor(p)
    case None => Some(EmptyPath)
    case Some(n) =>
      if e.highestJustified.Some? && n < e.highestJustified.value then Some(PastCheckpoint(p.depth)) else None
  }

  predicate DoubleSigned(a: Block, r: Block) {
    a.header.number == r.header.number && a.header.proposer == r.header.proposer
  }

  /** One double-signing slash, if the proposer is a registered validator. */
  function SlashFor(o: Oracle, e: Engine, a: Block): Engine {
    var who := a.header.proposer;
    if who !in e.validators then e
    else
      var v := e.validators[who];
      var raw, evidence := o.penalty(e.slashing, v), Some(o.hash(a.header));
      var p := Slashing.PenaltyFor(e.slashing, v, Slashing.DoubleSigning, raw, evidence);
      Slashing.PenaltyWithinStake(e.slashing, v, Slashing.DoubleSigning, raw, evidence);
      e.(slashing := Slashing.Record(e.slashing, p), validators := e.validators[who := Slashing.Slashed(v, p)])
  }

  function SlashEach(o: Oracle, e: Engine, offences: seq<Block>): Engine
    decreases |offences|
  {
    if offences == [] then e
    else SlashFor(o, SlashEach(o, e, offences[..|offences| - 1]), offences[|offences| - 1])
  }

  /** The applied blocks that double-sign against one reverted list, once per match, in loop order. */
  function OffencesOf(a: Block, revert: seq<Block>): seq<Block> {
    if revert == [] then []
    else OffencesOf(a, revert[..|revert| - 1]) + if DoubleSigned(a, revert[|revert| - 1]) then [a] else []
  }

  function Offences(apply: seq<Block>, revert: seq<Block>): seq<Block> {
    if apply == [] then []
    else Offences(apply[..|apply| - 1], revert) + OffencesOf(apply[|apply| - 1], revert)
  }

  function Remember(history: seq<ForkInfo>, info: ForkInfo): seq<ForkInfo> {
    var longer := history + [info];
    if |longer| > HISTORY_LIMIT then longer[1..] else longer
  }

  function InfoOf(o: Oracle, p: ReorgPath, ancestor: nat): ForkInfo {
    ForkInfo(
      ancestor,
      p.commonAncestor,
      if p.revert != [] then o.hash(p.revert[0].header) else p.commonAncestor,
      if p.apply != [] then o.hash(p.apply[|p.apply| - 1].header) else p.commonAncestor,
      |p.revert|,
      |p.apply|)
  }

  function AfterReorg(c: Config, o: Oracle, e: Engine, p: ReorgPath): Engine {
    if Refused(e, p).Some? then e
    else
      var e' := if c.slashForWrongFork then SlashEach(o, e, Offences(p.apply, p.revert)) else e;
      e'.(forkHistory := Remember(e.forkHistory, InfoOf(o, p, InferredAncestor(p).value)),
          forkEvents := e.forkEvents + [InferredAncestor(p).value],
          forkFrequency := e.forkFrequency + 1,
          totalReorgDepth := e.totalReorgDepth + p.depth,
          maxReorgDepthObserved := Max(e.maxReorgDepthObserved, p.depth))
  }

  /** `choose_chain`: every fork choice rule compares lengths. */
  predicate ChoosesFork(p: ReorgPath) {
    p.apply != [] && |p.apply| > |p.revert|
  }

  /** The answer of a reorganisation; `persisted` is what the callback answers, if there is one. */
  function Answer(e: Engine, p: ReorgPath, persisted: Option<bool>): Option<Refusal> {
    if Refused(e, p).Some? then Refused(e, p)
    else if persisted == Some(false) then Some(NotPersisted)
    else None
  }

  datatype Event =
    | Justified(number: nat, now: nat)
    | Reorg(path: ReorgPath)
    | Registered(address: Address, stake: nat)
    | Produced(proposer: Address)

  function Step(c: Config, o: Oracle, e: Engine, event: Event): Engine {
    match event
    case Justified(n, now) => Justify(e, n, now)
    case Reorg(p) => AfterReorg(c, o, e, p)
    case Registered(a, stake) => Register(c, e, a, stake)
    case Produced(a) => Credit(e, a)
  }

  function Run(c: Config, o: Oracle, e: Engine, events: seq<Event>): Engine {
    if events == [] then e else Step(c, o, Run(c, o, e, events[..|events| - 1]), events[|events| - 1])
  }

  // ----- paths produced by the resolver

  /** The path is what the resolver returns for two heads of a well-formed tree. */
  ghost predicate Resolved(p: ReorgPath, t: Tree, g: Hash, oldHead: Hash, newHead: Hash, maxDepth: nat) {
    WellFormed(t, g) && PathOutcome(t, g, oldHead, newHead, maxDepth) == Success(p)
  }

  /** Block numbers along a resolved path step away from the ancestor's by one. */
  lemma ResolvedNumbers(p: ReorgPath, t: Tree, g: Hash, oldHead: Hash, newHead: Hash, maxDepth: nat)
    requires Resolved(p, t, g, oldHead, newHead, maxDepth)
    ensures p.commonAncestor in t
    ensures forall i :: 0 <= i < |p.revert| ==>
      p.revert[i].header.number == Height(t, p.commonAncestor) + |p.revert| - i
    ensures forall i :: 0 <= i < |p.apply| ==>
      p.apply[i].header.number == Height(t, p.commonAncestor) + 1 + i
  {
    OutcomeIsCommon(t, g, oldHead, newHead);
    forall i | 0 <= i < |p.revert|
      ensures p.revert[i].header.number == Height(t, p.commonAncestor) + |p.revert| - i
    {
      UpInTree(t, g, oldHead, i);
    }
    forall i | 0 <= i < |p.apply| ensures p.apply[i].header.number == Height(t, p.commonAncestor) + 1 + i {
      UpInTree(t, g, newHead, |p.apply| - 1 - i);
    }
  }

  lemma {:induction false} MinNumberIs(blocks: seq<Block>, n: nat)
    requires blocks != []
    requires forall i :: 0 <= i < |blocks| ==> blocks[i].header.number == n + |blocks| - 1 - i
    ensures MinNumber(blocks) == n
  {
    if |blocks| > 1 {
      MinNumberIs(blocks[1..], n);
    }
  }

  /** The inferred number is the true number of the common ancestor. */
  lemma InferenceIsExact(p: ReorgPath, t: Tree, g: Hash, oldHead: Hash, newHead: Hash, maxDepth: nat)
    requires Resolved(p, t, g, oldHead, newHead, maxDepth) && (p.revert != [] || p.apply != [])
    ensures p.commonAncestor in t && InferredAncestor(p) == Some(Height(t, p.commonAncestor))
  {
    ResolvedNumbers(p, t, g, oldHead, newHead, maxDepth);
    if p.revert != [] {
      MinNumberIs(p.revert, Height(t, p.commonAncestor) + 1);
    }
  }

  // ----- safety over runs

  lemma {:induction false} SlashKeepsCheckpoint(o: Oracle, e: Engine, offences: seq<Block>)
    ensures SlashEach(o, e, offences).highestJustified == e.highestJustified
    decreases |offences|
  {
    if offences != [] {
      SlashKeepsCheckpoint(o, e, offences[..|offences| - 1]);
    }
  }

  /** A checkpoint, once there, only rises. */
  ghost predicate NotLower(before: Option<nat>, after: Option<nat>) {
    before.Some? ==> after.Some? && before.value <= after.value
  }

  lemma {:induction false} CheckpointNeverFalls(c: Config, o: Oracle, e: Engine, events: seq<Event>, i: nat)
    requires i <= |events|
    ensures NotLower(Run(c, o, e, events[..i]).highestJustified, Run(c, o, e, events).highestJustified)
    decreases |events|
  {
    if i == |events| {
      assert events[..i] == events;
    } else {
      var before := events[..|events| - 1];
      CheckpointNeverFalls(c, o, e, before, i);
      assert before[..i] == events[..i];
      var m := Run(c, o, e, before);
      if events[|events| - 1].Reorg? {
        var p := events[|events| - 1].path;
        SlashKeepsCheckpoint(o, m, Offences(p.apply, p.revert));
      }
    }
  }

  /** Under a checkpoint, finality of a number survives every later event, at any head. */
  lemma FinalityIsPermanent(c: Config, o: Oracle, e: Engine, events: seq<Event>, i: nat, number: nat, head: nat,
                            head': nat)
    requires i <= |events| && Run(c, o, e, events[..i]).highestJustified.Some?
    requires IsFinalized(c, Run(c, o, e, events[..i]), number, head)
    ensures IsFinalized(c, Run(c, o, e, events), number, head')
  {
    CheckpointNeverFalls(c, o, e, events, i);
  }

  /** Before any checkpoint, finality by depth survives the first one exactly up to its number. */
  lemma FirstCheckpointDecides(c: Config, e: Engine, number: nat, head: nat, first: nat, now: nat)
    requires e.highestJustified.None? && IsFinalized(c, e, number, head)
    ensures IsFinalized(c, Justify(e, first, now), number, head) <==> number <= first
  {
  }

  /** A block number final at some point of a run is never reverted by a resolved path accepted later. */
  lemma FinalNeverReverted(c: Config, o: Oracle, e: Engine, events: seq<Event>, i: nat, number: nat, head: nat,
                           p: ReorgPath, t: Tree, g: Hash, oldHead: Hash, newHead: Hash, maxDepth: nat)
    requires i <= |events| && Run(c, o, e, events[..i]).highestJustified.Some?
    requires IsFinalized(c, Run(c, o, e, events[..i]), number, head)
    requires Resolved(p, t, g, oldHead, newHead, maxDepth) && Refused(Run(c, o, e, events), p).None?
    ensures forall k :: 0 <= k < |p.revert| ==> p.revert[k].header.number > number
  {
    CheckpointNeverFalls(c, o, e, events, i);
    ResolvedNumbers(p, t, g, oldHead, newHead, maxDepth);
    InferenceIsExact(p, t, g, oldHead, newHead, maxDepth);
  }

  /** After any run of block additions and any run of checkpoints and reorganisations: a path the resolver finds
      between two stored heads, if accepted, splices their chains and reverts nothing that was final before. */
  lemma ReachableReorgIsSafe(crypto: Chains.Crypto, genesis: Block, additions: seq<(Block, Hash)>,
                             oldHead: Hash, newHead: Hash, maxDepth: nat, p: ReorgPath,
                             c: Config, o: Oracle, e: Engine, events: seq<Event>, i: nat, number: nat, head: nat)
    requires Chains.SoundHashing(crypto) && IsGenesis(genesis)
    requires i <= |events| && Run(c, o, e, events[..i]).highestJustified.Some?
    requires IsFinalized(c, Run(c, o, e, events[..i]), number, head)
    requires var s := Chains.AddAll(crypto, Chains.NewStore(crypto, genesis), additions);
      WellFormed(s.blocks, s.genesis) ==> Resolved(p, s.blocks, s.genesis, oldHead, newHead, maxDepth)
    requires Refused(Run(c, o, e, events), p).None?
    ensures var s := Chains.AddAll(crypto, Chains.NewStore(crypto, genesis), additions);
      && WellFormed(s.blocks, s.genesis)
      && oldHead in s.blocks && newHead in s.blocks && p.commonAncestor in s.blocks
      && Chain(s.blocks, s.genesis, oldHead) == Chain(s.blocks, s.genesis, p.commonAncestor) + Reverse(p.revert)
      && Chain(s.blocks, s.genesis, newHead) == Chain(s.blocks, s.genesis, p.commonAncestor) + p.apply
      && forall k :: 0 <= k < |p.revert| ==> p.revert[k].header.number > number
  {
    var s := Chains.AddAll(crypto, Chains.NewStore(crypto, genesis), additions);
    Chains.NewIsConsistent(crypto, genesis);
    Chains.RunsAreConsistent(crypto, Chains.NewStore(crypto, genesis), additions);
    PathSplices(s.blocks, s.genesis, oldHead, newHead, maxDepth);
    FinalNeverReverted(c, o, e, events, i, number, head, p, s.blocks, s.genesis, oldHead, newHead, maxDepth);
  }

  /** Without a checkpoint every path that changes anything is accepted; a block final by its depth under the old head
      is reverted exactly when it lies above the common ancestor. */
  lemma DepthFinalIsRevertedIff(c: Config, e: Engine, p: ReorgPath, t: Tree, g: Hash, oldHead: Hash, newHead: Hash,
                                maxDepth: nat, n: nat)
    requires Resolved(p, t, g, oldHead, newHead, maxDepth) && (p.revert != [] || p.apply != [])
    requires e.highestJustified.None? && (oldHead in t ==> IsFinalized(c, e, n, Height(t, oldHead)))
    ensures Refused(e, p).None? && p.commonAncestor in t
    ensures (exists k :: 0 <= k < |p.revert| && p.revert[k].header.number == n) <==> n > Height(t, p.commonAncestor)
  {
    ResolvedNumbers(p, t, g, oldHead, newHead, maxDepth);
    InferenceIsExact(p, t, g, oldHead, newHead, maxDepth);
    PathShape(p, t, g, oldHead, newHead, maxDepth);
    if n > Height(t, p.commonAncestor) {
      var k := Height(t, oldHead) - n;
      assert p.revert[k].header.number == n;
    }
  }

  /** At any depth of finality within the limits of the search, some reachable fork is accepted that reverts block one,
      final by then. */
  lemma DepthFinalIsReverted(crypto: Chains.Crypto, genesis: Block, c: Config, e: Engine, maxDepth: nat)
    requires Chains.SoundHashing(crypto) && IsGenesis(genesis) && e.highestJustified.None?
    requires c.finalityBlocks < maxDepth && c.finalityBlocks < SEARCH_LIMIT
    ensures exists additions, oldHead, newHead, p: ReorgPath ::
      var s := Chains.AddAll(crypto, Chains.NewStore(crypto, genesis), additions);
      && Resolved(p, s.blocks, s.genesis, oldHead, newHead, maxDepth) && Refused(e, p).None?
      && oldHead in s.blocks && IsFinalized(c, e, 1, Height(s.blocks, oldHead))
      && exists k :: 0 <= k < |p.revert| && p.revert[k].header.number == 1
  {
    var additions, a, b := Chains.EqualHeads(crypto, genesis, c.finalityBlocks);
    var s := Chains.AddAll(crypto, Chains.NewStore(crypto, genesis), additions);
    assert PathOutcome(s.blocks, s.genesis, a, b, maxDepth).Success?;
    var p := PathOutcome(s.blocks, s.genesis, a, b, maxDepth).value;
    assert Resolved(p, s.blocks, s.genesis, a, b, maxDepth);
    PathShape(p, s.blocks, s.genesis, a, b, maxDepth);
    DepthFinalIsRevertedIff(c, e, p, s.blocks, s.genesis, a, b, maxDepth, 1);
  }

  /** A path between heads of equal height above genesis is refused exactly when some block above genesis is final. */
  lemma EqualHeightsAreRefusedIff(p: ReorgPath, t: Tree, g: Hash, oldHead: Hash, newHead: Hash, maxDepth: nat,
                                  e: Engine)
    requires Resolved(p, t, g, oldHead, newHead, maxDepth)
    requires oldHead in t && newHead in t ==> Height(t, oldHead) == Height(t, newHead) > 0
    ensures Refused(e, p).Some? <==> e.highestJustified.Some? && e.highestJustified.value > 0
  {
    OutcomeIsCommon(t, g, oldHead, newHead);
    InferenceIsExact(p, t, g, oldHead, newHead, maxDepth);
  }

  /** After an accepted path a new tip that was not among the losers is canonical exactly when its side was chosen. */
  lemma CanonicalIffChosen(c: Config, o: Oracle, e: Engine, p: ReorgPath)
    requires Refused(e, p).None? && p.apply != []
    requires IsCanonical(e, o.hash(p.apply[|p.apply| - 1].header))
    ensures IsCanonical(AfterReorg(c, o, e, p), o.hash(p.apply[|p.apply| - 1].header)) <==> ChoosesFork(p)
  {
    var info, history := InfoOf(o, p, InferredAncestor(p).value), AfterReorg(c, o, e, p).forkHistory;
    assert history[|history| - 1] == info;
    assert forall i :: 0 <= i < |history| - 1 ==> history[i] in e.forkHistory;
  }

  // ----- double signing

  lemma {:induction false} OffencesOfNone(a: Block, revert: seq<Block>)
    requires forall i :: 0 <= i < |revert| ==> !DoubleSigned(a, revert[i])
    ensures OffencesOf(a, revert) == []
  {
    if revert != [] {
      OffencesOfNone(a, revert[..|revert| - 1]);
    }
  }

  lemma {:induction false} OffencesOfOne(a: Block, revert: seq<Block>, k: nat)
    requires k < |revert| && DoubleSigned(a, revert[k])
    requires forall i :: 0 <= i < |revert| && i != k ==> !DoubleSigned(a, revert[i])
    ensures OffencesOf(a, revert) == [a]
  {
    var before := revert[..|revert| - 1];
    if k == |revert| - 1 {
      OffencesOfNone(a, before);
    } else {
      OffencesOfOne(a, before, k);
    }
  }

  /** Some reverted block has the same height and proposer. */
  ghost predicate SignedTwice(a: Block, revert: seq<Block>) {
    exists k :: 0 <= k < |revert| && DoubleSigned(a, revert[k])
  }

  ghost predicate DistinctNumbers(blocks: seq<Block>) {
    forall i, j :: 0 <= i < j < |blocks| ==> blocks[i].header.number != blocks[j].header.number
  }

  lemma OffencesOfEach(a: Block, revert: seq<Block>)
    requires DistinctNumbers(revert)
    ensures OffencesOf(a, revert) == if SignedTwice(a, revert) then [a] else []
  {
    if k :| 0 <= k < |revert| && DoubleSigned(a, revert[k]) {
      OffencesOfOne(a, revert, k);
    } else {
      OffencesOfNone(a, revert);
    }
  }

  /** Over rising heights against distinct ones, the offences are the blocks signed twice, in order, once each. */
  lemma {:induction false} OffencesRise(apply: seq<Block>, revert: seq<Block>)
    requires DistinctNumbers(revert)
    requires forall i, j :: 0 <= i < j < |apply| ==> apply[i].header.number < apply[j].header.number
    ensures var found := Offences(apply, revert);
      && (forall i, j :: 0 <= i < j < |found| ==> found[i].header.number < found[j].header.number)
      && (forall b :: b in found <==> b in apply && SignedTwice(b, revert))
  {
    if apply != [] {
      var before, last := apply[..|apply| - 1], apply[|apply| - 1];
      assert apply == before + [last];
      OffencesRise(before, revert);
      OffencesOfEach(last, revert);
      assert forall b :: b in before ==> b.header.number < last.header.number;
    }
  }

  /** On a resolved path the scan slashes once for each applied block whose height and proposer a reverted one has. */
  lemma OneSlashPerHeight(p: ReorgPath, t: Tree, g: Hash, oldHead: Hash, newHead: Hash, maxDepth: nat)
    requires Resolved(p, t, g, oldHead, newHead, maxDepth)
    ensures var found := Offences(p.apply, p.revert);
      && (forall i, j :: 0 <= i < j < |found| ==> found[i].header.number < found[j].header.number)
      && (forall b :: b in found <==> b in p.apply && SignedTwice(b, p.revert))
  {
    ResolvedNumbers(p, t, g, oldHead, newHead, maxDepth);
    OffencesRise(p.apply, p.revert);
  }

  /** Every validator is stored under its own address. */
  ghost predicate Keyed(e: Engine) {
    forall a :: a in e.validators ==> e.validators[a].address == a
  }

  /** So it is in every run of a new engine. */
  lemma {:induction false} RunsKeepKeyed(c: Config, o: Oracle, events: seq<Event>)
    ensures Keyed(Run(c, o, NEW_ENGINE, events))
    decreases |events|
  {
    if events != [] {
      RunsKeepKeyed(c, o, events[..|events| - 1]);
      var e, event := Run(c, o, NEW_ENGINE, events[..|events| - 1]), events[|events| - 1];
      if event.Reorg? {
        OnePenaltyPerOffence(o, e, Offences(event.path.apply, event.path.revert), 0);
      }
    }
  }

  /** How many of the blocks `a` proposed. */
  function ProposedBy(blocks: seq<Block>, a: Address): nat {
    if blocks == [] then 0
    else ProposedBy(blocks[..|blocks| - 1], a) + if blocks[|blocks| - 1].header.proposer == a then 1 else 0
  }

  /** Slashing adds exactly one penalty per offence of each registered proposer, and none for anybody else. */
  lemma {:induction false} OnePenaltyPerOffence(o: Oracle, e: Engine, offences: seq<Block>, a: Address)
    requires Keyed(e)
    ensures var e' := SlashEach(o, e, offences);
      && Keyed(e') && e'.validators.Keys == e.validators.Keys
      && Slashing.Against(e'.slashing.history, a) ==
           Slashing.Against(e.slashing.history, a) + if a in e.validators then ProposedBy(offences, a) else 0
    decreases |offences|
  {
    if offences != [] {
      var before, last := offences[..|offences| - 1], offences[|offences| - 1];
      OnePenaltyPerOffence(o, e, before, a);
      SlashForOne(o, SlashEach(o, e, before), last, a);
    }
  }

  lemma SlashForOne(o: Oracle, e: Engine, b: Block, a: Address)
    requires Keyed(e)
    ensures var e' := SlashFor(o, e, b);
      && Keyed(e') && e'.validators.Keys == e.validators.Keys
      && Slashing.Against(e'.slashing.history, a) ==
           Slashing.Against(e.slashing.history, a) +
           if b.header.proposer == a && a in e.validators then 1 else 0
  {
    if b.header.proposer in e.validators {
      var history := SlashFor(o, e, b).slashing.history;
      assert history[..|history| - 1] == e.slashing.history;
    }
  }

  lemma {:induction false} ProposedOne(blocks: seq<Block>, b: Block)
    requires b in blocks
    ensures ProposedBy(blocks, b.header.proposer) > 0
  {
    var before, last := blocks[..|blocks| - 1], blocks[|blocks| - 1];
    assert blocks == before + [last];
    if b in before {
      ProposedOne(before, b);
    }
  }

  /** Each offence of an accepted path costs its registered proposer a penalty. */
  lemma OffenceIsPunished(c: Config, o: Oracle, e: Engine, p: ReorgPath, b: Block)
    requires Keyed(e) && c.slashForWrongFork && Refused(e, p).None? && b in Offences(p.apply, p.revert)
    requires b.header.proposer in e.validators
    ensures Slashing.Against(AfterReorg(c, o, e, p).slashing.history, b.header.proposer) >
            Slashing.Against(e.slashing.history, b.header.proposer)
  {
    OnePenaltyPerOffence(o, e, Offences(p.apply, p.revert), b.header.proposer);
    ProposedOne(Offences(p.apply, p.revert), b);
  }

  // ----- which of these slashes have evidence of two different blocks

  /** Whatever the scan matches are two different blocks. */
  ghost predicate Genuine(p: ReorgPath) {
    forall a, r :: a in p.apply && r in p.revert && DoubleSigned(a, r) ==> a.header != r.header
  }

  /** Where a resolved path starts, and how long its sides are. */
  lemma PathShape(p: ReorgPath, t: Tree, g: Hash, oldHead: Hash, newHead: Hash, maxDepth: nat)
    requires Resolved(p, t, g, oldHead, newHead, maxDepth)
    ensures oldHead in t && newHead in t && p.commonAncestor in t
    ensures IsAncestor(t, p.commonAncestor, oldHead) && IsAncestor(t, p.commonAncestor, newHead)
    ensures |p.revert| == Height(t, oldHead) - Height(t, p.commonAncestor)
    ensures |p.apply| == Height(t, newHead) - Height(t, p.commonAncestor)
    ensures p.revert == Segment(t, g, oldHead, |p.revert|)
    ensures p.apply == Reverse(Segment(t, g, newHead, |p.apply|))
  {
    OutcomeIsCommon(t, g, oldHead, newHead);
  }

  /** Where the blocks of its sides stand in the tree. */
  lemma RevertAt(revert: seq<Block>, t: Tree, g: Hash, head: Hash, i: nat)
    requires WellFormed(t, g) && head in t && |revert| <= Height(t, head) && i < |revert|
    requires revert == Segment(t, g, head, |revert|)
    ensures Up(t, head, i) in t && revert[i] == t[Up(t, head, i)]
  {
    UpInTree(t, g, head, i);
  }

  lemma ApplyAt(apply: seq<Block>, t: Tree, g: Hash, head: Hash, i: nat)
    requires WellFormed(t, g) && head in t && |apply| <= Height(t, head) && i < |apply|
    requires apply == Reverse(Segment(t, g, head, |apply|))
    ensures Up(t, head, i) in t && apply[|apply| - 1 - i] == t[Up(t, head, i)]
  {
    var walked := Segment(t, g, head, |apply|);
    ReverseAt(walked, i);
    RevertAt(walked, t, g, head, i);
  }

  lemma BelowLowest(t: Tree, g: Hash, a: Hash, b: Hash, x: Hash)
    requires WellFormed(t, g) && a in t && b in t && IsAncestor(t, x, a) && IsAncestor(t, x, b)
    requires x != Lowest(t, g, a, b)
    ensures Height(t, x) < Height(t, Lowest(t, g, a, b))
  {
    LowestIsLowest(t, g, a, b, x);
    assert Up(t, Lowest(t, g, a, b), 0) == Lowest(t, g, a, b);
  }

  /** A path that starts below the lowest common ancestor has that block on both sides. */
  lemma LowestIsShared(p: ReorgPath, t: Tree, g: Hash, oldHead: Hash, newHead: Hash, maxDepth: nat)
    requires Resolved(p, t, g, oldHead, newHead, maxDepth)
    requires oldHead in t && newHead in t ==> p.commonAncestor != Lowest(t, g, oldHead, newHead)
    ensures oldHead in t && newHead in t
    ensures var x := t[Lowest(t, g, oldHead, newHead)]; x in p.revert && x in p.apply
  {
    PathShape(p, t, g, oldHead, newHead, maxDepth);
    var l := Lowest(t, g, oldHead, newHead);
    BelowLowest(t, g, oldHead, newHead, p.commonAncestor);
    LowestIsCommon(t, g, oldHead, newHead);
    var i, j := Height(t, oldHead) - Height(t, l), Height(t, newHead) - Height(t, l);
    RevertAt(p.revert, t, g, oldHead, i);
    ApplyAt(p.apply, t, g, newHead, j);
  }

  /** So that block is slashed for, though nobody signed another one in its place. */
  lemma SharedBlockIsSlashed(p: ReorgPath, t: Tree, g: Hash, oldHead: Hash, newHead: Hash, maxDepth: nat)
    requires Resolved(p, t, g, oldHead, newHead, maxDepth)
    requires oldHead in t && newHead in t ==> p.commonAncestor != Lowest(t, g, oldHead, newHead)
    ensures oldHead in t && newHead in t
    ensures var x := t[Lowest(t, g, oldHead, newHead)];
      x in p.revert && x in p.apply && x in Offences(p.apply, p.revert)
  {
    LowestIsShared(p, t, g, oldHead, newHead, maxDepth);
    var x := t[Lowest(t, g, oldHead, newHead)];
    var i :| 0 <= i < |p.revert| && p.revert[i] == x;
    assert SignedTwice(x, p.revert) by { assert DoubleSigned(x, p.revert[i]); }
    OneSlashPerHeight(p, t, g, oldHead, newHead, maxDepth);
  }

  lemma HeaderTellsHash(c: Chains.Crypto, s: Chains.Store, x: Hash, y: Hash)
    requires Chains.Consistent(c, s) && x in s.blocks && y in s.blocks && s.blocks[x].header == s.blocks[y].header
    ensures x == y
  {
    assert Chains.Linked(c, s, x) && Chains.Linked(c, s, y);
  }

  /** If the path starts at the lowest common ancestor, its two sides share no block. */
  lemma SidesAreDisjoint(c: Chains.Crypto, s: Chains.Store, p: ReorgPath, oldHead: Hash, newHead: Hash, maxDepth: nat,
                         i: nat, j: nat)
    requires Chains.Consistent(c, s) && Resolved(p, s.blocks, s.genesis, oldHead, newHead, maxDepth)
    requires oldHead in s.blocks && newHead in s.blocks ==>
      p.commonAncestor == Lowest(s.blocks, s.genesis, oldHead, newHead)
    requires i < |p.revert| && j < |p.apply|
    ensures p.apply[|p.apply| - 1 - j].header != p.revert[i].header
  {
    PathShape(p, s.blocks, s.genesis, oldHead, newHead, maxDepth);
    RevertAt(p.revert, s.blocks, s.genesis, oldHead, i);
    ApplyAt(p.apply, s.blocks, s.genesis, newHead, j);
    UpInTree(s.blocks, s.genesis, oldHead, i);
    var x, y := Up(s.blocks, oldHead, i), Up(s.blocks, newHead, j);
    if s.blocks[x].header == s.blocks[y].header {
      HeaderTellsHash(c, s, x, y);
      WalksMeet(s.blocks, s.genesis, oldHead, newHead, i, j);
    }
  }

  /** The matches are genuine exactly when the path starts at the lowest common ancestor. */
  lemma GenuineIff(c: Chains.Crypto, s: Chains.Store, p: ReorgPath, oldHead: Hash, newHead: Hash, maxDepth: nat)
    requires Chains.Consistent(c, s) && Resolved(p, s.blocks, s.genesis, oldHead, newHead, maxDepth)
    ensures oldHead in s.blocks && newHead in s.blocks
    ensures Genuine(p) <==> p.commonAncestor == Lowest(s.blocks, s.genesis, oldHead, newHead)
  {
    PathShape(p, s.blocks, s.genesis, oldHead, newHead, maxDepth);
    if p.commonAncestor != Lowest(s.blocks, s.genesis, oldHead, newHead) {
      SharedBlockIsSlashed(p, s.blocks, s.genesis, oldHead, newHead, maxDepth);
      var x := s.blocks[Lowest(s.blocks, s.genesis, oldHead, newHead)];
      assert DoubleSigned(x, x);
    } else {
      forall a, r | a in p.apply && r in p.revert && DoubleSigned(a, r) ensures a.header != r.header {
        var i :| 0 <= i < |p.revert| && p.revert[i] == r;
        var k :| 0 <= k < |p.apply| && p.apply[k] == a;
        SidesAreDisjoint(c, s, p, oldHead, newHead, maxDepth, i, |p.apply| - 1 - k);
      }
    }
  }

  /** After any run from genesis, slashing for a resolved path punishes only proposers of two different blocks
      exactly when the heads differ in height or have no common ancestor above genesis. */
  lemma SlashesAreGenuineIff(c: Chains.Crypto, genesis: Block, additions: seq<(Block, Hash)>, p: ReorgPath,
                             oldHead: Hash, newHead: Hash, maxDepth: nat)
    requires Chains.SoundHashing(c) && IsGenesis(genesis)
    requires var s := Chains.AddAll(c, Chains.NewStore(c, genesis), additions);
      WellFormed(s.blocks, s.genesis) ==> Resolved(p, s.blocks, s.genesis, oldHead, newHead, maxDepth)
    ensures var s := Chains.AddAll(c, Chains.NewStore(c, genesis), additions);
      && WellFormed(s.blocks, s.genesis) && oldHead in s.blocks && newHead in s.blocks
      && (Genuine(p) <==>
            || Height(s.blocks, oldHead) != Height(s.blocks, newHead)
            || Lowest(s.blocks, s.genesis, oldHead, newHead) == s.genesis)
  {
    var s := Chains.AddAll(c, Chains.NewStore(c, genesis), additions);
    Chains.NewIsConsistent(c, genesis);
    Chains.RunsAreConsistent(c, Chains.NewStore(c, genesis), additions);
    GenuineIff(c, s, p, oldHead, newHead, maxDepth);
  }

  predicate SameSigner(a: Block, b: Block) {
    a.header.proposer == b.header.proposer
  }

  /** The proposer of `x` has signed at most one stored block of each height. */
  ghost predicate SignedOnce(t: Tree, x: Block) {
    forall h, k :: h in t && k in t && SameSigner(t[h], x) && DoubleSigned(t[h], t[k]) ==> h == k
  }

  lemma FirstSignedOnce(c: Chains.Crypto, genesis: Block)
    requires Chains.SoundHashing(c) && IsGenesis(genesis)
    ensures var s := Chains.AddAll(c, Chains.NewStore(c, genesis), Chains.SiblingRun(c, genesis));
      SignedOnce(s.blocks, Chains.First(c, genesis))
  {
    Chains.SiblingsAreStored(c, genesis);
  }

  /** The resolved path between the two siblings, with the first block on both sides. */
  lemma SiblingPath(c: Chains.Crypto, genesis: Block, maxDepth: nat) returns (p: ReorgPath)
    requires Chains.SoundHashing(c) && IsGenesis(genesis) && maxDepth >= 2
    ensures var s := Chains.AddAll(c, Chains.NewStore(c, genesis), Chains.SiblingRun(c, genesis));
      var x := Chains.First(c, genesis);
      && Resolved(p, s.blocks, s.genesis, c.header(Chains.Sibling(c, genesis, 0).header),
                  c.header(Chains.Sibling(c, genesis, 1).header), maxDepth)
      && x in p.revert && x in p.apply && x in Offences(p.apply, p.revert)
  {
    var s := Chains.AddAll(c, Chains.NewStore(c, genesis), Chains.SiblingRun(c, genesis));
    var a, b := c.header(Chains.Sibling(c, genesis, 0).header), c.header(Chains.Sibling(c, genesis, 1).header);
    Chains.SiblingsAreStored(c, genesis);
    Chains.SiblingsShareParent(s.blocks, s.genesis, a, b, c.header(Chains.First(c, genesis).header));
    assert PathOutcome(s.blocks, s.genesis, a, b, maxDepth).Success?;
    p := PathOutcome(s.blocks, s.genesis, a, b, maxDepth).value;
    assert Resolved(p, s.blocks, s.genesis, a, b, maxDepth);
    SharedBlockIsSlashed(p, s.blocks, s.genesis, a, b, maxDepth);
  }

  /** Two siblings above the first block: its proposer, who signed no other block, is slashed for it. */
  lemma InnocentIsSlashed(c: Chains.Crypto, genesis: Block, maxDepth: nat)
    requires Chains.SoundHashing(c) && IsGenesis(genesis) && maxDepth >= 2
    ensures exists additions, oldHead, newHead, p: ReorgPath, x ::
      var s := Chains.AddAll(c, Chains.NewStore(c, genesis), additions);
      && Resolved(p, s.blocks, s.genesis, oldHead, newHead, maxDepth)
      && x in p.revert && x in p.apply && x in Offences(p.apply, p.revert)
      && SignedOnce(s.blocks, x)
  {
    var p := SiblingPath(c, genesis, maxDepth);
    FirstSignedOnce(c, genesis);
  }

  // ----- the stateful object

  class PoASConsensus {
    const config: Config
    const oracle: Oracle
    const slashing: Slashing.SlashingManager
    var validators: map<Address, Slashing.Validator>
    var highestJustified: Option<nat>
    var checkpoints: set<nat>
    var finalityTimes: seq<(nat, nat)>
    var forkEvents: seq<nat>
    var forkHistory: seq<ForkInfo>
    var forkFrequency: nat
    var totalReorgDepth: nat
    var maxReorgDepthObserved: nat

    ghost function Value(): Engine
      reads this, slashing
    {
      Engine(highestJustified, checkpoints, finalityTimes, forkEvents, forkHistory, forkFrequency,
             totalReorgDepth, maxReorgDepthObserved, slashing.Value(), validators)
    }

    constructor (config: Config, oracle: Oracle)
      ensures this.config == config && this.oracle == oracle && fresh(slashing)
      ensures Value() == NEW_ENGINE
    {
      this.config, this.oracle := config, oracle;
      slashing := new Slashing.SlashingManager();
      validators, highestJustified, forkHistory := map[], None, [];
      checkpoints, finalityTimes, forkEvents := {}, [], [];
      forkFrequency, totalReorgDepth, maxReorgDepthObserved := 0, 0, 0;
    }

    method RegisterValidator(a: Address, stake: nat) returns (r: Option<RegisterError>)
      modifies `validators
      ensures r == RegisterRefusal(config, old(Value()), a, stake)
      ensures Value() == Register(config, old(Value()), a, stake)
    {
      if |validators| >= config.maxValidators {
        return Some(TooManyValidators);
      }
      if a in validators {
        return Some(AlreadyExists);
      }
      if stake < config.minStake {
        return Some(InsufficientStake);
      }
      validators := validators[a := Slashing.Validator(a, stake, false, 0)];
      return None;
    }

    method UpdateJustifiedCheckpoint(number: nat, now: nat)
      modifies `highestJustified, `checkpoints, `finalityTimes
      ensures Value() == Justify(old(Value()), number, now)
    {
      checkpoints := checkpoints + {number};
      highestJustified := Some(Max(if highestJustified.Some? then highestJustified.value else 0, number));
      finalityTimes := finalityTimes + [(number, now)];
    }

    /** The scan of the fork history for a head that lost. */
    method VerifyChainCanonical(head: Hash) returns (ok: bool)
      ensures ok <==> IsCanonical(Value(), head)
    {
      for i := 0 to |forkHistory|
        invariant forall j :: 0 <= j < i ==>
          !(forkHistory[j].forkTip == head && forkHistory[j].forkLength <= forkHistory[j].mainLength)
      {
        if forkHistory[i].forkTip == head && forkHistory[i].forkLength <= forkHistory[i].mainLength {
          return false;
        }
      }
      return true;
    }

    method CreditProposer(a: Address)
      modifies `validators
      ensures Value() == Credit(old(Value()), a)
    {
      if a in validators {
        var v := validators[a];
        v := v.(produced := v.produced + 1);
        v := v.(produced := v.produced + 1);
        validators := validators[a := v];
      }
    }

    method SlashDoubleSigner(a: Block)
      modifies `validators, slashing
      ensures Value() == SlashFor(oracle, old(Value()), a)
    {
      var who := a.header.proposer;
      if who in validators {
        var manager := Slashing.Manager(slashing.history, slashing.offenseCount, slashing.insuranceFund,
                                        slashing.totalSlashed, slashing.totalBurned);
        var raw := oracle.penalty(manager, validators[who]);
        var after, _ := slashing.SlashValidator(
          validators[who], Slashing.DoubleSigning, raw, Some(oracle.hash(a.header)));
        validators := validators[who := after];
      }
    }

    /** The nested scan for double signing. */
    method SlashDoubleSigners(apply: seq<Block>, revert: seq<Block>)
      modifies `validators, slashing
      ensures Value() == SlashEach(oracle, old(Value()), Offences(apply, revert))
    {
      ghost var start := Value();
      for i := 0 to |apply|
        invariant Value() == SlashEach(oracle, start, Offences(apply[..i], revert))
      {
        ghost var done := Offences(apply[..i], revert);
        assert apply[..i + 1][..i] == apply[..i];
        assert done + OffencesOf(apply[i], revert[..0]) == done;
        for j := 0 to |revert|
          invariant Value() == SlashEach(oracle, start, done + OffencesOf(apply[i], revert[..j]))
        {
          assert revert[..j + 1][..j] == revert[..j];
          if DoubleSigned(apply[i], revert[j]) {
            SlashDoubleSigner(apply[i]);
            SlashNext(oracle, start, done, OffencesOf(apply[i], revert[..j]), apply[i]);
          } else {
            assert OffencesOf(apply[i], revert[..j + 1]) == OffencesOf(apply[i], revert[..j]);
          }
        }
        assert revert[..|revert|] == revert;
      }
      assert apply[..|apply|] == apply;
    }

    /** The fork history and the metrics after an accepted reorganisation. */
    method RecordFork(info: ForkInfo, depth: nat)
      modifies `forkHistory, `forkEvents, `forkFrequency, `totalReorgDepth, `maxReorgDepthObserved
      ensures Value() == old(Value()).(
        forkHistory := Remember(old(forkHistory), info),
        forkEvents := old(forkEvents) + [info.forkPoint],
        forkFrequency := old(forkFrequency) + 1,
        totalReorgDepth := old(totalReorgDepth) + depth,
        maxReorgDepthObserved := Max(old(maxReorgDepthObserved), depth))
    {
      forkHistory := forkHistory + [info];
      if |forkHistory| > HISTORY_LIMIT {
        forkHistory := forkHistory[1..];
      }
      forkEvents := forkEvents + [info.forkPoint];
      forkFrequency := forkFrequency + 1;
      totalReorgDepth := totalReorgDepth + depth;
      if depth > maxReorgDepthObserved {
        maxReorgDepthObserved := depth;
      }
    }

    /** `persisted` is the callback's answer, if there is a callback; `notice` is what it is given. */
    method ApplyReorg(p: ReorgPath, persisted: Option<bool>) returns (r: Option<Refusal>, notice: Option<Notice>)
      modifies `validators, `forkHistory, `forkEvents, `forkFrequency, `totalReorgDepth, `maxReorgDepthObserved
      modifies slashing
      ensures r == Answer(old(Value()), p, persisted)
      ensures Value() == AfterReorg(config, oracle, old(Value()), p)
      ensures notice.Some? <==> persisted.Some? && Refused(old(Value()), p).None?
      ensures notice.Some? ==>
        notice.value == Notice(InfoOf(oracle, p, InferredAncestor(p).value), p.depth, ChoosesFork(p))
    {
      notice := None;
      var inferred := InferredAncestor(p);
      if inferred.None? {
        return Some(EmptyPath), None;
      }
      if highestJustified.Some? && inferred.value < highestJustified.value {
        return Some(PastCheckpoint(p.depth)), None;
      }
      if config.slashForWrongFork {
        SlashDoubleSigners(p.apply, p.revert);
      }
      var info := InfoOf(oracle, p, inferred.value);
      RecordFork(info, p.depth);
      if persisted.Some? {
        notice := Some(Notice(info, p.depth, ChoosesFork(p)));
        if !persisted.value {
          return Some(NotPersisted), notice;
        }
      }
      return None, notice;
    }
  }

  lemma SlashNext(o: Oracle, e: Engine, done: seq<Block>, more: seq<Block>, a: Block)
    ensures SlashEach(o, e, done + (more + [a])) == SlashFor(o, SlashEach(o, e, done + more), a)
  {
    var all := done + (more + [a]);
    assert all == done + more + [a];
    assert all[..|all| - 1] == done + more && all[|all| - 1] == a;
  }
}
