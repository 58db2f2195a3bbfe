/** What the consensus engine remembers over whole runs (poas.rs, fork.rs). */
module EngineRuns {
  import opened Types
  import opened Blocks
  import opened Forks
  import opened Finality
  import Chains
  import Slashing
  import Sums

  // ----- which reorganisations a run accepts

  /** The accepted paths of a run, in order. */
  function Accepted(c: Config, o: Oracle, e: Engine, events: seq<Event>): (paths: seq<ReorgPath>)
    ensures forall i :: 0 <= i < |paths| ==> InferredAncestor(paths[i]).Some?
  {
    if events == [] then []
    else
      var before, last := events[..|events| - 1], events[|events| - 1];
      Accepted(c, o, e, before) +
      if last.Reorg? && Refused(Run(c, o, e, before), last.path).None? then [last.path] else []
  }

  lemma AcceptedNext(c: Config, o: Oracle, events: seq<Event>)
    requires events != []
    ensures var e, last := Run(c, o, NEW_ENGINE, events[..|events| - 1]), events[|events| - 1];
      && Run(c, o, NEW_ENGINE, events) == Step(c, o, e, last)
      && var paths := Accepted(c, o, NEW_ENGINE, events[..|events| - 1]);
      && Accepted(c, o, NEW_ENGINE, events) ==
           if last.Reorg? && Refused(e, last.path).None? then paths + [last.path] else paths
  {
    var paths := Accepted(c, o, NEW_ENGINE, events[..|events| - 1]);
    assert paths + [] == paths;
  }

  /** The other events, and refused paths, leave the fork records alone. */
  lemma OthersKeepRecords(c: Config, o: Oracle, e: Engine, event: Event)
    requires !(event.Reorg? && Refused(e, event.path).None?)
    ensures var e' := Step(c, o, e, event);
      && (e'.forkHistory, e'.forkEvents, e'.forkFrequency) == (e.forkHistory, e.forkEvents, e.forkFrequency)
      && (e'.totalReorgDepth, e'.maxReorgDepthObserved) == (e.totalReorgDepth, e.maxReorgDepthObserved)
  {
  }

  /** What is recorded of each. */
  function Infos(o: Oracle, paths: seq<ReorgPath>): (infos: seq<ForkInfo>)
    requires forall i :: 0 <= i < |paths| ==> InferredAncestor(paths[i]).Some?
    ensures |infos| == |paths|
  {
    if paths == [] then []
    else
      var last := paths[|paths| - 1];
      Infos(o, paths[..|paths| - 1]) + [InfoOf(o, last, InferredAncestor(last).value)]
  }

  lemma {:induction false} InfosAt(o: Oracle, paths: seq<ReorgPath>, i: nat)
    requires forall i :: 0 <= i < |paths| ==> InferredAncestor(paths[i]).Some?
    requires i < |paths|
    ensures Infos(o, paths)[i] == InfoOf(o, paths[i], InferredAncestor(paths[i]).value)
  {
    if i < |paths| - 1 {
      InfosAt(o, paths[..|paths| - 1], i);
    }
  }

  /** Slashing touches the ledger and the validators alone. */
  lemma {:induction false} SlashKeepsRest(o: Oracle, e: Engine, offences: seq<Block>)
    ensures var e' := SlashEach(o, e, offences); e' == e.(slashing := e'.slashing, validators := e'.validators)
    decreases |offences|
  {
    if offences != [] {
      SlashKeepsRest(o, e, offences[..|offences| - 1]);
    }
  }

  // ----- the fork history

  function LastHundred<T>(s: seq<T>): seq<T> {
    if |s| <= 100 then s else s[|s| - 100..]
  }

  lemma RememberIsLastHundred(all: seq<ForkInfo>, info: ForkInfo)
    ensures Remember(LastHundred(all), info) == LastHundred(all + [info])
  {
  }

  lemma InfosNext(o: Oracle, paths: seq<ReorgPath>, p: ReorgPath)
    requires forall i :: 0 <= i < |paths| ==> InferredAncestor(paths[i]).Some?
    requires InferredAncestor(p).Some?
    ensures Infos(o, paths + [p]) == Infos(o, paths) + [InfoOf(o, p, InferredAncestor(p).value)]
  {
    assert (paths + [p])[..|paths|] == paths;
  }

  /** What one event does to the history. */
  lemma StepHistory(c: Config, o: Oracle, e: Engine, event: Event)
    ensures Step(c, o, e, event).forkHistory ==
      if event.Reorg? && Refused(e, event.path).None?
      then Remember(e.forkHistory, InfoOf(o, event.path, InferredAncestor(event.path).value))
      else e.forkHistory
  {
  }

  /** In every run of a new engine the history is the last hundred accepted forks, in order. */
  lemma {:induction false} HistoryIsLastHundred(c: Config, o: Oracle, events: seq<Event>)
    ensures var history := Run(c, o, NEW_ENGINE, events).forkHistory;
      |history| <= 100 && history == LastHundred(Infos(o, Accepted(c, o, NEW_ENGINE, events)))
    decreases |events|
  {
    if events != [] {
      var before, last := events[..|events| - 1], events[|events| - 1];
      HistoryIsLastHundred(c, o, before);
      var e, paths := Run(c, o, NEW_ENGINE, before), Accepted(c, o, NEW_ENGINE, before);
      AcceptedNext(c, o, events);
      StepHistory(c, o, e, last);
      if last.Reorg? && Refused(e, last.path).None? {
        InfosNext(o, paths, last.path);
        RememberIsLastHundred(Infos(o, paths), InfoOf(o, last.path, InferredAncestor(last.path).value));
      }
    }
  }

  /** The head a path leads to, and whether it lost. */
  function TipOf(o: Oracle, p: ReorgPath): Hash {
    if p.apply != [] then o.hash(p.apply[|p.apply| - 1].header) else p.commonAncestor
  }

  predicate LosesWith(o: Oracle, p: ReorgPath, head: Hash) {
    TipOf(o, p) == head && |p.apply| <= |p.revert|
  }

  lemma LostInRecord(o: Oracle, paths: seq<ReorgPath>, i: nat, head: Hash)
    requires forall i :: 0 <= i < |paths| ==> InferredAncestor(paths[i]).Some?
    requires i < |paths|
    ensures var info := Infos(o, paths)[i];
      LosesWith(o, paths[i], head) <==> info.forkTip == head && info.forkLength <= info.mainLength
  {
    InfosAt(o, paths, i);
  }

  /** Looking through the last hundred records is looking through the last hundred paths. */
  lemma RecordsTellLosers(o: Oracle, paths: seq<ReorgPath>, history: seq<ForkInfo>, head: Hash)
    requires forall i :: 0 <= i < |paths| ==> InferredAncestor(paths[i]).Some?
    requires history == LastHundred(Infos(o, paths))
    ensures (forall j :: 0 <= j < |history| ==>
               !(history[j].forkTip == head && history[j].forkLength <= history[j].mainLength)) <==>
            (forall i :: 0 <= i < |paths| && |paths| - 100 <= i ==> !LosesWith(o, paths[i], head))
  {
    var skipped := if |paths| <= 100 then 0 else |paths| - 100;
    forall i | skipped <= i < |paths|
      ensures LosesWith(o, paths[i], head) <==>
        history[i - skipped].forkTip == head && history[i - skipped].forkLength <= history[i - skipped].mainLength
    {
      LostInRecord(o, paths, i, head);
    }
    forall j | 0 <= j < |history|
      ensures history[j].forkTip == head && history[j].forkLength <= history[j].mainLength <==>
        LosesWith(o, paths[skipped + j], head)
    {
      LostInRecord(o, paths, skipped + j, head);
    }
  }

  /** In every run a head is canonical exactly when it lost none of the last hundred accepted forks. */
  lemma CanonicalIff(c: Config, o: Oracle, events: seq<Event>, head: Hash)
    ensures var paths := Accepted(c, o, NEW_ENGINE, events);
      IsCanonical(Run(c, o, NEW_ENGINE, events), head) <==>
      forall i :: 0 <= i < |paths| && |paths| - 100 <= i ==> !LosesWith(o, paths[i], head)
  {
    HistoryIsLastHundred(c, o, events);
    RecordsTellLosers(o, Accepted(c, o, NEW_ENGINE, events), Run(c, o, NEW_ENGINE, events).forkHistory, head);
  }

  lemma {:induction false} AcceptedGrows(c: Config, o: Oracle, e: Engine, events: seq<Event>, i: nat)
    requires i <= |events|
    ensures var early, all := Accepted(c, o, e, events[..i]), Accepted(c, o, e, events);
      |early| <= |all| && all[..|early|] == early
    decreases |events|
  {
    if i == |events| {
      assert events[..i] == events;
    } else {
      var before := events[..|events| - 1];
      AcceptedGrows(c, o, e, before, i);
      assert before[..i] == events[..i];
    }
  }

  /** A head that lost an accepted reorganisation is not canonical again until a hundred later ones are accepted. */
  lemma LoserStaysOut(c: Config, o: Oracle, events: seq<Event>, i: nat)
    requires i < |events| && events[i].Reorg? && |events[i].path.apply| <= |events[i].path.revert|
    requires Refused(Run(c, o, NEW_ENGINE, events[..i]), events[i].path).None?
    requires |Accepted(c, o, NEW_ENGINE, events)| - |Accepted(c, o, NEW_ENGINE, events[..i + 1])| < 100
    ensures !IsCanonical(Run(c, o, NEW_ENGINE, events), TipOf(o, events[i].path))
  {
    var early, all := Accepted(c, o, NEW_ENGINE, events[..i + 1]), Accepted(c, o, NEW_ENGINE, events);
    assert events[..i + 1][..i] == events[..i];
    assert early[|early| - 1] == events[i].path;
    AcceptedGrows(c, o, NEW_ENGINE, events, i + 1);
    assert all[|early| - 1] == all[..|early|][|early| - 1];
    CanonicalIff(c, o, events, TipOf(o, events[i].path));
  }

  /** A record tells where the two heads parted, who they are, and how far each had come. */
  lemma RecordIsTrue(crypto: Chains.Crypto, s: Chains.Store, o: Oracle, p: ReorgPath, oldHead: Hash, newHead: Hash,
                     maxDepth: nat)
    requires Chains.Consistent(crypto, s) && o.hash == crypto.header
    requires Resolved(p, s.blocks, s.genesis, oldHead, newHead, maxDepth) && (p.revert != [] || p.apply != [])
    ensures p.commonAncestor in s.blocks && oldHead in s.blocks && newHead in s.blocks
    ensures Height(s.blocks, p.commonAncestor) <= Height(s.blocks, oldHead)
    ensures Height(s.blocks, p.commonAncestor) <= Height(s.blocks, newHead)
    ensures var n := Height(s.blocks, p.commonAncestor);
      InferredAncestor(p) == Some(n) &&
      InfoOf(o, p, n) == ForkInfo(n, p.commonAncestor, oldHead, newHead,
                                  Height(s.blocks, oldHead) - n, Height(s.blocks, newHead) - n)
  {
    InferenceIsExact(p, s.blocks, s.genesis, oldHead, newHead, maxDepth);
    PathShape(p, s.blocks, s.genesis, oldHead, newHead, maxDepth);
    assert Up(s.blocks, oldHead, 0) == oldHead && Up(s.blocks, newHead, 0) == newHead;
    assert Chains.Linked(crypto, s, oldHead) && Chains.Linked(crypto, s, newHead);
    if p.revert != [] {
      RevertAt(p.revert, s.blocks, s.genesis, oldHead, 0);
    }
    if p.apply != [] {
      ApplyAt(p.apply, s.blocks, s.genesis, newHead, 0);
    }
  }

  // ----- metrics

  function TotalDepth(paths: seq<ReorgPath>): nat {
    if paths == [] then 0 else TotalDepth(paths[..|paths| - 1]) + paths[|paths| - 1].depth
  }

  /** The metrics count these paths, add up their depths and keep the greatest. */
  ghost predicate Measures(e: Engine, paths: seq<ReorgPath>) {
    && e.forkFrequency == |e.forkEvents| == |paths|
    && (forall i :: 0 <= i < |paths| ==> InferredAncestor(paths[i]) == Some(e.forkEvents[i]))
    && e.totalReorgDepth == TotalDepth(paths)
    && (forall i :: 0 <= i < |paths| ==> paths[i].depth <= e.maxReorgDepthObserved)
    && (e.maxReorgDepthObserved == 0 || exists i :: 0 <= i < |paths| && paths[i].depth == e.maxReorgDepthObserved)
  }

  lemma MeasureNext(c: Config, o: Oracle, e: Engine, paths: seq<ReorgPath>, p: ReorgPath)
    requires Measures(e, paths) && Refused(e, p).None?
    ensures Measures(AfterReorg(c, o, e, p), paths + [p])
  {
    var all, e' := paths + [p], AfterReorg(c, o, e, p);
    assert all[..|paths|] == paths && all[|paths|] == p;
    if e.maxReorgDepthObserved >= p.depth && e.maxReorgDepthObserved != 0 {
      var i :| 0 <= i < |paths| && paths[i].depth == e.maxReorgDepthObserved;
      assert all[i].depth == e'.maxReorgDepthObserved;
    }
  }

  /** So they do in every run, of the accepted paths. */
  lemma {:induction false} MetricsAreExact(c: Config, o: Oracle, events: seq<Event>)
    ensures Measures(Run(c, o, NEW_ENGINE, events), Accepted(c, o, NEW_ENGINE, events))
    decreases |events|
  {
    if events != [] {
      var before, last := events[..|events| - 1], events[|events| - 1];
      MetricsAreExact(c, o, before);
      AcceptedNext(c, o, events);
      if last.Reorg? && Refused(Run(c, o, NEW_ENGINE, before), last.path).None? {
        MeasureNext(c, o, Run(c, o, NEW_ENGINE, before), Accepted(c, o, NEW_ENGINE, before), last.path);
      } else {
        OthersKeepRecords(c, o, Run(c, o, NEW_ENGINE, before), last);
      }
    }
  }

  // ----- checkpoints

  /** The checkpoints announced in a run, with their times. */
  function Announced(events: seq<Event>): seq<(nat, nat)> {
    if events == [] then []
    else
      var last := events[|events| - 1];
      Announced(events[..|events| - 1]) + if last.Justified? then [(last.number, last.now)] else []
  }

  /** The checkpoints are those noted, and the greatest of them is in force. */
  ghost predicate KnowsNoted(e: Engine) {
    && (forall n :: n in e.checkpoints <==> exists t :: (n, t) in e.finalityTimes)
    && (e.highestJustified.None? <==> e.checkpoints == {})
    && (e.highestJustified.Some? ==>
          && e.highestJustified.value in e.checkpoints
          && forall n :: n in e.checkpoints ==> n <= e.highestJustified.value)
  }

  /** In every run the engine knows exactly the announced checkpoints, and the greatest of them is in force. */
  lemma {:induction false} CheckpointsAreExact(c: Config, o: Oracle, events: seq<Event>)
    ensures var e := Run(c, o, NEW_ENGINE, events); e.finalityTimes == Announced(events) && KnowsNoted(e)
    decreases |events|
  {
    if events != [] {
      var before, last := events[..|events| - 1], events[|events| - 1];
      CheckpointsAreExact(c, o, before);
      var e := Run(c, o, NEW_ENGINE, before);
      assert Run(c, o, NEW_ENGINE, events) == Step(c, o, e, last);
      if last.Justified? {
        AnnounceOne(e, last.number, last.now);
      } else {
        OthersKeepCheckpoints(c, o, e, last);
      }
    }
  }

  lemma OthersKeepCheckpoints(c: Config, o: Oracle, e: Engine, event: Event)
    requires !event.Justified?
    ensures var e' := Step(c, o, e, event);
      && e'.finalityTimes == e.finalityTimes && e'.checkpoints == e.checkpoints
      && e'.highestJustified == e.highestJustified
  {
    if event.Reorg? {
      SlashKeepsRest(o, e, Offences(event.path.apply, event.path.revert));
    }
  }

  lemma AnnounceOne(e: Engine, number: nat, now: nat)
    requires KnowsNoted(e)
    ensures KnowsNoted(Justify(e, number, now))
  {
    var e' := Justify(e, number, now);
    forall n ensures n in e'.checkpoints <==> exists t :: (n, t) in e'.finalityTimes {
      if n in e.checkpoints {
        var t :| (n, t) in e.finalityTimes;
        assert (n, t) in e'.finalityTimes;
      }
      if n == number {
        assert (n, now) in e'.finalityTimes;
      }
    }
  }

  /** In every run a number is final exactly up to the greatest announced checkpoint, or by depth before the first. */
  lemma FinalIff(c: Config, o: Oracle, events: seq<Event>, number: nat, head: nat)
    ensures IsFinalized(c, Run(c, o, NEW_ENGINE, events), number, head) <==>
      if Announced(events) == [] then head >= number + c.finalityBlocks
      else exists i :: 0 <= i < |Announced(events)| && number <= Announced(events)[i].0
  {
    var e := Run(c, o, NEW_ENGINE, events);
    CheckpointsAreExact(c, o, events);
    if e.highestJustified.Some? {
      var t :| (e.highestJustified.value, t) in e.finalityTimes;
      forall i | 0 <= i < |e.finalityTimes| ensures e.finalityTimes[i].0 in e.checkpoints {
        NotedIsKnown(e, i);
      }
    } else if e.finalityTimes != [] {
      NotedIsKnown(e, 0);
    }
  }

  lemma NotedIsKnown(e: Engine, i: nat)
    requires forall n :: n in e.checkpoints <==> exists t :: (n, t) in e.finalityTimes
    requires i < |e.finalityTimes|
    ensures e.finalityTimes[i].0 in e.checkpoints
  {
    assert (e.finalityTimes[i].0, e.finalityTimes[i].1) == e.finalityTimes[i];
    assert (e.finalityTimes[i].0, e.finalityTimes[i].1) in e.finalityTimes;
  }

  /** A resolved path is refused exactly when it changes nothing or starts below the checkpoint in force. */
  lemma RefusedIff(p: ReorgPath, t: Tree, g: Hash, oldHead: Hash, newHead: Hash, maxDepth: nat, e: Engine)
    requires Resolved(p, t, g, oldHead, newHead, maxDepth)
    ensures p.commonAncestor in t
    ensures Refused(e, p) == Some(EmptyPath) <==> oldHead == newHead == p.commonAncestor
    ensures Refused(e, p) == Some(PastCheckpoint(p.depth)) <==>
      && !(oldHead == newHead == p.commonAncestor)
      && e.highestJustified.Some? && Height(t, p.commonAncestor) < e.highestJustified.value
    ensures Refused(e, p).Some? ==> Refused(e, p).value == EmptyPath || Refused(e, p).value == PastCheckpoint(p.depth)
  {
    PathShape(p, t, g, oldHead, newHead, maxDepth);
    assert Up(t, oldHead, 0) == oldHead && Up(t, newHead, 0) == newHead;
    if p.revert != [] || p.apply != [] {
      InferenceIsExact(p, t, g, oldHead, newHead, maxDepth);
    }
  }

  // ----- validators

  /** A validator is registered exactly when there is room, it is new and its stake suffices; nobody else changes. */
  lemma RegisterIff(c: Config, e: Engine, a: Address, stake: nat)
    ensures RegisterRefusal(c, e, a, stake).None? <==>
      |e.validators| < c.maxValidators && a !in e.validators && stake >= c.minStake
    ensures RegisterRefusal(c, e, a, stake).Some? ==> Register(c, e, a, stake) == e
    ensures RegisterRefusal(c, e, a, stake).None? ==>
      && var v := Register(c, e, a, stake).validators;
      && a in v && v - {a} == e.validators
      && v[a].address == a && v[a].stake == stake && !v[a].slashed && v[a].produced == 0
  {
  }

  /** How many blocks of `a` a run produces once `a` is registered. */
  function ProducedIn(c: Config, o: Oracle, events: seq<Event>, a: Address): nat {
    if events == [] then 0
    else
      var before, last := events[..|events| - 1], events[|events| - 1];
      ProducedIn(c, o, before, a) +
      if last == Produced(a) && a in Run(c, o, NEW_ENGINE, before).validators then 1 else 0
  }

  lemma {:induction false} SlashKeepsProduced(o: Oracle, e: Engine, offences: seq<Block>, a: Address)
    ensures var e' := SlashEach(o, e, offences);
      && (a in e'.validators <==> a in e.validators)
      && (a in e.validators ==> e'.validators[a].produced == e.validators[a].produced)
    decreases |offences|
  {
    if offences != [] {
      SlashKeepsProduced(o, e, offences[..|offences| - 1], a);
    }
  }

  /** In every run each produced block counts twice for its registered proposer. */
  lemma {:induction false} BlocksCountTwice(c: Config, o: Oracle, events: seq<Event>, a: Address)
    ensures var v := Run(c, o, NEW_ENGINE, events).validators;
      if a in v then v[a].produced == 2 * ProducedIn(c, o, events, a) else ProducedIn(c, o, events, a) == 0
    decreases |events|
  {
    if events != [] {
      var before, last := events[..|events| - 1], events[|events| - 1];
      BlocksCountTwice(c, o, before, a);
      if last.Reorg? {
        SlashKeepsProduced(o, Run(c, o, NEW_ENGINE, before), Offences(last.path.apply, last.path.revert), a);
      }
    }
  }

  /** A slash for double signing records the offending header as its evidence. */
  lemma EvidenceIsTheHeader(o: Oracle, e: Engine, b: Block)
    requires Keyed(e) && b.header.proposer in e.validators
    ensures var history := SlashFor(o, e, b).slashing.history;
      && |history| == |e.slashing.history| + 1 && history[..|history| - 1] == e.slashing.history
      && history[|history| - 1].validator == b.header.proposer
      && history[|history| - 1].condition == Slashing.DoubleSigning
      && history[|history| - 1].evidence == Some(o.hash(b.header))
      && SlashFor(o, e, b).validators[b.header.proposer].stake ==
           e.validators[b.header.proposer].stake - history[|history| - 1].amount
  {
  }

  // ----- answers and punishments

  /** A reorganisation succeeds exactly when it is not refused and the callback, if any, does not fail. */
  lemma AnswerIff(e: Engine, p: ReorgPath, persisted: Option<bool>)
    ensures Answer(e, p, persisted).None? <==> Refused(e, p).None? && persisted != Some(false)
    ensures Answer(e, p, persisted) == Some(NotPersisted) <==> Refused(e, p).None? && persisted == Some(false)
    ensures Refused(e, p).Some? ==> Answer(e, p, persisted) == Refused(e, p)
  {
  }

  /** How many penalties a path brings `a`: one per offence, if `a` is registered, the path accepted and slashing on. */
  function Deserved(c: Config, e: Engine, p: ReorgPath, a: Address): nat {
    if c.slashForWrongFork && Refused(e, p).None? && a in e.validators then ProposedBy(Offences(p.apply, p.revert), a)
    else 0
  }

  lemma PathPunishes(c: Config, o: Oracle, e: Engine, p: ReorgPath, a: Address)
    requires Keyed(e)
    ensures Slashing.Against(AfterReorg(c, o, e, p).slashing.history, a) ==
            Slashing.Against(e.slashing.history, a) + Deserved(c, e, p, a)
  {
    OnePenaltyPerOffence(o, e, Offences(p.apply, p.revert), a);
  }

  function DeservedIn(c: Config, o: Oracle, events: seq<Event>, a: Address): nat {
    if events == [] then 0
    else
      var before, last := events[..|events| - 1], events[|events| - 1];
      DeservedIn(c, o, before, a) + if last.Reorg? then Deserved(c, Run(c, o, NEW_ENGINE, before), last.path, a) else 0
  }

  /** In every run the ledger holds against each address exactly the penalties its accepted paths brought it. */
  lemma {:induction false} RunPunishes(c: Config, o: Oracle, events: seq<Event>, a: Address)
    ensures Slashing.Against(Run(c, o, NEW_ENGINE, events).slashing.history, a) == DeservedIn(c, o, events, a)
    decreases |events|
  {
    if events != [] {
      var before, last := events[..|events| - 1], events[|events| - 1];
      RunPunishes(c, o, before, a);
      RunsKeepKeyed(c, o, before);
      if last.Reorg? {
        PathPunishes(c, o, Run(c, o, NEW_ENGINE, before), last.path, a);
      }
    }
  }

  // ----- stakes

  /** The ledger and the validators together, nothing having been paid from the insurance. */
  function LedgerOf(e: Engine): Slashing.Ledger {
    Slashing.Ledger(e.slashing, e.validators, 0)
  }

  lemma SlashIsStep(o: Oracle, e: Engine, b: Block)
    ensures LedgerOf(SlashFor(o, e, b)) ==
      if b.header.proposer !in e.validators then LedgerOf(e)
      else Slashing.Step(LedgerOf(e), Slashing.Slash(b.header.proposer, Slashing.DoubleSigning,
             o.penalty(e.slashing, e.validators[b.header.proposer]), Some(o.hash(b.header))))
  {
  }

  lemma {:induction false} SlashesBalance(o: Oracle, e: Engine, offences: seq<Block>, stakes: nat)
    requires Slashing.Balanced(LedgerOf(e), stakes)
    ensures Slashing.Balanced(LedgerOf(SlashEach(o, e, offences)), stakes)
    decreases |offences|
  {
    if offences != [] {
      var before, last := offences[..|offences| - 1], offences[|offences| - 1];
      SlashesBalance(o, e, before, stakes);
      var m := SlashEach(o, e, before);
      SlashIsStep(o, m, last);
      if last.header.proposer in m.validators {
        Slashing.StepBalanced(LedgerOf(m), stakes, Slashing.Slash(last.header.proposer, Slashing.DoubleSigning,
          o.penalty(m.slashing, m.validators[last.header.proposer]), Some(o.hash(last.header))));
      }
    }
  }

  lemma RegisterBalances(c: Config, e: Engine, a: Address, stake: nat, stakes: nat)
    requires Slashing.Balanced(LedgerOf(e), stakes)
    ensures Slashing.Balanced(LedgerOf(Register(c, e, a, stake)),
              stakes + if RegisterRefusal(c, e, a, stake).None? then stake else 0)
  {
    Sums.SumSet(e.validators, Slashing.Stake, a, Slashing.Validator(a, stake, false, 0));
  }

  lemma CreditBalances(e: Engine, a: Address, stakes: nat)
    requires Slashing.Balanced(LedgerOf(e), stakes)
    ensures Slashing.Balanced(LedgerOf(Credit(e, a)), stakes)
  {
    if a in e.validators {
      Sums.SumSet(e.validators, Slashing.Stake, a, Credit(e, a).validators[a]);
    }
  }

  /** The stakes brought in by the accepted registrations of a run. */
  function StakesIn(c: Config, o: Oracle, events: seq<Event>): nat {
    if events == [] then 0
    else
      var before, last := events[..|events| - 1], events[|events| - 1];
      StakesIn(c, o, before) +
      if last.Registered? && RegisterRefusal(c, Run(c, o, NEW_ENGINE, before), last.address, last.stake).None?
      then last.stake else 0
  }

  /** In every run of the engine the slashing ledger balances, and the stakes brought in are the stakes left and what
      was slashed. */
  lemma {:induction false} RunsBalanceStakes(c: Config, o: Oracle, events: seq<Event>)
    ensures Slashing.Balanced(LedgerOf(Run(c, o, NEW_ENGINE, events)), StakesIn(c, o, events))
    decreases |events|
  {
    if events != [] {
      var before, last := events[..|events| - 1], events[|events| - 1];
      RunsBalanceStakes(c, o, before);
      StepBalances(c, o, Run(c, o, NEW_ENGINE, before), last, StakesIn(c, o, before));
    }
  }

  lemma StepBalances(c: Config, o: Oracle, e: Engine, event: Event, stakes: nat)
    requires Slashing.Balanced(LedgerOf(e), stakes)
    ensures var brought := if event.Registered? && RegisterRefusal(c, e, event.address, event.stake).None?
                           then event.stake else 0;
      Slashing.Balanced(LedgerOf(Step(c, o, e, event)), stakes + brought)
  {
    match event
    case Justified(_, _) =>
    case Reorg(p) =>
      SlashesBalance(o, e, Offences(p.apply, p.revert), stakes);
    case Registered(a, stake) =>
      RegisterBalances(c, e, a, stake, stakes);
    case Produced(a) =>
      CreditBalances(e, a, stakes);
  }
}
