/** Accounts with an undo journal: checkpoint, commit and rollback (state.rs). */
module WorldStates {
  import opened Types

  datatype Account = Account(
    nonce: uint64,
    balance: nat,
    staked: nat,
    liquidityDeployed: nat,
    utilityScore: nat,
    codeHash: Option<Hash>,
    storageRoot: Option<Hash>)

  type Accounts = map<Address, Account>

  const NEW_ACCOUNT := Account(0, 0, 0, 0, 0, None, None)

  datatype Modification = Checkpoint | AccountSet(address: Address, before: Option<Account>)

  datatype World = World(accounts: Accounts, journal: seq<Modification>)

  function GetAccount(m: Accounts, a: Address): Account {
    if a in m then m[a] else NEW_ACCOUNT
  }

  function Restore(m: Accounts, a: Address, before: Option<Account>): Accounts {
    match before
    case Some(account) => m[a := account]
    case None => m - {a}
  }

  // ----- the journal operations as functions

  function Last<T>(s: seq<T>): T
    requires s != []
  {
    s[|s| - 1]
  }

  function Init<T>(s: seq<T>): seq<T>
    requires s != []
  {
    s[..|s| - 1]
  }

  /** Whether `a` has an undo record since the last checkpoint. */
  predicate Recorded(j: seq<Modification>, a: Address) {
    j != [] && Last(j).AccountSet? && (Last(j).address == a || Recorded(Init(j), a))
  }

  function Write(w: World, a: Address, account: Account): World {
    World(
      w.accounts[a := account],
      if Recorded(w.journal, a) then w.journal
      else w.journal + [AccountSet(a, Lookup(w.accounts, a))])
  }

  function Begin(w: World): World {
    w.(journal := w.journal + [Checkpoint])
  }

  /** The journal below the last checkpoint. */
  function Outer(j: seq<Modification>): seq<Modification> {
    if j == [] || Last(j).Checkpoint? then (if j == [] then [] else Init(j)) else Outer(Init(j))
  }

  function Commit(w: World): World {
    w.(journal := Outer(w.journal))
  }

  function Rollback(w: World): World
    decreases |w.journal|
  {
    if w.journal == [] then w
    else if Last(w.journal).Checkpoint? then w.(journal := Init(w.journal))
    else Rollback(World(Restore(w.accounts, Last(w.journal).address, Last(w.journal).before), Init(w.journal)))
  }

  // ----- what a rollback restores

  /** A recorded account's current value does not matter to a rollback. */
  lemma {:induction false} RecordedIsOverwritten(m: Accounts, n: Accounts, j: seq<Modification>, a: Address)
    requires Recorded(j, a) && m - {a} == n - {a}
    ensures Rollback(World(m, j)) == Rollback(World(n, j))
    decreases |j|
  {
    var b, before := Last(j).address, Last(j).before;
    var m', n' := Restore(m, b, before), Restore(n, b, before);
    if b == a {
      assert m' == n' by {
        assert forall x :: x != a ==> (x in m <==> x in m - {a}) && (x in n <==> x in n - {a});
        assert forall x :: x != a && x in m ==> m[x] == (m - {a})[x] == (n - {a})[x];
      }
    } else {
      assert m' - {a} == Restore(m - {a}, b, before) == n' - {a};
      RecordedIsOverwritten(m', n', Init(j), a);
    }
  }

  lemma RollbackUndoesWrite(w: World, a: Address, account: Account)
    ensures Rollback(Write(w, a, account)) == Rollback(w)
  {
    var w' := Write(w, a, account);
    if Recorded(w.journal, a) {
      assert w'.accounts - {a} == w.accounts - {a};
      RecordedIsOverwritten(w'.accounts, w.accounts, w.journal, a);
    } else {
      assert Init(w'.journal) == w.journal;
      assert Restore(w'.accounts, a, Lookup(w.accounts, a)) == w.accounts;
    }
  }

  lemma OuterOfWrite(w: World, a: Address, account: Account)
    ensures Outer(Write(w, a, account).journal) == Outer(w.journal)
  {
    if !Recorded(w.journal, a) {
      assert Init(Write(w, a, account).journal) == w.journal;
    }
  }

  lemma OuterOfBegin(w: World)
    ensures Rollback(Begin(w)) == w
    ensures Outer(Begin(w).journal) == w.journal
  {
    assert Init(Begin(w).journal) == w.journal;
  }

  /** A program over the state: account writes and nested frames, each committed or rolled back. */
  datatype Op = Set(address: Address, account: Account) | Frame(body: seq<Op>, committed: bool)

  function Run(w: World, ops: seq<Op>): World
    decreases ops
  {
    if ops == [] then w else Run(RunOne(w, ops[0]), ops[1..])
  }

  function RunOne(w: World, op: Op): World
    decreases op
  {
    match op
    case Set(a, account) => Write(w, a, account)
    case Frame(body, committed) =>
      var inside := Run(Begin(w), body);
      if committed then Commit(inside) else Rollback(inside)
  }

  /** No nested frame, at any depth, is committed. */
  predicate NoInnerCommit(ops: seq<Op>) {
    forall i :: 0 <= i < |ops| ==> ops[i].Frame? ==> !ops[i].committed && NoInnerCommit(ops[i].body)
  }

  lemma {:induction false} RollbackUndoesRun(w: World, ops: seq<Op>)
    requires NoInnerCommit(ops)
    ensures Rollback(Run(w, ops)) == Rollback(w)
    decreases ops
  {
    if ops != [] {
      var w' := RunOne(w, ops[0]);
      assert Rollback(w') == Rollback(w) by {
        match ops[0]
        case Set(a, account) =>
          RollbackUndoesWrite(w, a, account);
        case Frame(body, _) =>
          RollbackUndoesRun(Begin(w), body);
          OuterOfBegin(w);
      }
      RollbackUndoesRun(w', ops[1..]);
    }
  }

  /** Rolling back a frame restores the accounts, absent ones included, and the journal. */
  lemma RollbackRestores(w: World, ops: seq<Op>)
    requires NoInnerCommit(ops)
    ensures Rollback(Run(Begin(w), ops)) == w
  {
    RollbackUndoesRun(Begin(w), ops);
    OuterOfBegin(w);
  }

  /** Every program leaves the journal below its frame alone. */
  lemma {:induction false} OuterOfRun(w: World, ops: seq<Op>)
    ensures Outer(Run(w, ops).journal) == Outer(w.journal)
    decreases ops
  {
    if ops != [] {
      var w' := RunOne(w, ops[0]);
      assert Outer(w'.journal) == Outer(w.journal) by {
        match ops[0]
        case Set(a, account) =>
          OuterOfWrite(w, a, account);
        case Frame(body, committed) =>
          OuterOfRun(Begin(w), body);
          OuterOfBegin(w);
          RollbackExact(Run(Begin(w), body));
      }
      OuterOfRun(w', ops[1..]);
    }
  }

  /** Committing a frame keeps its accounts and restores the journal, whatever frames it contained. */
  lemma CommitKeeps(w: World, ops: seq<Op>)
    ensures Commit(Run(Begin(w), ops)) == World(Run(Begin(w), ops).accounts, w.journal)
  {
    OuterOfRun(Begin(w), ops);
    OuterOfBegin(w);
  }

  /** The value a rollback gives `a`: its earliest record in the frame, or its current value. */
  function Original(w: World, a: Address): Option<Account> {
    if Recorded(w.journal, a) then Earliest(w.journal, a) else Lookup(w.accounts, a)
  }

  function Earliest(j: seq<Modification>, a: Address): Option<Account>
    requires Recorded(j, a)
  {
    if Recorded(Init(j), a) then Earliest(Init(j), a) else Last(j).before
  }

  lemma {:induction false} RollbackExact(w: World)
    ensures Rollback(w).journal == Outer(w.journal)
    ensures forall a :: Lookup(Rollback(w).accounts, a) == Original(w, a)
    decreases |w.journal|
  {
    if w.journal != [] && Last(w.journal).AccountSet? {
      var b, before := Last(w.journal).address, Last(w.journal).before;
      var w' := World(Restore(w.accounts, b, before), Init(w.journal));
      RollbackExact(w');
      forall a ensures Original(w', a) == Original(w, a) {
        assert a != b ==> Lookup(w'.accounts, a) == Lookup(w.accounts, a);
        assert Lookup(w'.accounts, b) == before;
      }
    }
  }

  /** The first write to `a` made directly in the frame, not inside a nested one; the end if there is none. */
  function FirstSet(ops: seq<Op>, a: Address): (k: nat)
    ensures k <= |ops|
  {
    if ops == [] || (ops[0].Set? && ops[0].address == a) then 0 else 1 + FirstSet(ops[1..], a)
  }

  /** The value of `a` when the frame's program first writes it directly, or at its end. */
  function BeforeFirstSet(w: World, ops: seq<Op>, a: Address): Option<Account> {
    Lookup(Run(Begin(w), ops[..FirstSet(ops, a)]).accounts, a)
  }

  /** A nested frame leaves the journal around it as it was. */
  lemma FrameKeepsJournal(w: World, op: Op)
    requires op.Frame?
    ensures RunOne(w, op).journal == w.journal
  {
    OuterOfRun(Begin(w), op.body);
    OuterOfBegin(w);
    RollbackExact(Run(Begin(w), op.body));
  }

  /** What the records say of `a` at the end is its value before its first direct write. */
  lemma {:induction false} OriginalOfRun(w: World, ops: seq<Op>, a: Address)
    requires !Recorded(w.journal, a)
    ensures Original(Run(w, ops), a) == Lookup(Run(w, ops[..FirstSet(ops, a)]).accounts, a)
    decreases |ops|
  {
    if ops != [] {
      var w' := RunOne(w, ops[0]);
      if FirstSet(ops, a) == 0 {
        assert Init(w'.journal) == w.journal;
        RecordStays(w', ops[1..], a);
      } else {
        NotRecordedBy(w, ops[0], a);
        OriginalOfRun(w', ops[1..], a);
        assert ops[..FirstSet(ops, a)][1..] == ops[1..][..FirstSet(ops[1..], a)];
      }
    }
  }

  lemma NotRecordedBy(w: World, op: Op, a: Address)
    requires !Recorded(w.journal, a) && !(op.Set? && op.address == a)
    ensures !Recorded(RunOne(w, op).journal, a)
  {
    match op
    case Set(b, account) =>
      assert !Recorded(w.journal, b) ==> Init(Write(w, b, account).journal) == w.journal;
    case Frame(_, _) =>
      FrameKeepsJournal(w, op);
  }

  /** A record, once made, stays the earliest one of its frame. */
  lemma {:induction false} RecordStays(w: World, ops: seq<Op>, a: Address)
    requires Recorded(w.journal, a)
    ensures Recorded(Run(w, ops).journal, a) && Earliest(Run(w, ops).journal, a) == Earliest(w.journal, a)
    decreases |ops|
  {
    if ops != [] {
      var w' := RunOne(w, ops[0]);
      match ops[0] {
        case Set(b, account) =>
          assert !Recorded(w.journal, b) ==> Init(w'.journal) == w.journal;
        case Frame(_, _) =>
          FrameKeepsJournal(w, ops[0]);
      }
      RecordStays(w', ops[1..], a);
    }
  }

  lemma SameLookups(m: Accounts, n: Accounts)
    ensures m == n <==> forall a :: Lookup(m, a) == Lookup(n, a)
  {
    if forall a :: Lookup(m, a) == Lookup(n, a) {
      assert forall a :: a in m <==> Lookup(m, a).Some?;
      assert forall a :: a in n <==> Lookup(n, a).Some?;
      assert m == n;
    }
  }

  /** A rollback gives each account its value before the frame's first direct write. */
  lemma RollbackLookup(w: World, ops: seq<Op>, a: Address)
    ensures Lookup(Rollback(Run(Begin(w), ops)).accounts, a) == BeforeFirstSet(w, ops, a)
  {
    RollbackExact(Run(Begin(w), ops));
    OriginalOfRun(Begin(w), ops, a);
  }

  lemma RollbackJournal(w: World, ops: seq<Op>)
    ensures Rollback(Run(Begin(w), ops)).journal == w.journal
  {
    OuterOfRun(Begin(w), ops);
    OuterOfBegin(w);
    RollbackExact(Run(Begin(w), ops));
  }

  /** With committed inner frames allowed, a rollback restores the start exactly when none of them has left changed an
      account that the frame itself had yet to write. */
  lemma RollbackRestoresIff(w: World, ops: seq<Op>)
    ensures Rollback(Run(Begin(w), ops)) == w <==> forall a :: BeforeFirstSet(w, ops, a) == Lookup(w.accounts, a)
  {
    var r := Rollback(Run(Begin(w), ops));
    RollbackJournal(w, ops);
    SameLookups(r.accounts, w.accounts);
    forall a ensures Lookup(r.accounts, a) == BeforeFirstSet(w, ops, a) {
      RollbackLookup(w, ops, a);
    }
  }

  /** A committed inner frame's write survives the rollback of the frame around it. */
  lemma InnerCommitIsLost()
    ensures exists w, ops :: Rollback(Run(Begin(w), ops)) != w
  {
    var w := World(map[], []);
    var body := [Set(7, NEW_ACCOUNT)];
    var inner := Begin(Begin(w));
    assert Run(inner, body) == Run(RunOne(inner, body[0]), []) == Write(inner, 7, NEW_ACCOUNT);
    OuterOfBegin(Begin(w));
    OuterOfWrite(inner, 7, NEW_ACCOUNT);
    var ops := [Frame(body, true)];
    assert Run(Begin(w), ops) == Run(RunOne(Begin(w), ops[0]), []) == World(map[7 := NEW_ACCOUNT], [Checkpoint]);
    assert Rollback(Run(Begin(w), ops)).accounts == map[7 := NEW_ACCOUNT];
  }

  // ----- the stateful object

  class WorldState {
    var accounts: Accounts
    var modifications: seq<Modification>

    ghost function Value(): World
      reads this
    {
      World(accounts, modifications)
    }

    constructor ()
      ensures Value() == World(map[], [])
    {
      accounts, modifications := map[], [];
    }

    /** Records the account's value unless the frame already holds a record for it. */
    method RecordAccountModification(a: Address)
      modifies `modifications
      ensures modifications ==
        if Recorded(old(modifications), a) then old(modifications)
        else old(modifications) + [AccountSet(a, Lookup(accounts, a))]
    {
      var i := |modifications|;
      assert modifications[..i] == modifications;
      while i > 0 && modifications[i - 1].AccountSet?
        invariant 0 <= i <= |modifications|
        invariant Recorded(modifications, a) <==> Recorded(modifications[..i], a)
      {
        assert Init(modifications[..i]) == modifications[..i - 1];
        if modifications[i - 1].address == a {
          return;
        }
        i := i - 1;
      }
      modifications := modifications + [AccountSet(a, Lookup(accounts, a))];
    }

    method SetAccount(a: Address, account: Account)
      modifies this
      ensures Value() == Write(old(Value()), a, account)
      ensures Rollback(Value()) == Rollback(old(Value()))
      ensures Outer(modifications) == Outer(old(modifications))
    {
      RollbackUndoesWrite(Value(), a, account);
      OuterOfWrite(Value(), a, account);
      RecordAccountModification(a);
      accounts := accounts[a := account];
    }

    method TakeCheckpoint()
      modifies `modifications
      ensures Value() == Begin(old(Value()))
    {
      modifications := modifications + [Checkpoint];
    }

    method CommitFrame()
      modifies `modifications
      ensures Value() == Commit(old(Value()))
    {
      while modifications != []
        invariant Outer(modifications) == Outer(old(modifications))
        decreases |modifications|
      {
        var entry := Last(modifications);
        modifications := Init(modifications);
        if entry.Checkpoint? {
          return;
        }
      }
    }

    method RollbackFrame()
      modifies this
      ensures Value() == Rollback(old(Value()))
    {
      while modifications != []
        invariant Rollback(Value()) == Rollback(old(Value()))
        decreases |modifications|
      {
        var entry := Last(modifications);
        modifications := Init(modifications);
        if entry.Checkpoint? {
          return;
        }
        if entry.before.Some? {
          accounts := accounts[entry.address := entry.before.value];
        } else {
          accounts := accounts - {entry.address};
        }
      }
    }
  }
}
