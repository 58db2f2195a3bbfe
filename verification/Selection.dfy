/** Weighted validator selection and the Nakamoto coefficient (selection.rs). */
module Selection {
  import opened Types
  import opened Remainders

  /** A validator with the weight `calculate_weight` gives it. */
  datatype Validator = Validator(address: Address, weight: uint64)

  datatype SelectionError = NoValidators | NoEligible | ZeroWeight

  /** `calculate_weights`: the validators of positive weight, in order. */
  function Eligible(vs: seq<Validator>): (ws: seq<Validator>)
    ensures forall i :: 0 <= i < |ws| ==> ws[i].weight > 0
  {
    if vs == [] then []
    else (if vs[0].weight > 0 then [vs[0]] else []) + Eligible(vs[1..])
  }

  function TotalWeight(ws: seq<Validator>): nat {
    if ws == [] then 0 else ws[0].weight + TotalWeight(ws[1..])
  }

  /** The source's sum of the weights, a u64. */
  function WrappedTotal(ws: seq<Validator>): (total: nat)
    ensures total <= TotalWeight(ws)
    ensures TotalWeight(ws) < U64 <==> total == TotalWeight(ws)
  {
    TotalWeight(ws) % U64
  }

  // ----- the ticket view of weighted selection

  /** One ticket per unit of weight, in the order of the list. */
  ghost function Tickets(ws: seq<Validator>): (ts: seq<Address>)
    ensures |ts| == TotalWeight(ws)
  {
    if ws == [] then [] else seq(ws[0].weight, _ => ws[0].address) + Tickets(ws[1..])
  }

  ghost function WeightOf(ws: seq<Validator>, a: Address): nat {
    if ws == [] then 0 else (if ws[0].address == a then ws[0].weight else 0) + WeightOf(ws[1..], a)
  }

  /** Selection gets past its checks, and `draw` is a number the generator can return. */
  predicate CanDraw(vs: seq<Validator>, draw: nat) {
    WrappedTotal(Eligible(vs)) > 0 ==> draw < WrappedTotal(Eligible(vs))
  }

  ghost function Chosen(vs: seq<Validator>, draw: nat): Result<Address, SelectionError>
    requires CanDraw(vs, draw)
  {
    if vs == [] then Failure(NoValidators)
    else if Eligible(vs) == [] then Failure(NoEligible)
    else if WrappedTotal(Eligible(vs)) == 0 then Failure(ZeroWeight)
    else Success(Tickets(Eligible(vs))[draw])
  }

  lemma {:induction false} TicketIn(ws: seq<Validator>, k: nat, draw: nat)
    requires k < |ws|
    requires TotalWeight(ws[..k]) <= draw < TotalWeight(ws[..k]) + ws[k].weight
    ensures draw < TotalWeight(ws) && Tickets(ws)[draw] == ws[k].address
  {
    if k > 0 {
      assert ws[..k][1..] == ws[1..][..k - 1];
      TicketIn(ws[1..], k - 1, draw - ws[0].weight);
    }
  }

  lemma {:induction false} TotalOfNext(ws: seq<Validator>, k: nat)
    requires k < |ws|
    ensures TotalWeight(ws[..k + 1]) == TotalWeight(ws[..k]) + ws[k].weight
  {
    if k > 0 {
      assert ws[..k + 1][1..] == ws[1..][..k] && ws[..k][1..] == ws[1..][..k - 1];
      TotalOfNext(ws[1..], k - 1);
    }
  }

  /** The subtracting loop of `select_validator`; `draw` is what the generator returns below the total. */
  method SelectValidator(vs: seq<Validator>, draw: nat) returns (r: Result<Address, SelectionError>)
    requires CanDraw(vs, draw)
    ensures r == Chosen(vs, draw)
  {
    if vs == [] {
      return Failure(NoValidators);
    }
    var ws := Eligible(vs);
    if ws == [] {
      return Failure(NoEligible);
    }
    if WrappedTotal(ws) == 0 {
      return Failure(ZeroWeight);
    }
    r := Success(ws[0].address);
    assert ws[..|ws|] == ws;
    var selection := draw;
    for k := 0 to |ws|
      invariant selection == draw - TotalWeight(ws[..k])
      invariant 0 <= selection
    {
      if selection < ws[k].weight {
        TicketIn(ws, k, draw);
        return Success(ws[k].address);
      }
      TotalOfNext(ws, k);
      selection := selection - ws[k].weight;
    }
    assert false;  // the source's fallback is never reached
  }

  /** Whom the accumulating loop stops at: the first to carry the u64 sum past the selection. */
  ghost function SlotPick(ws: seq<Validator>, accumulated: nat, selection: nat): Address
    requires ws != []
  {
    var next := (accumulated + ws[0].weight) % U64;
    if selection < next || |ws| == 1 then ws[0].address else SlotPick(ws[1..], next, selection)
  }

  ghost function ChosenForSlot(vs: seq<Validator>, slot: nat): Result<Address, SelectionError> {
    if vs == [] then Failure(NoValidators)
    else if Eligible(vs) == [] then Failure(NoEligible)
    else if WrappedTotal(Eligible(vs)) == 0 then Failure(ZeroWeight)
    else Success(SlotPick(Eligible(vs), 0, slot % WrappedTotal(Eligible(vs))))
  }

  /** The accumulating loop of `select_for_slot`. */
  method SelectForSlot(vs: seq<Validator>, slot: nat) returns (r: Result<Address, SelectionError>)
    ensures r == ChosenForSlot(vs, slot)
  {
    if vs == [] {
      return Failure(NoValidators);
    }
    var ws := Eligible(vs);
    if ws == [] {
      return Failure(NoEligible);
    }
    var total := WrappedTotal(ws);
    if total == 0 {
      return Failure(ZeroWeight);
    }
    var address := Accumulate(ws, slot % total);
    return Success(address);
  }

  /** One round of the loop. */
  lemma AccumulateRound(ws: seq<Validator>, k: nat, accumulated: nat, selection: nat)
    requires k < |ws|
    ensures var next := (accumulated + ws[k].weight) % U64;
      && (next + TotalWeight(ws[k + 1..])) % U64 == (accumulated + TotalWeight(ws[k..])) % U64
      && SlotPick(ws[k..], accumulated, selection) ==
           if selection < next || k + 1 == |ws| then ws[k].address else SlotPick(ws[k + 1..], next, selection)
  {
    assert ws[k..][1..] == ws[k + 1..];
    ModAdd(accumulated + ws[k].weight, TotalWeight(ws[k + 1..]), U64);
  }

  method Accumulate(ws: seq<Validator>, selection: nat) returns (address: Address)
    requires ws != [] && selection < WrappedTotal(ws)
    ensures address == SlotPick(ws, 0, selection)
  {
    var accumulated: nat := 0;
    for k := 0 to |ws|
      invariant (accumulated + TotalWeight(ws[k..])) % U64 == WrappedTotal(ws)
      invariant accumulated <= selection && accumulated < U64
      invariant k < |ws| ==> SlotPick(ws[k..], accumulated, selection) == SlotPick(ws, 0, selection)
    {
      AccumulateRound(ws, k, accumulated, selection);
      accumulated := (accumulated + ws[k].weight) % U64;
      if selection < accumulated {
        return ws[k].address;
      }
    }
    assert false;  // the source's fallback is never reached
  }

  /** Unless the sum wraps, it stops at the holder of the ticket. */
  lemma {:induction false} SlotPickIsTicket(ws: seq<Validator>, accumulated: nat, selection: nat)
    requires ws != [] && accumulated <= selection < accumulated + TotalWeight(ws) < U64
    ensures SlotPick(ws, accumulated, selection) == Tickets(ws)[selection - accumulated]
  {
    var next := accumulated + ws[0].weight;
    ModUnique(next, U64, 0, next);
    if selection >= next {
      SlotPickIsTicket(ws[1..], next, selection);
    }
  }

  /** The validator whose tickets `draw` is one of. */
  function Holder(ws: seq<Validator>, draw: nat): (k: nat)
    requires draw < TotalWeight(ws)
    ensures k < |ws| && TotalWeight(ws[..k]) <= draw < TotalWeight(ws[..k + 1])
  {
    if draw < ws[0].weight then
      assert ws[..1] == [ws[0]] && TotalWeight(ws[..1]) == ws[0].weight;
      0
    else
      var k := Holder(ws[1..], draw - ws[0].weight);
      assert ws[..k + 1][1..] == ws[1..][..k] && ws[..k + 2][1..] == ws[1..][..k + 1];
      k + 1
  }

  predicate DistinctAddresses(ws: seq<Validator>) {
    forall i, j :: 0 <= i < j < |ws| ==> ws[i].address != ws[j].address
  }

  lemma {:induction false} SlotPickIsListed(ws: seq<Validator>, accumulated: nat, selection: nat)
    requires ws != []
    ensures exists j :: 0 <= j < |ws| && SlotPick(ws, accumulated, selection) == ws[j].address
  {
    var next := (accumulated + ws[0].weight) % U64;
    if selection < next || |ws| == 1 {
      assert SlotPick(ws, accumulated, selection) == ws[0].address;
    } else {
      SlotPickIsListed(ws[1..], next, selection);
      var j :| 0 <= j < |ws[1..]| && SlotPick(ws[1..], next, selection) == ws[1..][j].address;
      assert ws[j + 1] == ws[1..][j];
    }
  }

  /** A carry past 2^64 leaves less than was there before. */
  lemma CarryFalls(accumulated: nat, weight: uint64)
    requires accumulated < U64
    ensures accumulated + weight < U64 ==> (accumulated + weight) % U64 == accumulated + weight
    ensures accumulated + weight >= U64 ==> (accumulated + weight) % U64 < accumulated
  {
    var sum := accumulated + weight;
    if sum < U64 {
      ModUnique(sum, U64, 0, sum);
    } else {
      ModUnique(sum, U64, 1, sum - U64);
    }
  }

  /** The loop stops at the first validator if that is the holder and does not wrap the sum, and not if it wraps it. */
  lemma SlotPickFirst(ws: seq<Validator>, accumulated: nat, selection: nat)
    requires ws != [] && DistinctAddresses(ws) && accumulated <= selection < accumulated + ws[0].weight
    requires selection < (accumulated + TotalWeight(ws)) % U64
    ensures SlotPick(ws, accumulated, selection) == ws[0].address <==> accumulated + ws[0].weight < U64
  {
    CarryFalls(accumulated, ws[0].weight);
    if accumulated + ws[0].weight >= U64 {
      assert |ws| > 1;
      var next := (accumulated + ws[0].weight) % U64;
      SlotPickIsListed(ws[1..], next, selection);
      var j :| 0 <= j < |ws[1..]| && SlotPick(ws[1..], next, selection) == ws[1..][j].address;
      assert ws[j + 1] == ws[1..][j];
    }
  }

  /** The loop stops at the holder of the selection exactly when the weights up to it do not wrap the sum. */
  lemma {:induction false} SlotPickIsHolderIff(ws: seq<Validator>, accumulated: nat, selection: nat, k: nat)
    requires k < |ws| && DistinctAddresses(ws)
    requires accumulated + TotalWeight(ws[..k]) <= selection < accumulated + TotalWeight(ws[..k + 1])
    requires selection < (accumulated + TotalWeight(ws)) % U64
    ensures SlotPick(ws, accumulated, selection) == ws[k].address <==> accumulated + TotalWeight(ws[..k + 1]) < U64
  {
    if k == 0 {
      assert ws[..1] == [ws[0]] && TotalWeight([ws[0]]) == ws[0].weight;
      SlotPickFirst(ws, accumulated, selection);
    } else {
      var next := accumulated + ws[0].weight;
      assert ws[..k][1..] == ws[1..][..k - 1] && ws[..k + 1][1..] == ws[1..][..k];
      CarryFalls(accumulated, ws[0].weight);
      SlotPickIsHolderIff(ws[1..], next, selection, k - 1);
    }
  }

  /** The subtracting loop picks the holder of the ticket. */
  lemma ChosenIsHolder(vs: seq<Validator>, draw: nat)
    requires draw < WrappedTotal(Eligible(vs))
    ensures var ws := Eligible(vs); Chosen(vs, draw) == Success(ws[Holder(ws, draw)].address)
  {
    var ws := Eligible(vs);
    TotalOfNext(ws, Holder(ws, draw));
    TicketIn(ws, Holder(ws, draw), draw);
  }

  lemma SlotIsDraw(vs: seq<Validator>, draw: nat)
    requires draw < WrappedTotal(Eligible(vs))
    ensures ChosenForSlot(vs, draw) == Success(SlotPick(Eligible(vs), 0, draw))
  {
    ModUnique(draw, WrappedTotal(Eligible(vs)), 0, draw);
  }

  /** Both loops pick the same validator for one number exactly when the weights up to the holder of that ticket do not
      wrap the sum. */
  lemma LoopsAgreeIff(vs: seq<Validator>, draw: nat)
    requires DistinctAddresses(Eligible(vs)) && draw < WrappedTotal(Eligible(vs))
    ensures var ws := Eligible(vs);
      ChosenForSlot(vs, draw) == Chosen(vs, draw) <==> TotalWeight(ws[..Holder(ws, draw) + 1]) < U64
  {
    ChosenIsHolder(vs, draw);
    SlotIsDraw(vs, draw);
    SlotPickIsHolderIff(Eligible(vs), 0, draw, Holder(Eligible(vs), draw));
  }

  lemma {:induction false} PrefixGrows(ws: seq<Validator>, i: nat, k: nat)
    requires i <= k <= |ws|
    ensures TotalWeight(ws[..i]) <= TotalWeight(ws[..k])
  {
    if i < k {
      PrefixGrows(ws, i, k - 1);
      TotalOfNext(ws, k - 1);
    }
  }

  /** They do so for every number the generator can return exactly when they do for the largest. */
  lemma LoopsAlwaysAgreeIff(vs: seq<Validator>)
    requires DistinctAddresses(Eligible(vs)) && WrappedTotal(Eligible(vs)) > 0
    ensures var ws := Eligible(vs);
      (forall draw: nat :: draw < WrappedTotal(ws) ==> ChosenForSlot(vs, draw) == Chosen(vs, draw)) <==>
      TotalWeight(ws[..Holder(ws, WrappedTotal(ws) - 1) + 1]) < U64
  {
    var ws := Eligible(vs);
    var last := WrappedTotal(ws) - 1;
    LoopsAgreeIff(vs, last);
    if TotalWeight(ws[..Holder(ws, last) + 1]) < U64 {
      forall draw: nat | draw < WrappedTotal(ws) ensures ChosenForSlot(vs, draw) == Chosen(vs, draw) {
        LoopsAgreeIff(vs, draw);
        HoldersAreOrdered(ws, draw, last);
      }
    }
  }

  lemma HoldersAreOrdered(ws: seq<Validator>, draw: nat, later: nat)
    requires draw <= later < TotalWeight(ws)
    ensures TotalWeight(ws[..Holder(ws, draw) + 1]) <= TotalWeight(ws[..Holder(ws, later) + 1])
  {
    var i, k := Holder(ws, draw), Holder(ws, later);
    if k < i {
      PrefixGrows(ws, k + 1, i);
    } else {
      PrefixGrows(ws, i + 1, k + 1);
    }
  }

  /** Without a wrap they always do, whatever the addresses; where the sum wraps to zero both fail. */
  lemma LoopsAgree(vs: seq<Validator>, draw: nat)
    requires CanDraw(vs, draw)
    requires TotalWeight(Eligible(vs)) < U64 || WrappedTotal(Eligible(vs)) == 0
    ensures ChosenForSlot(vs, draw) == Chosen(vs, draw)
  {
    var ws := Eligible(vs);
    if WrappedTotal(ws) > 0 {
      ModUnique(draw, WrappedTotal(ws), 0, draw);
      SlotPickIsTicket(ws, 0, draw);
    }
  }

  lemma PositiveTotal(ws: seq<Validator>)
    requires ws != [] && ws[0].weight > 0
    ensures TotalWeight(ws) > 0
  {
  }

  /** With weights 1, 2^64 - 1 and 5 the sum wraps to 5, and the loops pick different validators for 3. */
  lemma WrappedLoopsDisagree(a: Address, b: Address, c: Address)
    requires b != c
    ensures var vs := [Validator(a, 1), Validator(b, U64 - 1), Validator(c, 5)];
      CanDraw(vs, 3) && Chosen(vs, 3) == Success(b) && ChosenForSlot(vs, 3) == Success(c)
  {
    var x, y, z := Validator(a, 1), Validator(b, U64 - 1), Validator(c, 5);
    var vs := [x, y, z];
    assert vs[1..] == [y, z] && [y, z][1..] == [z] && [z][1..] == [];
    assert Eligible([z]) == [z] + [] && Eligible([y, z]) == [y] + [z] && Eligible(vs) == [x] + [y, z] == vs;
    assert TotalWeight([z]) == 5 && TotalWeight([y, z]) == U64 - 1 + 5 && TotalWeight(vs) == U64 + 5;
    assert vs[..1] == [x] && TotalWeight([x]) == 1;
    TicketIn(vs, 1, 3);
    assert SlotPick(vs, 0, 3) == SlotPick([y, z], 1, 3) == SlotPick([z], 0, 3) == c;
  }

  // ----- fairness over a window of slots

  /** Who the `n` slots from `start` go to. */
  ghost function Window(vs: seq<Validator>, start: nat, n: nat): seq<Address>
    requires WrappedTotal(Eligible(vs)) > 0
  {
    seq<Address>(n, i requires 0 <= i => ChosenForSlot(vs, start + i).value)
  }

  lemma {:induction false} TicketsPerAddress(ws: seq<Validator>, a: Address)
    ensures multiset(Tickets(ws))[a] == WeightOf(ws, a)
  {
    if ws != [] {
      TicketsPerAddress(ws[1..], a);
      Repeated(ws[0].weight, ws[0].address, a);
    }
  }

  lemma {:induction false} Repeated(n: nat, x: Address, a: Address)
    ensures multiset(seq(n, _ => x))[a] == if a == x then n else 0
  {
    if n > 0 {
      Repeated(n - 1, x, a);
      assert seq(n, _ => x) == seq(n - 1, _ => x) + [x];
    }
  }

  lemma {:induction false} EligibleWeight(vs: seq<Validator>, a: Address)
    ensures WeightOf(Eligible(vs), a) == WeightOf(vs, a)
  {
    if vs != [] {
      EligibleWeight(vs[1..], a);
      if vs[0].weight > 0 {
        assert Eligible(vs)[1..] == Eligible(vs[1..]);
      } else {
        assert Eligible(vs) == Eligible(vs[1..]);
      }
    }
  }

  /** `n` elements of an endless repetition of `t`, from position `start`. */
  ghost function Cycle(t: seq<Address>, start: nat, n: nat): seq<Address>
    requires t != []
  {
    seq<Address>(n, i requires 0 <= i => t[(start + i) % |t|])
  }

  /** Moving a full turn by one drops and adds the same element. */
  lemma TurnByOne(t: seq<Address>, start: nat)
    requires t != []
    ensures var v := Cycle(t, start, |t|); Cycle(t, start + 1, |t|) == v[1..] + [v[0]]
  {
    var n := |t|;
    var v, w := Cycle(t, start, n), Cycle(t, start + 1, n);
    assert w[n - 1] == v[0] by { ModTurn(start, n); }
    forall i | 0 <= i < n - 1 ensures w[i] == v[i + 1] {
      assert start + 1 + i == start + (i + 1);
    }
  }

  lemma {:induction false} FullTurn(t: seq<Address>, start: nat)
    requires t != []
    ensures multiset(Cycle(t, start, |t|)) == multiset(t)
  {
    if start == 0 {
      var w := Cycle(t, 0, |t|);
      forall i | 0 <= i < |t| ensures w[i] == t[i] {
        ModUnique(i, |t|, 0, i);
      }
      assert w == t;
    } else {
      FullTurn(t, start - 1);
      TurnByOne(t, start - 1);
      var v := Cycle(t, start - 1, |t|);
      assert v == [v[0]] + v[1..];
    }
  }

  /** A full window is a full turn over the tickets. */
  lemma WindowIsCycle(vs: seq<Validator>, start: nat)
    requires 0 < TotalWeight(Eligible(vs)) < U64
    ensures var t := Tickets(Eligible(vs)); Window(vs, start, |t|) == Cycle(t, start, |t|)
  {
    var ws := Eligible(vs);
    var t := Tickets(ws);
    var w := Window(vs, start, |t|);
    forall i | 0 <= i < |t| ensures w[i] == t[(start + i) % |t|] {
      SlotPickIsTicket(ws, 0, (start + i) % |t|);
      assert ChosenForSlot(vs, start + i) == Success(t[(start + i) % |t|]);
    }
  }

  /** In every window of total-weight consecutive slots each address is chosen exactly its weight's number of times. */
  lemma FairWindow(vs: seq<Validator>, start: nat, a: Address)
    requires 0 < TotalWeight(Eligible(vs)) < U64
    ensures multiset(Window(vs, start, WrappedTotal(Eligible(vs))))[a] == WeightOf(vs, a)
  {
    var t := Tickets(Eligible(vs));
    WindowIsCycle(vs, start);
    FullTurn(t, start);
    TicketsPerAddress(Eligible(vs), a);
    EligibleWeight(vs, a);
  }

  /** Slots are shared out by weight exactly when the sum of the weights does not wrap. */
  lemma FairWindowIff(vs: seq<Validator>, start: nat)
    requires WrappedTotal(Eligible(vs)) > 0
    ensures (forall a :: multiset(Window(vs, start, WrappedTotal(Eligible(vs))))[a] == WeightOf(vs, a)) <==>
            TotalWeight(Eligible(vs)) < U64
  {
    var w := Window(vs, start, WrappedTotal(Eligible(vs)));
    if TotalWeight(Eligible(vs)) < U64 {
      forall a ensures multiset(w)[a] == WeightOf(vs, a) {
        FairWindow(vs, start, a);
      }
    } else if forall a :: multiset(w)[a] == WeightOf(vs, a) {
      SharesAddUp(vs, w);
    }
  }

  /** A list that holds each address as often as its weight is as long as the total weight. */
  lemma SharesAddUp(vs: seq<Validator>, w: seq<Address>)
    requires forall a :: multiset(w)[a] == WeightOf(vs, a)
    ensures |w| == TotalWeight(Eligible(vs))
  {
    var t := Tickets(Eligible(vs));
    forall a ensures multiset(w)[a] == multiset(t)[a] {
      TicketsPerAddress(Eligible(vs), a);
      EligibleWeight(vs, a);
    }
    assert multiset(w) == multiset(t);
    assert |w| == |multiset(w)| == |multiset(t)| == |t|;
  }

  // ----- committees

  ghost function Addresses(vs: seq<Validator>): set<Address> {
    set v | v in vs :: v.address
  }

  /** `retain(|v| v.address != a)`. */
  function Retain(vs: seq<Validator>, a: Address): seq<Validator> {
    if vs == [] then []
    else (if vs[0].address != a then [vs[0]] else []) + Retain(vs[1..], a)
  }

  lemma {:induction false} RetainMember(vs: seq<Validator>, a: Address, v: Validator)
    ensures v in Retain(vs, a) <==> v in vs && v.address != a
  {
    if vs != [] {
      RetainMember(vs[1..], a, v);
      assert vs == [vs[0]] + vs[1..];
    }
  }

  lemma {:induction false} EligibleMember(vs: seq<Validator>, v: Validator)
    ensures v in Eligible(vs) <==> v in vs && v.weight > 0
  {
    if vs != [] {
      EligibleMember(vs[1..], v);
      assert vs == [vs[0]] + vs[1..];
    }
  }

  /** Dropping an address drops it from the addresses and from the eligible addresses. */
  lemma RetainDrops(vs: seq<Validator>, a: Address)
    ensures Addresses(Retain(vs, a)) == Addresses(vs) - {a}
    ensures Addresses(Eligible(Retain(vs, a))) == Addresses(Eligible(vs)) - {a}
  {
    forall v ensures v in Retain(vs, a) <==> v in vs && v.address != a { RetainMember(vs, a, v); }
    forall v ensures v in Eligible(vs) <==> v in vs && v.weight > 0 { EligibleMember(vs, v); }
    forall v ensures v in Eligible(Retain(vs, a)) <==> v in Retain(vs, a) && v.weight > 0 {
      EligibleMember(Retain(vs, a), v);
    }
  }

  lemma {:induction false} RetainTotal(vs: seq<Validator>, a: Address)
    ensures TotalWeight(Eligible(Retain(vs, a))) <= TotalWeight(Eligible(vs))
  {
    if vs != [] {
      RetainTotal(vs[1..], a);
      EligibleTotal(vs);
      EligibleTotal(vs[1..]);
      EligibleTotal(Retain(vs, a));
      EligibleTotal(Retain(vs[1..], a));
      if vs[0].address == a {
        assert Retain(vs, a) == Retain(vs[1..], a);
      } else {
        assert Retain(vs, a)[1..] == Retain(vs[1..], a);
      }
    }
  }

  lemma {:induction false} EligibleTotal(vs: seq<Validator>)
    ensures TotalWeight(Eligible(vs)) == TotalWeight(vs)
  {
    if vs != [] {
      EligibleTotal(vs[1..]);
      if vs[0].weight > 0 {
        assert Eligible(vs)[1..] == Eligible(vs[1..]);
      } else {
        assert Eligible(vs) == Eligible(vs[1..]);
      }
    }
  }

  lemma EligibleAddresses(vs: seq<Validator>)
    ensures Addresses(Eligible(vs)) <= Addresses(vs)
  {
    forall v | v in Eligible(vs) ensures v in vs { EligibleMember(vs, v); }
  }

  lemma {:induction false} TicketHolder(ws: seq<Validator>, draw: nat)
    requires draw < TotalWeight(ws)
    ensures Tickets(ws)[draw] in Addresses(ws)
  {
    assert ws == [ws[0]] + ws[1..];
    if draw >= ws[0].weight {
      TicketHolder(ws[1..], draw - ws[0].weight);
      var v :| v in ws[1..] && v.address == Tickets(ws)[draw];
      assert v in ws;
    } else {
      assert ws[0] in ws;
    }
  }

  /** After some picks `picked`, `left` of the `eligible` and `rest` of `all` addresses remain. */
  ghost predicate Remaining(eligible: set<Address>, all: set<Address>, picked: seq<Address>,
                            left: set<Address>, rest: set<Address>) {
    && left <= eligible <= all
    && left <= rest <= all
    && eligible - left == all - rest
    && |left| + |picked| == |eligible|
    && (forall j :: 0 <= j < |picked| ==> picked[j] in eligible - left)
    && (forall j, k :: 0 <= j < k < |picked| ==> picked[j] != picked[k])
  }

  lemma PickOne(eligible: set<Address>, all: set<Address>, picked: seq<Address>,
                left: set<Address>, rest: set<Address>, a: Address)
    requires Remaining(eligible, all, picked, left, rest) && a in left
    ensures Remaining(eligible, all, picked + [a], left - {a}, rest - {a})
  {
    assert eligible - (left - {a}) == eligible - left + {a};
    assert all - (rest - {a}) == all - rest + {a};
  }

  /** Stopping with `picked` of `rounds` picks made: in full, or with nobody left, or with nobody eligible left. */
  lemma StopPicking(eligible: set<Address>, all: set<Address>, picked: seq<Address>,
                    left: set<Address>, rest: set<Address>, rounds: nat)
    requires Remaining(eligible, all, picked, left, rest) && |picked| <= rounds
    ensures |picked| == rounds ==> rounds <= |eligible|
    ensures rest == {} ==> eligible == all && |picked| == |eligible|
    ensures left == {} && rest != {} ==> eligible != all && |picked| == |eligible|
  {
    if rest == {} || left == {} {
      assert left == {};
      assert eligible - left == eligible;
      assert all - rest == all <==> all !! rest;
    }
  }

  /** A committee is that many distinct eligible addresses, whatever the generator draws; it fails for want of eligible
      addresses, or where a sum of weights wraps to zero. */
  method SelectCommittee(vs: seq<Validator>, count: nat) returns (r: Result<seq<Address>, SelectionError>)
    ensures vs == [] ==> r == Failure(NoValidators)
    ensures vs != [] && TotalWeight(Eligible(vs)) < U64 ==>
      (r.Success? <==> Min(count, |vs|) <= |Addresses(Eligible(vs))| || Addresses(Eligible(vs)) == Addresses(vs))
    ensures r == Failure(ZeroWeight) ==> TotalWeight(Eligible(vs)) >= U64
    ensures r.Success? ==>
      && (forall i, j :: 0 <= i < j < |r.value| ==> r.value[i] != r.value[j])
      && (forall i :: 0 <= i < |r.value| ==> r.value[i] in Addresses(Eligible(vs)))
      && |r.value| == Min(Min(count, |vs|), |Addresses(Eligible(vs))|)
  {
    if vs == [] {
      return Failure(NoValidators);
    }
    var selected: seq<Address>, remaining := [], vs;
    ghost var eligible, all := Addresses(Eligible(vs)), Addresses(vs);
    ghost var left, rest := eligible, all;
    EligibleAddresses(vs);
    var rounds := Min(count, |vs|);
    while |selected| < rounds && remaining != []
      invariant |selected| <= rounds
      invariant left == Addresses(Eligible(remaining)) && rest == Addresses(remaining)
      invariant Remaining(eligible, all, selected, left, rest)
      invariant TotalWeight(Eligible(remaining)) <= TotalWeight(Eligible(vs))
      decreases rounds - |selected|
    {
      var draw: nat :| CanDraw(remaining, draw);
      var pick := SelectValidator(remaining, draw);
      if pick.Failure? {
        FailedPick(remaining, draw);
        assert remaining[0].address in rest;
        StopPicking(eligible, all, selected, left, rest, rounds);
        return Failure(pick.error);
      }
      TicketHolder(Eligible(remaining), draw);
      RetainDrops(remaining, pick.value);
      RetainTotal(remaining, pick.value);
      PickOne(eligible, all, selected, left, rest, pick.value);
      selected := selected + [pick.value];
      remaining := Retain(remaining, pick.value);
      left, rest := left - {pick.value}, rest - {pick.value};
    }
    StopPicking(eligible, all, selected, left, rest, rounds);
    return Success(selected);
  }

  /** Selection from somebody fails for want of an eligible validator, or because the sum wraps. */
  lemma FailedPick(vs: seq<Validator>, draw: nat)
    requires vs != [] && CanDraw(vs, draw) && Chosen(vs, draw).Failure?
    ensures Chosen(vs, draw) == Failure(NoEligible) ==> Addresses(Eligible(vs)) == {}
    ensures Chosen(vs, draw) != Failure(NoEligible) ==>
      Chosen(vs, draw) == Failure(ZeroWeight) && TotalWeight(Eligible(vs)) >= U64
  {
    if Eligible(vs) != [] {
      PositiveTotal(Eligible(vs));
    }
  }

  // ----- the Nakamoto coefficient

  function Sum(ws: seq<nat>): nat {
    if ws == [] then 0 else ws[0] + Sum(ws[1..])
  }

  predicate Descending(ws: seq<nat>) {
    |ws| <= 1 || (ws[0] >= ws[1] && Descending(ws[1..]))
  }

  function InsertDescending(w: nat, ws: seq<nat>): (r: seq<nat>)
    requires Descending(ws)
    ensures Descending(r) && |r| == |ws| + 1 && Sum(r) == w + Sum(ws)
    ensures r[0] == w || (ws != [] && r[0] == ws[0])
  {
    if ws == [] || w >= ws[0] then
      assert ([w] + ws)[1..] == ws;
      [w] + ws
    else
      var rest := InsertDescending(w, ws[1..]);
      assert ([ws[0]] + rest)[1..] == rest;
      [ws[0]] + rest
  }

  /** The descending sort of the weights. */
  function SortDescending(ws: seq<nat>): (r: seq<nat>)
    ensures Descending(r) && |r| == |ws| && Sum(r) == Sum(ws)
  {
    if ws == [] then [] else InsertDescending(ws[0], SortDescending(ws[1..]))
  }

  /** The sum of the first `k` weights. */
  function TopSum(ws: seq<nat>, k: nat): nat {
    if k == 0 || ws == [] then 0 else ws[0] + TopSum(ws[1..], k - 1)
  }

  lemma {:induction false} TopSumNext(ws: seq<nat>, k: nat)
    ensures TopSum(ws, k + 1) == TopSum(ws, k) + if k < |ws| then ws[k] else 0
  {
    if k > 0 && ws != [] {
      TopSumNext(ws[1..], k - 1);
    }
  }

  lemma {:induction false} TopSumGrows(ws: seq<nat>, i: nat, k: nat)
    requires i <= k
    ensures TopSum(ws, i) <= TopSum(ws, k)
  {
    if i < k {
      TopSumGrows(ws, i, k - 1);
      TopSumNext(ws, k - 1);
    }
  }

  lemma {:induction false} TopSumOfAll(ws: seq<nat>)
    ensures TopSum(ws, |ws|) == Sum(ws)
  {
    if ws != [] {
      TopSumOfAll(ws[1..]);
    }
  }

  /** In a descending list no weight exceeds the first. */
  lemma {:induction false} TopSumStep(ws: seq<nat>, k: nat)
    requires Descending(ws) && ws != [] && k > 0
    ensures TopSum(ws, k) <= TopSum(ws, k - 1) + ws[0]
  {
    if k > 1 && |ws| > 1 {
      TopSumStep(ws[1..], k - 1);
    }
  }

  /** Inserting a weight: the top `k` either take it or stay, and gain from it what they can. */
  lemma {:induction false} TopSumOfInsert(w: nat, ws: seq<nat>, k: nat)
    requires Descending(ws)
    ensures TopSum(InsertDescending(w, ws), k) >= TopSum(ws, k)
    ensures TopSum(InsertDescending(w, ws), k + 1) >= w + TopSum(ws, k)
    ensures k > 0 ==> TopSum(InsertDescending(w, ws), k) == TopSum(ws, k) ||
                      TopSum(InsertDescending(w, ws), k) == w + TopSum(ws, k - 1)
  {
    if ws == [] || w >= ws[0] {
      TopSumCons(w, ws, k);
      TopSumCons(w, ws, k + 1);
      if ws != [] && k > 0 {
        TopSumStep(ws, k);
      }
    } else {
      var rest := InsertDescending(w, ws[1..]);
      TopSumCons(ws[0], rest, k);
      TopSumCons(ws[0], rest, k + 1);
      if k > 0 {
        TopSumOfInsert(w, ws[1..], k - 1);
      }
    }
  }

  lemma TopSumCons(w: nat, ws: seq<nat>, k: nat)
    ensures TopSum([w] + ws, k) == if k == 0 then 0 else w + TopSum(ws, k - 1)
  {
    assert ([w] + ws)[1..] == ws;
  }

  /** A coalition: which of the listed validators take part. */
  type Coalition = seq<bool>

  ghost function Members(c: Coalition): nat {
    if c == [] then 0 else (if c[0] then 1 else 0) + Members(c[1..])
  }

  ghost function Power(ws: seq<nat>, c: Coalition): nat
    requires |ws| == |c|
  {
    if c == [] then 0 else (if c[0] then ws[0] else 0) + Power(ws[1..], c[1..])
  }

  /** Exchange: no coalition outweighs equally many of the largest weights. */
  lemma {:induction false} LargestOutweigh(ws: seq<nat>, c: Coalition)
    requires |ws| == |c|
    ensures Power(ws, c) <= TopSum(SortDescending(ws), Members(c))
  {
    if ws != [] {
      LargestOutweigh(ws[1..], c[1..]);
      TopSumOfInsert(ws[0], SortDescending(ws[1..]), Members(c[1..]));
    }
  }

  /** Whether the first validator belongs to the `k` largest. */
  lemma HeadJoins(w: nat, rest: seq<nat>, k: nat) returns (joins: bool)
    requires Descending(rest) && k <= |rest| + 1
    ensures if joins then k > 0 && TopSum(InsertDescending(w, rest), k) == w + TopSum(rest, k - 1)
            else k <= |rest| && TopSum(InsertDescending(w, rest), k) == TopSum(rest, k)
  {
    TopSumOfInsert(w, rest, k);
    joins := k > 0 && TopSum(InsertDescending(w, rest), k) == w + TopSum(rest, k - 1);
    if k == |rest| + 1 {
      TopSumOfAll(InsertDescending(w, rest));
      TopSumOfAll(rest);
    }
  }

  /** Some coalition has the weight of the `k` largest. */
  lemma {:induction false} LargestCoalition(ws: seq<nat>, k: nat) returns (c: Coalition)
    requires k <= |ws|
    ensures |c| == |ws| && Members(c) == k && Power(ws, c) == TopSum(SortDescending(ws), k)
  {
    c := [];
    if ws != [] {
      var joins := HeadJoins(ws[0], SortDescending(ws[1..]), k);
      var others := LargestCoalition(ws[1..], if joins then k - 1 else k);
      c := [joins] + others;
      assert c[1..] == others;
    }
  }

  /** A coalition reaches the threshold: a third of the total weight, rounded down. */
  ghost predicate Reaches(ws: seq<nat>, c: Coalition) {
    |c| == |ws| && Power(ws, c) >= Sum(ws) / 3
  }

  /** `n` is the least size of a non-empty coalition that reaches the threshold. */
  ghost predicate IsLeast(ws: seq<nat>, n: nat) {
    && (ws == [] ==> n == 0)
    && (ws != [] ==> exists c: Coalition :: Members(c) == n > 0 && Reaches(ws, c))
    && (forall c: Coalition :: Reaches(ws, c) && Members(c) > 0 ==> Members(c) >= n)
  }

  /** How many weights the loop takes until its u64 sum reaches the threshold. */
  ghost function Taken(ws: seq<nat>, accumulated: nat, threshold: nat): nat {
    if ws == [] then 0
    else
      var next := (accumulated + ws[0]) % U64;
      if next >= threshold then 1 else 1 + Taken(ws[1..], next, threshold)
  }

  ghost function Coefficient(ws: seq<nat>): nat {
    Taken(SortDescending(ws), 0, Sum(ws) % U64 / 3)
  }

  method NakamotoCoefficient(ws: seq<nat>) returns (count: nat)
    ensures count == Coefficient(ws)
  {
    var sorted := SortDescending(ws);
    var threshold := Sum(sorted) % U64 / 3;
    var accumulated: nat := 0;
    count := 0;
    while count < |sorted|
      invariant count <= |sorted|
      invariant count + Taken(sorted[count..], accumulated, threshold) == Coefficient(ws)
    {
      assert sorted[count..][1..] == sorted[count + 1..];
      accumulated := (accumulated + sorted[count]) % U64;
      count := count + 1;
      if accumulated >= threshold {
        break;
      }
    }
  }

  /** Without a wrap, the weights taken are the first to reach the threshold. */
  lemma {:induction false} TakenIsFirst(ws: seq<nat>, accumulated: nat, threshold: nat)
    requires ws != [] && threshold <= accumulated + Sum(ws) < U64
    ensures var n := Taken(ws, accumulated, threshold);
      && 0 < n <= |ws|
      && accumulated + TopSum(ws, n) >= threshold
      && (n > 1 ==> accumulated + TopSum(ws, n - 1) < threshold)
  {
    var next := accumulated + ws[0];
    ModUnique(next, U64, 0, next);
    if next < threshold {
      TakenIsFirst(ws[1..], next, threshold);
    }
  }

  /** The coefficient is the least coalition size, if the sum of the weights does not wrap. */
  lemma CoefficientIsLeast(ws: seq<nat>)
    requires Sum(ws) < U64
    ensures IsLeast(ws, Coefficient(ws))
  {
    var sorted, n := SortDescending(ws), Coefficient(ws);
    if ws != [] {
      ModUnique(Sum(ws), U64, 0, Sum(ws));
      TakenIsFirst(sorted, 0, Sum(ws) / 3);
      var c := LargestCoalition(ws, n);
      assert Members(c) == n > 0 && Reaches(ws, c);
      NoneSmaller(ws, n);
    }
  }

  lemma NoneSmaller(ws: seq<nat>, n: nat)
    requires n > 1 ==> TopSum(SortDescending(ws), n - 1) < Sum(ws) / 3
    ensures forall c: Coalition :: Reaches(ws, c) && Members(c) > 0 ==> Members(c) >= n
  {
    forall c: Coalition | Reaches(ws, c) && Members(c) > 0 ensures Members(c) >= n {
      LargestOutweigh(ws, c);
      if Members(c) < n {
        TopSumGrows(SortDescending(ws), Members(c), n - 1);
      }
    }
  }

  /** So some coalition of that size holds a third of the weight, rounded down, and no smaller one does. */
  lemma CoefficientHoldsThird(ws: seq<nat>)
    requires ws != [] && Sum(ws) < U64
    ensures exists c: Coalition ::
      |c| == |ws| && Members(c) == Coefficient(ws) > 0 && 3 * Power(ws, c) + 2 >= Sum(ws)
    ensures forall c: Coalition ::
      |c| == |ws| && 0 < Members(c) < Coefficient(ws) ==> 3 * Power(ws, c) + 3 <= Sum(ws)
  {
    CoefficientIsLeast(ws);
    var c: Coalition :| Members(c) == Coefficient(ws) > 0 && Reaches(ws, c);
    assert 3 * Power(ws, c) + 2 >= Sum(ws);
    forall d: Coalition | |d| == |ws| && 0 < Members(d) < Coefficient(ws) ensures 3 * Power(ws, d) + 3 <= Sum(ws) {
      assert !Reaches(ws, d);
    }
  }

  /** The coefficient is right for all weights that sum to at most `bound`. */
  ghost predicate AlwaysLeast(bound: nat) {
    forall ws :: Sum(ws) <= bound ==> IsLeast(ws, Coefficient(ws))
  }

  /** That is so exactly for bounds below 2^64. */
  lemma AlwaysLeastIff(bound: nat)
    ensures AlwaysLeast(bound) <==> bound < U64
  {
    if bound < U64 {
      forall ws | Sum(ws) <= bound ensures IsLeast(ws, Coefficient(ws)) {
        CoefficientIsLeast(ws);
      }
    } else {
      QuartersMislead();
      assert Sum(Quarters()) <= bound;
    }
  }

  const QUARTER: nat := 0x4000_0000_0000_0000

  function Quarters(): seq<nat> {
    [QUARTER, QUARTER, QUARTER, QUARTER]
  }

  /** Four weights of 2^62 wrap to zero: the loop stops at one of them, which is less than a third. */
  lemma QuartersMislead()
    ensures Sum(Quarters()) == U64 && !IsLeast(Quarters(), Coefficient(Quarters()))
  {
    var ws := Quarters();
    assert Sum(ws) == U64 by {
      assert ws[1..] == [QUARTER, QUARTER, QUARTER] && ws[1..][1..] == [QUARTER, QUARTER];
      assert ws[1..][1..][1..] == [QUARTER] && ws[1..][1..][1..][1..] == [];
    }
    assert Coefficient(ws) == 1 by {
      assert SortDescending(ws) != [] && Sum(ws) % U64 / 3 == 0;
    }
    forall c: Coalition | Reaches(ws, c) && Members(c) == 1 ensures false {
      SinglePower(ws, c);
    }
  }

  /** One of equal weights has the power of one. */
  lemma {:induction false} SinglePower(ws: seq<nat>, c: Coalition)
    requires |ws| == |c| && forall i :: 0 <= i < |ws| ==> ws[i] == QUARTER
    ensures Power(ws, c) == Members(c) * QUARTER
  {
    if c != [] {
      SinglePower(ws[1..], c[1..]);
    }
  }
}
