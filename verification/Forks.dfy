/** Fork resolution over a hash-linked block tree (fork.rs). */
module Forks {
  import opened Types
  import opened Blocks

  // The ancestor search gives up once either walk has visited more blocks than this.
  const SEARCH_LIMIT: nat := 10000

  type Tree = map<Hash, Block>

  datatype ReorgPath = ReorgPath(commonAncestor: Hash, revert: seq<Block>, apply: seq<Block>, depth: nat)

  datatype ReorgError = ForkDetected | BlockNotFound(hash: Hash) | ReorgTooDeep(depth: nat)

  /** One genesis, every other block one above its stored parent, and no block keyed by the zero hash. */
  ghost predicate WellFormed(t: Tree, genesis: Hash) {
    && ZERO_HASH !in t
    && genesis in t
    && IsGenesis(t[genesis])
    && forall h {:trigger HasParent(t, h)} :: h in t && h != genesis ==> HasParent(t, h)
  }

  ghost predicate HasParent(t: Tree, h: Hash) {
    && h in t
    && t[h].header.parentHash in t
    && t[h].header.number == t[t[h].header.parentHash].header.number + 1
  }

  ghost function Height(t: Tree, h: Hash): nat
    requires h in t
  {
    t[h].header.number
  }

  /** The hash reached from `h` by following `k` parent links (the zero hash once past genesis). */
  ghost function Up(t: Tree, h: Hash, k: nat): Hash {
    if k == 0 then h
    else
      var below := Up(t, h, k - 1);
      if below in t then t[below].header.parentHash else ZERO_HASH
  }

  /** The blocks from genesis to `h`, in order. */
  ghost function Chain(t: Tree, g: Hash, h: Hash): seq<Block>
    requires WellFormed(t, g) && h in t
    decreases Height(t, h)
  {
    if h == g then [t[g]] else assert HasParent(t, h); Chain(t, g, t[h].header.parentHash) + [t[h]]
  }

  ghost predicate IsAncestor(t: Tree, x: Hash, h: Hash)
    requires h in t
  {
    x in t && Height(t, x) <= Height(t, h) && Up(t, h, Height(t, h) - Height(t, x)) == x
  }

  /** The lowest common ancestor: level the higher head, then climb both together. */
  ghost function Lowest(t: Tree, g: Hash, a: Hash, b: Hash): (l: Hash)
    requires WellFormed(t, g) && a in t && b in t
    ensures l in t
    decreases Height(t, a) + Height(t, b)
  {
    if a == b then a
    else
    assert a != g ==> HasParent(t, a);
    assert b != g ==> HasParent(t, b);
    if Height(t, a) > Height(t, b) then Lowest(t, g, t[a].header.parentHash, b)
    else if Height(t, a) < Height(t, b) then Lowest(t, g, a, t[b].header.parentHash)
    else Lowest(t, g, t[a].header.parentHash, t[b].header.parentHash)
  }

  // ----- walking up the tree

  lemma GenesisIsBottom(t: Tree, g: Hash, h: Hash)
    requires WellFormed(t, g) && h in t
    ensures h == g <==> Height(t, h) == 0
    ensures h != g ==> HasParent(t, h)
  {
    if h != g {
      assert HasParent(t, h);
    }
  }

  lemma {:induction false} UpInTree(t: Tree, g: Hash, h: Hash, k: nat)
    requires WellFormed(t, g) && h in t
    ensures k <= Height(t, h) ==> Up(t, h, k) in t && Height(t, Up(t, h, k)) == Height(t, h) - k
    ensures k == Height(t, h) ==> Up(t, h, k) == g
    ensures k == Height(t, h) + 1 ==> Up(t, h, k) == ZERO_HASH
  {
    if k > 0 {
      UpInTree(t, g, h, k - 1);
      if k - 1 <= Height(t, h) {
        GenesisIsBottom(t, g, Up(t, h, k - 1));
      }
    }
    if k <= Height(t, h) {
      GenesisIsBottom(t, g, Up(t, h, k));
    }
  }

  lemma {:induction false} UpUp(t: Tree, h: Hash, i: nat, j: nat)
    ensures Up(t, Up(t, h, i), j) == Up(t, h, i + j)
  {
    if j > 0 {
      UpUp(t, h, i, j - 1);
    }
  }

  lemma AncestorOfParent(t: Tree, g: Hash, x: Hash, h: Hash)
    requires WellFormed(t, g) && HasParent(t, h)
    requires IsAncestor(t, x, t[h].header.parentHash)
    ensures IsAncestor(t, x, h)
  {
    var p := t[h].header.parentHash;
    var k := Height(t, p) - Height(t, x);
    assert Up(t, h, 1) == p by { assert Up(t, h, 0) == h; }
    UpUp(t, h, 1, k);
  }

  lemma {:induction false} LowestIsCommon(t: Tree, g: Hash, a: Hash, b: Hash)
    requires WellFormed(t, g) && a in t && b in t
    ensures IsAncestor(t, Lowest(t, g, a, b), a) && IsAncestor(t, Lowest(t, g, a, b), b)
    decreases Height(t, a) + Height(t, b)
  {
    var l := Lowest(t, g, a, b);
    if a != b {
      GenesisIsBottom(t, g, a);
      GenesisIsBottom(t, g, b);
      if Height(t, a) >= Height(t, b) {
        if Height(t, a) > Height(t, b) {
          LowestIsCommon(t, g, t[a].header.parentHash, b);
        } else {
          LowestIsCommon(t, g, t[a].header.parentHash, t[b].header.parentHash);
          AncestorOfParent(t, g, l, b);
        }
        AncestorOfParent(t, g, l, a);
      } else {
        LowestIsCommon(t, g, a, t[b].header.parentHash);
        AncestorOfParent(t, g, l, b);
      }
    }
  }

  lemma {:induction false} LowestSymmetric(t: Tree, g: Hash, a: Hash, b: Hash)
    requires WellFormed(t, g) && a in t && b in t
    ensures Lowest(t, g, a, b) == Lowest(t, g, b, a)
    decreases Height(t, a) + Height(t, b)
  {
    if a != b {
      GenesisIsBottom(t, g, a);
      GenesisIsBottom(t, g, b);
      if Height(t, a) > Height(t, b) {
        LowestSymmetric(t, g, t[a].header.parentHash, b);
      } else if Height(t, a) < Height(t, b) {
        LowestSymmetric(t, g, a, t[b].header.parentHash);
      } else {
        LowestSymmetric(t, g, t[a].header.parentHash, t[b].header.parentHash);
      }
    }
  }

  /** Two walks agree exactly at the common ancestors: at equal height, no higher than the lowest one. */
  lemma {:induction false} WalksMeet(t: Tree, g: Hash, a: Hash, b: Hash, i: nat, j: nat)
    requires WellFormed(t, g) && a in t && b in t
    requires i <= Height(t, a) && j <= Height(t, b)
    ensures Up(t, a, i) == Up(t, b, j) <==>
            Height(t, a) - i == Height(t, b) - j <= Height(t, Lowest(t, g, a, b))
  {
    var l := Lowest(t, g, a, b);
    LowestIsCommon(t, g, a, b);
    UpInTree(t, g, a, i);
    UpInTree(t, g, b, j);
    if Height(t, a) - i == Height(t, b) - j <= Height(t, l) {
      var k := Height(t, l) - (Height(t, a) - i);
      UpUp(t, a, Height(t, a) - Height(t, l), k);
      UpUp(t, b, Height(t, b) - Height(t, l), k);
    } else if Up(t, a, i) == Up(t, b, j) {
      NoneHigher(t, g, a, b, i, j);
    }
  }

  lemma {:induction false} NoneHigher(t: Tree, g: Hash, a: Hash, b: Hash, i: nat, j: nat)
    requires WellFormed(t, g) && a in t && b in t
    requires i <= Height(t, a) && j <= Height(t, b)
    requires Up(t, a, i) == Up(t, b, j)
    ensures Height(t, a) - i <= Height(t, Lowest(t, g, a, b))
    decreases Height(t, a) + Height(t, b)
  {
    UpInTree(t, g, a, i);
    UpInTree(t, g, b, j);
    if a != b {
      GenesisIsBottom(t, g, a);
      GenesisIsBottom(t, g, b);
      if Height(t, a) >= Height(t, b) {
        StepUp(t, a, i);
        if Height(t, a) > Height(t, b) {
          NoneHigher(t, g, t[a].header.parentHash, b, i - 1, j);
        } else {
          StepUp(t, b, j);
          NoneHigher(t, g, t[a].header.parentHash, t[b].header.parentHash, i - 1, j - 1);
        }
      } else {
        StepUp(t, b, j);
        NoneHigher(t, g, a, t[b].header.parentHash, i, j - 1);
      }
    }
  }

  lemma StepUp(t: Tree, h: Hash, k: nat)
    requires h in t
    ensures k > 0 ==> Up(t, h, k) == Up(t, t[h].header.parentHash, k - 1)
  {
    if k > 0 {
      assert Up(t, h, 1) == t[h].header.parentHash by { assert Up(t, h, 0) == h; }
      UpUp(t, h, 1, k - 1);
    }
  }

  // ----- the ancestor search

  /** What the search returns, stated without its loop. */
  ghost function SearchOutcome(t: Tree, g: Hash, a: Hash, b: Hash): Option<Hash>
    requires WellFormed(t, g)
  {
    if a !in t || b !in t then None
    else if Height(t, a) == Height(t, b) then
      if Height(t, a) <= SEARCH_LIMIT then Some(g) else None
    else if SearchDistance(t, g, a, b) <= Min(SEARCH_LIMIT, Min(Height(t, a), Height(t, b)) + 1) then
      Some(Lowest(t, g, a, b))
    else None
  }

  /** The distance from the higher head to the lowest common ancestor. */
  ghost function SearchDistance(t: Tree, g: Hash, a: Hash, b: Hash): int
    requires WellFormed(t, g) && a in t && b in t
  {
    Max(Height(t, a), Height(t, b)) - Height(t, Lowest(t, g, a, b))
  }

  /** The hashes met in the first `k` steps of the walk from `h`. */
  ghost function Visited(t: Tree, h: Hash, k: nat): set<Hash> {
    set i: nat | i < k :: Up(t, h, i)
  }

  lemma VisitedNext(t: Tree, h: Hash, k: nat)
    ensures Visited(t, h, k + 1) == Visited(t, h, k) + {Up(t, h, k)}
  {
    forall x ensures x in Visited(t, h, k + 1) <==> x in Visited(t, h, k) + {Up(t, h, k)} {
      if x in Visited(t, h, k) {
        var i: nat :| i < k && x == Up(t, h, i);
        assert i < k + 1;
      }
    }
  }

  /** After `k` steps inside the tree the walk has met `k` different blocks, and not the next one. */
  lemma {:induction false} VisitedDistinct(t: Tree, g: Hash, h: Hash, k: nat)
    requires WellFormed(t, g) && h in t && k <= Height(t, h) + 1
    ensures |Visited(t, h, k)| == k
    ensures Up(t, h, k) !in Visited(t, h, k)
  {
    if k > 0 {
      VisitedDistinct(t, g, h, k - 1);
      VisitedNext(t, h, k - 1);
    }
    UpInTree(t, g, h, k);
    if i: nat :| i < k && Up(t, h, i) == Up(t, h, k) {
      UpInTree(t, g, h, i);
    }
  }

  /** The walks from `a` and `b` agree exactly at equal heights up to `m`. */
  ghost predicate MeetAt(t: Tree, a: Hash, b: Hash, m: nat)
    requires a in t && b in t
  {
    && m <= Height(t, a) && m <= Height(t, b)
    && forall i: nat, j: nat {:trigger Up(t, a, i), Up(t, b, j)} ::
         i <= Height(t, a) && j <= Height(t, b) ==>
           (Up(t, a, i) == Up(t, b, j) <==> Height(t, a) - i == Height(t, b) - j <= m)
  }

  lemma MeetAtLowest(t: Tree, g: Hash, a: Hash, b: Hash)
    requires WellFormed(t, g) && a in t && b in t
    ensures MeetAt(t, a, b, Height(t, Lowest(t, g, a, b)))
  {
    LowestIsCommon(t, g, a, b);
    forall i: nat, j: nat | i <= Height(t, a) && j <= Height(t, b)
      ensures Up(t, a, i) == Up(t, b, j) <==>
              Height(t, a) - i == Height(t, b) - j <= Height(t, Lowest(t, g, a, b))
    {
      WalksMeet(t, g, a, b, i, j);
    }
  }

  /** One walk steps onto the other's trail exactly when it started higher and has come down to the meeting height. */
  lemma OnTrail(t: Tree, g: Hash, a: Hash, b: Hash, m: nat, k: nat)
    requires WellFormed(t, g) && a in t && b in t && MeetAt(t, a, b, m)
    requires k <= Height(t, a) + 1 && k <= Height(t, b) + 1
    ensures Up(t, a, k) in Visited(t, b, k) <==>
            Height(t, b) < Height(t, a) && Height(t, a) - m <= k <= Height(t, a)
  {
    UpInTree(t, g, a, k);
    if k > Height(t, a) {
      forall i: nat | i < k ensures Up(t, b, i) != Up(t, a, k) {
        UpInTree(t, g, b, i);
      }
    } else if Height(t, b) < Height(t, a) && Height(t, a) - m <= k {
      var i := k - (Height(t, a) - Height(t, b));
      assert 0 <= i < k && Up(t, b, i) == Up(t, a, k);
    }
  }

  /** Both walks have taken `k` steps and the search is not over. */
  ghost predicate Searching(t: Tree, g: Hash, a: Hash, b: Hash, k: nat)
    requires WellFormed(t, g) && a in t && b in t
  {
    && k <= Min(SEARCH_LIMIT, Min(Height(t, a), Height(t, b)) + 1)
    && k <= if Height(t, a) == Height(t, b) then Height(t, a) else SearchDistance(t, g, a, b)
  }

  /** When one walk is on the other's trail, in terms of heights alone. */
  lemma TrailsCross(t: Tree, g: Hash, a: Hash, b: Hash, k: nat)
    requires WellFormed(t, g) && a in t && b in t && Searching(t, g, a, b, k)
    ensures Up(t, a, k) in Visited(t, b, k) <==>
            Height(t, b) < Height(t, a) && k == SearchDistance(t, g, a, b)
    ensures Up(t, b, k) in Visited(t, a, k) <==>
            Height(t, a) < Height(t, b) && k == SearchDistance(t, g, a, b)
    ensures Height(t, b) < Height(t, a) ==> Up(t, a, SearchDistance(t, g, a, b)) == Lowest(t, g, a, b)
    ensures Height(t, a) < Height(t, b) ==> Up(t, b, SearchDistance(t, g, a, b)) == Lowest(t, g, a, b)
  {
    var m := Height(t, Lowest(t, g, a, b));
    LowestIsCommon(t, g, a, b);
    LowestSymmetric(t, g, a, b);
    assert MeetAt(t, a, b, m) && MeetAt(t, b, a, m) by {
      MeetAtLowest(t, g, a, b);
      MeetAtLowest(t, g, b, a);
    }
    OnTrail(t, g, a, b, m, k);
    OnTrail(t, g, b, a, m, k);
  }

  /** What each test of one round of the search means for its outcome. */
  lemma SearchRound(t: Tree, g: Hash, a: Hash, b: Hash, k: nat)
    requires WellFormed(t, g) && a in t && b in t && Searching(t, g, a, b, k)
    ensures var (x, y, r) := (Up(t, a, k), Up(t, b, k), SearchOutcome(t, g, a, b));
      if x in Visited(t, b, k) then r == Some(x)
      else if y in Visited(t, a, k) then r == Some(y)
      else if x !in t || y !in t then r == None
      else if IsGenesis(t[x]) && IsGenesis(t[y]) then r == Some(x)
      else if k == SEARCH_LIMIT then r == None
      else Searching(t, g, a, b, k + 1)
    ensures |Visited(t, a, k)| == |Visited(t, b, k)| == k
    ensures Up(t, a, k) !in Visited(t, a, k) && Up(t, b, k) !in Visited(t, b, k)
  {
    TrailsCross(t, g, a, b, k);
    UpInTree(t, g, a, k);
    UpInTree(t, g, b, k);
    VisitedDistinct(t, g, a, k);
    VisitedDistinct(t, g, b, k);
  }

  /** Two maps that store the same header under every hash they share. */
  ghost predicate Agree(s: Tree, t: Tree) {
    forall h :: h in s && h in t ==> s[h].header == t[h].header
  }

  lemma {:induction false} UpAgrees(t: Tree, t': Tree, g: Hash, h: Hash, k: nat)
    requires WellFormed(t, g) && h in t && k <= Height(t, h)
    requires t.Keys <= t'.Keys && Agree(t, t')
    ensures Up(t', h, k) == Up(t, h, k)
  {
    if k > 0 {
      UpAgrees(t, t', g, h, k - 1);
      UpInTree(t, g, h, k - 1);
    }
  }

  lemma JoinIsWellFormed(s: Tree, t: Tree, g: Hash)
    requires WellFormed(s, g) && WellFormed(t, g) && Agree(s, t)
    ensures WellFormed(s + t, g) && Agree(s, s + t) && Agree(t, s + t)
  {
    forall h | h in s + t && h != g ensures HasParent(s + t, h) {
      assert if h in t then HasParent(t, h) else HasParent(s, h);
    }
  }

  /** A walk that starts in one map leaves it exactly when it leaves the larger one. */
  lemma WalkStays(t: Tree, t': Tree, g: Hash, h: Hash, k: nat)
    requires WellFormed(t, g) && WellFormed(t', g) && t.Keys <= t'.Keys && Agree(t, t')
    requires h in t && k <= Height(t', h) + 1
    ensures Up(t', h, k) in t <==> Up(t', h, k) in t'
  {
    UpInTree(t', g, h, k);
    if k <= Height(t, h) {
      UpAgrees(t, t', g, h, k);
      UpInTree(t, g, h, k);
    }
  }

  /** One round over two maps, in terms of their join. */
  lemma JoinedRound(s: Tree, t: Tree, g: Hash, a: Hash, b: Hash, k: nat)
    requires WellFormed(s, g) && WellFormed(t, g) && Agree(s, t) && WellFormed(s + t, g)
    requires a in s && b in t && Searching(s + t, g, a, b, k)
    ensures var u := s + t;
      var (x, y, r) := (Up(u, a, k), Up(u, b, k), SearchOutcome(u, g, a, b));
      if x in Visited(u, b, k) then r == Some(x)
      else if y in Visited(u, a, k) then r == Some(y)
      else if x !in s || y !in t then r == None
      else if IsGenesis(s[x]) && IsGenesis(t[y]) then r == Some(x)
      else if k == SEARCH_LIMIT then r == None
      else
        && Searching(u, g, a, b, k + 1)
        && Up(u, a, k + 1) == s[x].header.parentHash
        && Up(u, b, k + 1) == t[y].header.parentHash
    ensures |Visited(s + t, a, k + 1)| == |Visited(s + t, b, k + 1)| == k + 1
    ensures Visited(s + t, a, k + 1) == Visited(s + t, a, k) + {Up(s + t, a, k)}
    ensures Visited(s + t, b, k + 1) == Visited(s + t, b, k) + {Up(s + t, b, k)}
  {
    var u := s + t;
    JoinIsWellFormed(s, t, g);
    WalkStays(s, u, g, a, k);
    WalkStays(t, u, g, b, k);
    SearchRound(u, g, a, b, k);
    VisitedNext(u, a, k);
    VisitedNext(u, b, k);
  }

  /** The lockstep walk of `find_common_ancestor`, each side over its own map. */
  method FindCommonAncestor(chainA: Tree, chainB: Tree, headA: Hash, headB: Hash, ghost g: Hash)
    returns (r: Option<Hash>)
    requires WellFormed(chainA, g) && WellFormed(chainB, g) && Agree(chainA, chainB)
    ensures WellFormed(chainA + chainB, g)
    ensures r == if headA in chainA && headB in chainB then SearchOutcome(chainA + chainB, g, headA, headB) else None
  {
    JoinIsWellFormed(chainA, chainB, g);
    if headA !in chainA || headB !in chainB {
      return None;  // the first round of the loop ends so
    }
    r := Search(chainA, chainB, headA, headB, g);
  }

  method Search(chainA: Tree, chainB: Tree, headA: Hash, headB: Hash, ghost g: Hash) returns (r: Option<Hash>)
    requires WellFormed(chainA, g) && WellFormed(chainB, g) && Agree(chainA, chainB) && WellFormed(chainA + chainB, g)
    requires headA in chainA && headB in chainB
    ensures r == SearchOutcome(chainA + chainB, g, headA, headB)
  {
    ghost var t := chainA + chainB;
    var a, b := headA, headB;
    var visitedA: set<Hash>, visitedB: set<Hash> := {}, {};
    ghost var k: nat := 0;
    assert Searching(t, g, headA, headB, 0) by { LowestIsCommon(t, g, headA, headB); }
    while true
      invariant Searching(t, g, headA, headB, k)
      invariant a == Up(t, headA, k) && b == Up(t, headB, k)
      invariant visitedA == Visited(t, headA, k) && visitedB == Visited(t, headB, k)
      decreases SEARCH_LIMIT - k
    {
      JoinedRound(chainA, chainB, g, headA, headB, k);
      if a in visitedB {
        return Some(a);
      }
      if b in visitedA {
        return Some(b);
      }
      visitedA, visitedB := visitedA + {a}, visitedB + {b};
      if a !in chainA || b !in chainB {
        return None;
      }
      if IsGenesis(chainA[a]) && IsGenesis(chainB[b]) {
        return Some(a);
      }
      a, b := chainA[a].header.parentHash, chainB[b].header.parentHash;
      if |visitedA| > SEARCH_LIMIT || |visitedB| > SEARCH_LIMIT {
        return None;
      }
      k := k + 1;
    }
    assert false;
  }

  /** Round `k` of the search, over any two maps, is its last. */
  ghost predicate EndsAt(s: Tree, t: Tree, a: Hash, b: Hash, k: nat) {
    var x, y := Up(s, a, k), Up(t, b, k);
    || x in Visited(t, b, k) || y in Visited(s, a, k)
    || x !in s || y !in t
    || (IsGenesis(s[x]) && IsGenesis(t[y]))
    || |Visited(s, a, k + 1)| > SEARCH_LIMIT || |Visited(t, b, k + 1)| > SEARCH_LIMIT
  }

  /** Over maps that are not well formed it may have none: two blocks that are their own parents. */
  lemma CyclesNeverEnd(a: Hash, b: Hash, x: Block, y: Block, k: nat)
    requires a != b && x.header.parentHash == a && y.header.parentHash == b && !IsGenesis(x)
    ensures !EndsAt(map[a := x], map[b := y], a, b, k)
  {
    StaysPut(a, x, k);
    StaysPut(b, y, k);
  }

  lemma {:induction false} StaysPut(h: Hash, b: Block, k: nat)
    requires b.header.parentHash == h
    ensures Up(map[h := b], h, k) == h && Visited(map[h := b], h, k) <= {h}
    ensures |Visited(map[h := b], h, k + 1)| == 1
  {
    if k > 0 {
      StaysPut(h, b, k - 1);
      VisitedNext(map[h := b], h, k - 1);
    }
    VisitedNext(map[h := b], h, k);
    assert Visited(map[h := b], h, k + 1) == {h};
  }

  /** The search finds the lowest common ancestor in exactly these cases. */
  lemma FindsLowestIff(t: Tree, g: Hash, a: Hash, b: Hash)
    requires WellFormed(t, g) && a in t && b in t
    ensures SearchOutcome(t, g, a, b) == Some(Lowest(t, g, a, b)) <==>
            if Height(t, a) == Height(t, b)
            then Height(t, a) <= SEARCH_LIMIT && Lowest(t, g, a, b) == g
            else SearchDistance(t, g, a, b) <= Min(SEARCH_LIMIT, Min(Height(t, a), Height(t, b)) + 1)
  {
  }

  /** Whatever the search returns is an ancestor of both heads. */
  lemma OutcomeIsCommon(t: Tree, g: Hash, a: Hash, b: Hash)
    requires WellFormed(t, g) && SearchOutcome(t, g, a, b).Some?
    ensures var x := SearchOutcome(t, g, a, b).value;
            a in t && b in t && IsAncestor(t, x, a) && IsAncestor(t, x, b)
  {
    LowestIsCommon(t, g, a, b);
    UpInTree(t, g, a, Height(t, a));
    UpInTree(t, g, b, Height(t, b));
  }

  lemma AncestorsAreOrdered(t: Tree, x: Hash, y: Hash, h: Hash)
    requires h in t && IsAncestor(t, x, h) && IsAncestor(t, y, h) && Height(t, x) <= Height(t, y)
    ensures IsAncestor(t, x, y)
  {
    UpUp(t, h, Height(t, h) - Height(t, y), Height(t, y) - Height(t, x));
  }

  /** Every common ancestor is an ancestor of the lowest one. */
  lemma LowestIsLowest(t: Tree, g: Hash, a: Hash, b: Hash, x: Hash)
    requires WellFormed(t, g) && a in t && b in t
    requires IsAncestor(t, x, a) && IsAncestor(t, x, b)
    ensures IsAncestor(t, x, Lowest(t, g, a, b))
  {
    var l := Lowest(t, g, a, b);
    assert Height(t, x) <= Height(t, l) by {
      NoneHigher(t, g, a, b, Height(t, a) - Height(t, x), Height(t, b) - Height(t, x));
    }
    assert IsAncestor(t, l, a) by {
      LowestIsCommon(t, g, a, b);
    }
    AncestorsAreOrdered(t, x, l, a);
  }

  // ----- the reorganisation path

  /** The first `k` blocks met walking up from `h`. */
  ghost function Segment(t: Tree, g: Hash, h: Hash, k: nat): seq<Block>
    requires WellFormed(t, g) && h in t && k <= Height(t, h)
  {
    seq(k, i requires 0 <= i < k => UpInTree(t, g, h, i); t[Up(t, h, i)])
  }

  lemma SegmentNext(t: Tree, g: Hash, h: Hash, k: nat)
    requires WellFormed(t, g) && h in t && k < Height(t, h)
    ensures Up(t, h, k) in t
    ensures Segment(t, g, h, k + 1) == Segment(t, g, h, k) + [t[Up(t, h, k)]]
  {
    UpInTree(t, g, h, k);
  }

  lemma ReverseOfSnoc<T>(s: seq<T>, x: T)
    ensures Reverse(s + [x]) == [x] + Reverse(s)
  {
  }

  /** One step up splits the last block off a chain. */
  lemma ChainStep(t: Tree, g: Hash, h: Hash, k: nat)
    requires WellFormed(t, g) && h in t && k < Height(t, h)
    ensures Up(t, h, k) in t && Up(t, h, k + 1) in t
    ensures Chain(t, g, Up(t, h, k)) == Chain(t, g, Up(t, h, k + 1)) + [t[Up(t, h, k)]]
  {
    UpInTree(t, g, h, k);
    UpInTree(t, g, h, k + 1);
    GenesisIsBottom(t, g, Up(t, h, k));
  }

  lemma MoveAcross<T>(s: seq<T>, x: T, t: seq<T>)
    ensures s + [x] + t == s + ([x] + t)
  {
  }

  /** A chain is the chain of an ancestor followed by the reversed walk down to it. */
  lemma {:induction false} ChainSplits(t: Tree, g: Hash, h: Hash, k: nat)
    requires WellFormed(t, g) && h in t && k <= Height(t, h)
    ensures Up(t, h, k) in t
    ensures Chain(t, g, h) == Chain(t, g, Up(t, h, k)) + Reverse(Segment(t, g, h, k))
  {
    if k > 0 {
      ChainSplits(t, g, h, k - 1);
      ChainStep(t, g, h, k - 1);
      SegmentNext(t, g, h, k - 1);
      var below, walked := t[Up(t, h, k - 1)], Segment(t, g, h, k - 1);
      ReverseOfSnoc(walked, below);
      MoveAcross(Chain(t, g, Up(t, h, k)), below, Reverse(walked));
    }
  }

  /** What `calculate_reorg_path` returns, stated without its loops. */
  ghost function PathOutcome(t: Tree, g: Hash, oldHead: Hash, newHead: Hash, maxDepth: nat)
    : Result<ReorgPath, ReorgError>
    requires WellFormed(t, g)
  {
    match SearchOutcome(t, g, oldHead, newHead)
    case None => Failure(ForkDetected)
    case Some(x) =>
      OutcomeIsCommon(t, g, oldHead, newHead);
      var depth := Height(t, oldHead) - Height(t, x);
      if depth > maxDepth then Failure(ReorgTooDeep(maxDepth + 1))
      else Success(ReorgPath(
        x,
        Segment(t, g, oldHead, depth),
        Reverse(Segment(t, g, newHead, Height(t, newHead) - Height(t, x))),
        depth))
  }

  /** One more step of a walk that has not come down to the ancestor `x` yet. */
  lemma WalkStep(t: Tree, g: Hash, h: Hash, x: Hash, k: nat)
    requires WellFormed(t, g) && h in t && IsAncestor(t, x, h) && k <= Height(t, h) - Height(t, x)
    ensures Up(t, h, k) == x <==> k == Height(t, h) - Height(t, x)
    ensures Up(t, h, k) in t
    ensures Up(t, h, k) != x ==> Segment(t, g, h, k + 1) == Segment(t, g, h, k) + [t[Up(t, h, k)]]
  {
    UpInTree(t, g, h, k);
    if k < Height(t, h) {
      SegmentNext(t, g, h, k);
    }
  }

  /** The loop that collects the blocks to revert; none if there are more than `maxDepth`. */
  method CollectRevert(t: Tree, head: Hash, x: Hash, maxDepth: nat, ghost g: Hash)
    returns (r: Result<seq<Block>, ReorgError>)
    requires WellFormed(t, g) && head in t && IsAncestor(t, x, head)
    ensures var depth := Height(t, head) - Height(t, x);
      r == if depth > maxDepth then Failure(ReorgTooDeep(maxDepth + 1)) else Success(Segment(t, g, head, depth))
  {
    var revert: seq<Block>, current := [], head;
    while current != x
      invariant |revert| <= Height(t, head) - Height(t, x) && |revert| <= maxDepth
      invariant current == Up(t, head, |revert|)
      invariant revert == Segment(t, g, head, |revert|)
      decreases Height(t, head) - |revert|
    {
      WalkStep(t, g, head, x, |revert|);
      assert current in t;  // the source's BlockNotFound branch is dead
      revert := revert + [t[current]];
      current := t[current].header.parentHash;
      if |revert| > maxDepth {
        return Failure(ReorgTooDeep(|revert|));
      }
    }
    WalkStep(t, g, head, x, |revert|);
    return Success(revert);
  }

  /** The loop that collects the blocks to apply, last one first. */
  method CollectApply(t: Tree, head: Hash, x: Hash, ghost g: Hash) returns (apply: seq<Block>)
    requires WellFormed(t, g) && head in t && IsAncestor(t, x, head)
    ensures apply == Segment(t, g, head, Height(t, head) - Height(t, x))
  {
    apply := [];
    var current := head;
    while current != x
      invariant |apply| <= Height(t, head) - Height(t, x)
      invariant current == Up(t, head, |apply|)
      invariant apply == Segment(t, g, head, |apply|)
      decreases Height(t, head) - |apply|
    {
      WalkStep(t, g, head, x, |apply|);
      assert current in t;  // the source's BlockNotFound branch is dead
      apply := apply + [t[current]];
      current := t[current].header.parentHash;
    }
    WalkStep(t, g, head, x, |apply|);
  }

  /** The path between two heads; neither loop meets a missing block. */
  method CalculateReorgPath(t: Tree, oldHead: Hash, newHead: Hash, maxDepth: nat, ghost g: Hash)
    returns (r: Result<ReorgPath, ReorgError>)
    requires WellFormed(t, g)
    ensures r == PathOutcome(t, g, oldHead, newHead, maxDepth)
  {
    assert t + t == t;
    var common := FindCommonAncestor(t, t, oldHead, newHead, g);
    if common.None? {
      return Failure(ForkDetected);
    }
    var x := common.value;
    OutcomeIsCommon(t, g, oldHead, newHead);
    var revert := CollectRevert(t, oldHead, x, maxDepth, g);
    if revert.Failure? {
      return Failure(revert.error);
    }
    var apply := CollectApply(t, newHead, x, g);
    return Success(ReorgPath(x, revert.value, Reverse(apply), |revert.value|));
  }

  /** A path is found exactly for two stored heads that the search joins, within the depth allowed. */
  lemma PathFoundIff(t: Tree, g: Hash, oldHead: Hash, newHead: Hash, maxDepth: nat)
    requires WellFormed(t, g)
    ensures PathOutcome(t, g, oldHead, newHead, maxDepth).Success? <==>
      && oldHead in t && newHead in t
      && var a, b, l := Height(t, oldHead), Height(t, newHead), Height(t, Lowest(t, g, oldHead, newHead));
      if a == b then a <= 10000 && a <= maxDepth
      else Max(a, b) - l <= 10000 && Max(a, b) - l <= Min(a, b) + 1 && a - l <= maxDepth
    ensures PathOutcome(t, g, oldHead, newHead, maxDepth) == Failure(ForkDetected) <==>
      SearchOutcome(t, g, oldHead, newHead).None?
    ensures PathOutcome(t, g, oldHead, newHead, maxDepth).Failure? && SearchOutcome(t, g, oldHead, newHead).Some? ==>
      PathOutcome(t, g, oldHead, newHead, maxDepth) == Failure(ReorgTooDeep(maxDepth + 1))
  {
    if oldHead in t && newHead in t {
      GenesisIsBottom(t, g, g);
    }
  }

  /** A returned path splices the two chains at the common ancestor. */
  lemma PathSplices(t: Tree, g: Hash, oldHead: Hash, newHead: Hash, maxDepth: nat)
    requires WellFormed(t, g) && PathOutcome(t, g, oldHead, newHead, maxDepth).Success?
    ensures var p := PathOutcome(t, g, oldHead, newHead, maxDepth).value;
      && oldHead in t && newHead in t && p.commonAncestor in t
      && Chain(t, g, oldHead) == Chain(t, g, p.commonAncestor) + Reverse(p.revert)
      && Chain(t, g, newHead) == Chain(t, g, p.commonAncestor) + p.apply
      && p.depth == |p.revert| <= maxDepth
  {
    OutcomeIsCommon(t, g, oldHead, newHead);
    var x := SearchOutcome(t, g, oldHead, newHead).value;
    ChainSplits(t, g, oldHead, Height(t, oldHead) - Height(t, x));
    ChainSplits(t, g, newHead, Height(t, newHead) - Height(t, x));
  }
}
