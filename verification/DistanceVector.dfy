/** Distance-vector routing: tables that only improve, one neighbour's offer at a time. */
module DistanceVector {
  import opened Walks

  const INF := 9999

  /** Link costs: zero to oneself, positive to others, INF where there is no link. */
  ghost predicate IsNetwork(c: Matrix, n: nat) {
    && IsMatrix(c, n)
    && forall i, j :: 0 <= i < n && 0 <= j < n ==> if i == j then c[i][j] == 0 else 0 < c[i][j] <= INF
  }

  /** The routing tables of all routers: costs and next hops. */
  datatype Tables = Tables(cost: seq<seq<int>>, hop: seq<seq<int>>)

  ghost predicate Sized(t: Tables, n: nat) {
    && |t.cost| == |t.hop| == n
    && (forall i :: 0 <= i < n ==> |t.cost[i]| == n)
    && (forall i :: 0 <= i < n ==> |t.hop[i]| == n)
  }

  /** Router i considers neighbour k's cost to destination j. */
  datatype Offer = Offer(i: nat, j: nat, k: nat)

  ghost predicate IsOffer(o: Offer, n: nat) {
    o.i < n && o.j < n && o.k < n && o.i != o.j
  }

  ghost function Candidate(c: Matrix, n: nat, t: Tables, o: Offer): int
    requires IsNetwork(c, n) && Sized(t, n) && IsOffer(o, n)
  {
    c[o.i][o.k] + t.cost[o.k][o.j]
  }

  /** k is a neighbour whose route to j is better than the one in the table. */
  ghost predicate Improves(c: Matrix, n: nat, t: Tables, o: Offer)
    requires IsNetwork(c, n) && Sized(t, n) && IsOffer(o, n)
  {
    c[o.i][o.k] != INF && c[o.i][o.k] > 0 && Candidate(c, n, t, o) < t.cost[o.i][o.j]
  }

  ghost function Set(m: seq<seq<int>>, i: nat, j: nat, v: int): (r: seq<seq<int>>)
    requires i < |m| && j < |m[i]|
    ensures |r| == |m| && forall x :: 0 <= x < |m| ==> |r[x]| == |m[x]|
    ensures forall x, y :: 0 <= x < |m| && 0 <= y < |m[x]| ==> r[x][y] == if x == i && y == j then v else m[x][y]
  {
    m[i := m[i][j := v]]
  }

  /** One table update. */
  ghost function Update(c: Matrix, n: nat, t: Tables, o: Offer): (u: Tables)
    requires IsNetwork(c, n) && Sized(t, n) && IsOffer(o, n)
    ensures Sized(u, n)
  {
    if Improves(c, n, t, o) then
      Tables(Set(t.cost, o.i, o.j, Candidate(c, n, t, o)), Set(t.hop, o.i, o.j, o.k))
    else t
  }

  ghost predicate AreOffers(s: seq<Offer>, n: nat) {
    forall x :: 0 <= x < |s| ==> IsOffer(s[x], n)
  }

  /** The tables after any schedule of updates. */
  ghost function Run(c: Matrix, n: nat, t: Tables, s: seq<Offer>): (u: Tables)
    requires IsNetwork(c, n) && Sized(t, n) && AreOffers(s, n)
    ensures Sized(u, n)
  {
    if s == [] then t else Update(c, n, Run(c, n, t, s[..|s| - 1]), s[|s| - 1])
  }

  /** The tables before the first exchange: direct links only. */
  ghost predicate IsInitial(c: Matrix, n: nat, t: Tables)
    requires IsNetwork(c, n)
  {
    && Sized(t, n) && t.cost == c
    && forall i, j :: 0 <= i < n && 0 <= j < n ==> t.hop[i][j] == if c[i][j] != INF && i != j then j else -1
  }

  // ----- Invariants of every schedule -----

  /** Costs are capped; every finite entry is backed by its next hop's entry. */
  ghost predicate IsConsistent(c: Matrix, n: nat, t: Tables)
    requires IsNetwork(c, n) && Sized(t, n)
  {
    && (forall i, j :: 0 <= i < n && 0 <= j < n ==> 0 <= t.cost[i][j] <= INF)
    && (forall i :: 0 <= i < n ==> t.cost[i][i] == 0)
    && (forall i, j :: 0 <= i < n && 0 <= j < n && i != j ==>
         if t.cost[i][j] < INF then IsBacked(c, n, t, i, j) else t.hop[i][j] == -1)
  }

  /** The entry is no less than the link to its next hop plus the next hop's own cost. */
  ghost predicate IsBacked(c: Matrix, n: nat, t: Tables, i: nat, j: nat)
    requires IsNetwork(c, n) && Sized(t, n) && i < n && j < n
  {
    var h := t.hop[i][j];
    0 <= h < n && h != i && c[i][h] != INF && t.cost[i][j] >= c[i][h] + t.cost[h][j]
  }

  lemma InitialIsConsistent(c: Matrix, n: nat, t: Tables)
    requires IsNetwork(c, n) && IsInitial(c, n, t)
    ensures IsConsistent(c, n, t)
  {}

  lemma UpdateIsConsistent(c: Matrix, n: nat, t: Tables, o: Offer)
    requires IsNetwork(c, n) && Sized(t, n) && IsOffer(o, n) && IsConsistent(c, n, t)
    ensures IsConsistent(c, n, Update(c, n, t, o))
  {
    var u := Update(c, n, t, o);
    forall i, j | 0 <= i < n && 0 <= j < n && i != j
      ensures if u.cost[i][j] < INF then IsBacked(c, n, u, i, j) else u.hop[i][j] == -1
    {
      if t.cost[i][j] < INF {
        assert IsBacked(c, n, t, i, j);
      }
    }
  }

  /** Consistency holds after any schedule of single updates. */
  lemma {:induction false} RunIsConsistent(c: Matrix, n: nat, t: Tables, s: seq<Offer>)
    requires IsNetwork(c, n) && Sized(t, n) && AreOffers(s, n) && IsConsistent(c, n, t)
    ensures IsConsistent(c, n, Run(c, n, t, s))
  {
    if s != [] {
      RunIsConsistent(c, n, t, s[..|s| - 1]);
      UpdateIsConsistent(c, n, Run(c, n, t, s[..|s| - 1]), s[|s| - 1]);
    }
  }

  /** The route a packet takes by following next hops. */
  ghost function Route(c: Matrix, n: nat, t: Tables, i: nat, j: nat): (w: seq<nat>)
    requires IsNetwork(c, n) && Sized(t, n) && IsConsistent(c, n, t) && i < n && j < n && t.cost[i][j] < INF
    ensures w != []
    decreases t.cost[i][j]
  {
    if i == j then [j] else
      assert IsBacked(c, n, t, i, j);
      [i] + Route(c, n, t, t.hop[i][j], j)
  }

  /** Forwarding reaches the destination at no more than the advertised cost. */
  lemma {:induction false} RouteArrives(c: Matrix, n: nat, t: Tables, i: nat, j: nat)
    requires IsNetwork(c, n) && Sized(t, n) && IsConsistent(c, n, t) && i < n && j < n && t.cost[i][j] < INF
    ensures Connects(c, n, INF, Route(c, n, t, i, j), i, j)
    ensures Length(c, n, Route(c, n, t, i, j)) <= t.cost[i][j]
    decreases t.cost[i][j]
  {
    if i != j {
      assert IsBacked(c, n, t, i, j);
      var h := t.hop[i][j];
      RouteArrives(c, n, t, h, j);
      Prepend(c, n, INF, i, Route(c, n, t, h, j), h, j);
    }
  }

  /** Forwarding never visits a router twice: the advertised cost drops at every hop. */
  lemma {:induction false} RouteHasNoLoop(c: Matrix, n: nat, t: Tables, i: nat, j: nat)
    requires IsNetwork(c, n) && Sized(t, n) && IsConsistent(c, n, t) && i < n && j < n && t.cost[i][j] < INF
    ensures var w := Route(c, n, t, i, j);
      && (forall x :: 0 <= x < |w| ==> w[x] < n && t.cost[w[x]][j] <= t.cost[i][j])
      && NoRepeats(w)
    decreases t.cost[i][j]
  {
    if i != j {
      assert IsBacked(c, n, t, i, j);
      var h := t.hop[i][j];
      RouteHasNoLoop(c, n, t, h, j);
      var rest := Route(c, n, t, h, j);
      assert forall x :: 0 <= x < |rest| ==> t.cost[rest[x]][j] < t.cost[i][j];
    }
  }

  // ----- Convergence -----

  /** Schedules only lower costs. */
  lemma {:induction false} RunLowers(c: Matrix, n: nat, t: Tables, s: seq<Offer>, i: nat, j: nat)
    requires IsNetwork(c, n) && Sized(t, n) && AreOffers(s, n) && i < n && j < n
    ensures Run(c, n, t, s).cost[i][j] <= t.cost[i][j]
  {
    if s != [] {
      RunLowers(c, n, t, s[..|s| - 1], i, j);
    }
  }

  /** After a schedule that offers k's route, i's entry is at most what k had to offer at the start. */
  lemma {:induction false} OfferTaken(c: Matrix, n: nat, t: Tables, s: seq<Offer>, o: Offer)
    requires IsNetwork(c, n) && Sized(t, n) && AreOffers(s, n) && o in s
    requires c[o.i][o.k] != INF && o.i != o.k
    ensures IsOffer(o, n) && Run(c, n, t, s).cost[o.i][o.j] <= Candidate(c, n, t, o)
  {
    var front, last := s[..|s| - 1], s[|s| - 1];
    assert s == front + [last];
    if last == o {
      RunLowers(c, n, t, front, o.k, o.j);
    } else {
      OfferTaken(c, n, t, front, o);
    }
  }

  /** A round makes every offer once. */
  ghost predicate Covers(s: seq<Offer>, n: nat) {
    forall i: nat, j: nat, k: nat :: i < n && j < n && k < n && i != j ==> Offer(i, j, k) in s
  }

  /** No entry exceeds a walk of at most h links. */
  ghost predicate BestWithin(c: Matrix, n: nat, t: Tables, h: nat)
    requires IsNetwork(c, n) && Sized(t, n)
  {
    forall w, i: nat, j: nat :: i < n && j < n && Connects(c, n, INF, w, i, j) && |w| <= h + 1 ==>
      t.cost[i][j] <= Length(c, n, w)
  }

  lemma InitialBest(c: Matrix, n: nat, t: Tables)
    requires IsNetwork(c, n) && IsInitial(c, n, t)
    ensures BestWithin(c, n, t, 1)
  {
    forall w, i: nat, j: nat | i < n && j < n && Connects(c, n, INF, w, i, j) && |w| <= 2
      ensures t.cost[i][j] <= Length(c, n, w)
    {
      if |w| == 2 {
        assert Length(c, n, w[1..]) == 0;
      }
    }
  }

  /** Each round extends the reach by one link. */
  lemma RoundReachesFurther(c: Matrix, n: nat, t: Tables, s: seq<Offer>, h: nat)
    requires IsNetwork(c, n) && Sized(t, n) && AreOffers(s, n) && Covers(s, n)
    requires IsConsistent(c, n, t) && BestWithin(c, n, t, h)
    ensures BestWithin(c, n, Run(c, n, t, s), h + 1)
  {
    var u := Run(c, n, t, s);
    forall w, i: nat, j: nat | i < n && j < n && Connects(c, n, INF, w, i, j) && |w| <= h + 2
      ensures u.cost[i][j] <= Length(c, n, w)
    {
      RunLowers(c, n, t, s, i, j);
      if i != j {
        var k, rest := w[1], w[1..];
        assert Connects(c, n, INF, rest, k, j);
        assert t.cost[k][j] <= Length(c, n, rest);
        if k != i {
          OfferTaken(c, n, t, s, Offer(i, j, k));
        }
      }
    }
  }

  /** Entries that beat all walks of n - 1 links beat all walks. */
  lemma BestOfAll(c: Matrix, n: nat, t: Tables, h: nat, w: seq<nat>, i: nat, j: nat)
    requires IsNetwork(c, n) && Sized(t, n) && BestWithin(c, n, t, h) && h + 1 >= n
    requires i < n && j < n && Connects(c, n, INF, w, i, j)
    ensures t.cost[i][j] <= Length(c, n, w)
  {
    var v := Shorten(c, n, INF, w, i, j);
  }

  /** Once no walk is better, no offer improves anything. */
  lemma NothingImproves(c: Matrix, n: nat, t: Tables, h: nat, o: Offer)
    requires IsNetwork(c, n) && Sized(t, n) && IsConsistent(c, n, t) && BestWithin(c, n, t, h) && h + 1 >= n
    requires IsOffer(o, n)
    ensures !Improves(c, n, t, o)
  {
    if c[o.i][o.k] != INF && t.cost[o.k][o.j] < INF {
      var rest := Route(c, n, t, o.k, o.j);
      RouteArrives(c, n, t, o.k, o.j);
      Prepend(c, n, INF, o.i, rest, o.k, o.j);
      BestOfAll(c, n, t, h, [o.i] + rest, o.i, o.j);
    }
  }

  /** No offer improves the tables. */
  ghost predicate IsStable(c: Matrix, n: nat, t: Tables)
    requires IsNetwork(c, n) && Sized(t, n)
  {
    forall o :: IsOffer(o, n) ==> !Improves(c, n, t, o)
  }

  lemma {:induction false} StableBeatsWalks(c: Matrix, n: nat, t: Tables, w: seq<nat>, i: nat, j: nat)
    requires IsNetwork(c, n) && Sized(t, n) && IsConsistent(c, n, t) && IsStable(c, n, t)
    requires i < n && j < n && Connects(c, n, INF, w, i, j)
    ensures t.cost[i][j] <= Length(c, n, w)
    decreases |w|
  {
    if i != j {
      var k, rest := w[1], w[1..];
      assert Connects(c, n, INF, rest, k, j);
      StableBeatsWalks(c, n, t, rest, k, j);
      assert !Improves(c, n, t, Offer(i, j, k));
    }
  }

  /** Stable tables hold the distances, and each entry is exactly link plus next hop's cost. */
  lemma StableIsShortest(c: Matrix, n: nat, t: Tables, i: nat, j: nat)
    requires IsNetwork(c, n) && Sized(t, n) && IsConsistent(c, n, t) && IsStable(c, n, t) && i < n && j < n
    ensures IsDistance(c, n, INF, i, j, t.cost[i][j])
    ensures i != j && t.cost[i][j] < INF ==>
      IsBacked(c, n, t, i, j) && t.cost[i][j] == c[i][t.hop[i][j]] + t.cost[t.hop[i][j]][j]
  {
    forall w | Connects(c, n, INF, w, i, j)
      ensures t.cost[i][j] <= Length(c, n, w)
    {
      StableBeatsWalks(c, n, t, w, i, j);
    }
    if t.cost[i][j] < INF {
      RouteArrives(c, n, t, i, j);
      if i != j {
        assert IsBacked(c, n, t, i, j);
        assert !Improves(c, n, t, Offer(i, j, t.hop[i][j]));
      }
    }
  }

  // ----- The exchange loop -----

  ghost function View(a: array2<int>): (m: seq<seq<int>>)
    reads a
    ensures |m| == a.Length0
    ensures forall i :: 0 <= i < a.Length0 ==> |m[i]| == a.Length1
    ensures forall i, j :: 0 <= i < a.Length0 && 0 <= j < a.Length1 ==> m[i][j] == a[i, j]
  {
    seq(a.Length0, i requires 0 <= i < a.Length0 reads a =>
      seq(a.Length1, j requires 0 <= j < a.Length1 reads a => a[i, j]))
  }

  ghost function TablesOf(cost: array2<int>, hop: array2<int>): Tables
    reads cost, hop
  {
    Tables(View(cost), View(hop))
  }

  ghost predicate Holds(cost: array2<int>, hop: array2<int>, n: nat) {
    cost != hop && cost.Length0 == cost.Length1 == hop.Length0 == hop.Length1 == n
  }

  lemma SameMatrix(a: seq<seq<int>>, b: seq<seq<int>>)
    requires |a| == |b| && forall i :: 0 <= i < |a| ==> |a[i]| == |b[i]|
    requires forall i, j :: 0 <= i < |a| && 0 <= j < |a[i]| ==> a[i][j] == b[i][j]
    ensures a == b
  {
    forall i | 0 <= i < |a|
      ensures a[i] == b[i]
    {}
  }

  /** Writes one entry of both tables. */
  method WriteEntry(n: nat, i: nat, j: nat, newCost: int, newHop: int, cost: array2<int>, hop: array2<int>)
    requires Holds(cost, hop, n) && i < n && j < n
    modifies cost, hop
    ensures TablesOf(cost, hop) == Tables(Set(old(View(cost)), i, j, newCost), Set(old(View(hop)), i, j, newHop))
  {
    cost[i, j] := newCost;
    hop[i, j] := newHop;
    SameMatrix(View(cost), Set(old(View(cost)), i, j, newCost));
    SameMatrix(View(hop), Set(old(View(hop)), i, j, newHop));
  }

  /** One neighbour's offer, in place; tells whether the entry changed. */
  method ConsiderOffer(c: Matrix, n: nat, i: nat, j: nat, k: nat, cost: array2<int>, hop: array2<int>)
    returns (changed: bool)
    requires IsNetwork(c, n) && Holds(cost, hop, n) && IsOffer(Offer(i, j, k), n)
    modifies cost, hop
    ensures TablesOf(cost, hop) == Update(c, n, old(TablesOf(cost, hop)), Offer(i, j, k))
    ensures changed == Improves(c, n, old(TablesOf(cost, hop)), Offer(i, j, k))
  {
    changed := false;
    if c[i][k] != INF && c[i][k] > 0 {
      var candidate := c[i][k] + cost[k, j];
      if candidate < cost[i, j] {
        WriteEntry(n, i, j, candidate, k, cost, hop);
        changed := true;
      }
    }
  }

  /** What a part of a round has done: run a schedule, and noticed whether any of its offers improved. */
  ghost predicate Progress(c: Matrix, n: nat, t: Tables, done: seq<Offer>, u: Tables, updated: bool)
    requires IsNetwork(c, n) && Sized(t, n)
  {
    && AreOffers(done, n)
    && u == Run(c, n, t, done)
    && (updated ==> !IsStable(c, n, t))
    && (!updated ==> u == t && forall o :: o in done ==> !Improves(c, n, t, o))
  }

  lemma ProgressStep(c: Matrix, n: nat, t: Tables, done: seq<Offer>, u: Tables, updated: bool, o: Offer)
    requires IsNetwork(c, n) && Sized(t, n) && Sized(u, n) && IsOffer(o, n) && Progress(c, n, t, done, u, updated)
    ensures Progress(c, n, t, done + [o], Update(c, n, u, o), updated || Improves(c, n, u, o))
  {
    assert (done + [o])[..|done|] == done;
    if !updated && Improves(c, n, u, o) {
      assert !IsStable(c, n, t);
    }
  }

  /** Every offer to entry (i, j) from a neighbour below m has been made. */
  ghost predicate Offered(done: seq<Offer>, i: nat, j: nat, m: nat) {
    forall k: nat :: k < m ==> Offer(i, j, k) in done
  }

  /** The order of the loops: by i, then j, then k. */
  ghost predicate Before(o: Offer, p: Offer) {
    o.i < p.i || (o.i == p.i && (o.j < p.j || (o.j == p.j && o.k < p.k)))
  }

  ghost predicate InOrder(s: seq<Offer>) {
    forall x, y :: 0 <= x < y < |s| ==> Before(s[x], s[y])
  }

  /** All of s comes before o. */
  ghost predicate UpTo(s: seq<Offer>, o: Offer) {
    InOrder(s) && forall x :: 0 <= x < |s| ==> Before(s[x], o)
  }

  /** One round: every offer once, in the order of the loops. */
  ghost predicate IsRound(s: seq<Offer>, n: nat) {
    AreOffers(s, n) && Covers(s, n) && InOrder(s)
  }

  lemma UpToNext(s: seq<Offer>, o: Offer)
    requires UpTo(s, o)
    ensures UpTo(s + [o], Offer(o.i, o.j, o.k + 1))
  {}

  lemma UpToLater(s: seq<Offer>, o: Offer, p: Offer)
    requires UpTo(s, o) && (Before(o, p) || o == p)
    ensures UpTo(s, p)
  {}

  method ImproveEntry(c: Matrix, n: nat, i: nat, j: nat, cost: array2<int>, hop: array2<int>, updated0: bool,
                      ghost t: Tables, ghost done0: seq<Offer>)
    returns (updated: bool, ghost done: seq<Offer>)
    requires IsNetwork(c, n) && Holds(cost, hop, n) && i < n && j < n && i != j && Sized(t, n)
    requires Progress(c, n, t, done0, TablesOf(cost, hop), updated0) && UpTo(done0, Offer(i, j, 0))
    modifies cost, hop
    ensures Progress(c, n, t, done, TablesOf(cost, hop), updated) && UpTo(done, Offer(i, j + 1, 0))
    ensures done0 <= done && Offered(done, i, j, n)
  {
    updated, done := updated0, done0;
    ghost var next := Offer(i, j, 0);
    for k := 0 to n
      invariant Progress(c, n, t, done, TablesOf(cost, hop), updated) && next == Offer(i, j, k) && UpTo(done, next)
      invariant done0 <= done && Offered(done, i, j, k)
    {
      ghost var u := TablesOf(cost, hop);
      var changed := ConsiderOffer(c, n, i, j, k, cost, hop);
      ProgressStep(c, n, t, done, u, updated, Offer(i, j, k));
      UpToNext(done, next);
      done := done + [Offer(i, j, k)];
      next := Offer(i, j, k + 1);
      updated := updated || changed;
    }
    UpToLater(done, next, Offer(i, j + 1, 0));
  }

  /** One exchange round over all routers and destinations. */
  method ExchangeRound(c: Matrix, n: nat, cost: array2<int>, hop: array2<int>)
    returns (updated: bool, ghost done: seq<Offer>)
    requires IsNetwork(c, n) && Holds(cost, hop, n)
    modifies cost, hop
    ensures IsRound(done, n)
    ensures TablesOf(cost, hop) == Run(c, n, old(TablesOf(cost, hop)), done)
    ensures updated <==> !IsStable(c, n, old(TablesOf(cost, hop)))
    ensures !updated ==> TablesOf(cost, hop) == old(TablesOf(cost, hop))
  {
    ghost var t := TablesOf(cost, hop);
    updated, done := false, [];
    for i := 0 to n
      invariant Progress(c, n, t, done, TablesOf(cost, hop), updated) && UpTo(done, Offer(i, 0, 0))
      invariant forall x: nat, y: nat :: x < i && y < n && x != y ==> Offered(done, x, y, n)
    {
      for j := 0 to n
        invariant Progress(c, n, t, done, TablesOf(cost, hop), updated) && UpTo(done, Offer(i, j, 0))
        invariant forall x: nat, y: nat :: ((x < i && y < n) || (x == i && y < j)) && x != y ==> Offered(done, x, y, n)
      {
        if i != j {
          ghost var before := done;
          updated, done := ImproveEntry(c, n, i, j, cost, hop, updated, t, done);
          StillOffered(before, done);
        } else {
          UpToLater(done, Offer(i, j, 0), Offer(i, j + 1, 0));
        }
      }
      UpToLater(done, Offer(i, n, 0), Offer(i + 1, 0, 0));
    }
    forall x: nat, y: nat, k: nat | x < n && y < n && k < n && x != y
      ensures Offer(x, y, k) in done
    {
      assert Offered(done, x, y, n);
    }
    if !updated {
      forall o | IsOffer(o, n)
        ensures !Improves(c, n, t, o)
      {
        assert o == Offer(o.i, o.j, o.k);
      }
    }
  }

  lemma StillOffered(before: seq<Offer>, done: seq<Offer>)
    requires before <= done
    ensures forall i: nat, j: nat, m: nat :: Offered(before, i, j, m) ==> Offered(done, i, j, m)
  {
    forall o | o in before
      ensures o in done
    {
      var x :| 0 <= x < |before| && before[x] == o;
      assert done[x] == o;
    }
  }

  method Initialise(c: Matrix, n: nat) returns (cost: array2<int>, hop: array2<int>)
    requires IsNetwork(c, n)
    ensures fresh(cost) && fresh(hop) && Holds(cost, hop, n)
    ensures IsInitial(c, n, TablesOf(cost, hop))
  {
    cost := new int[n, n]((i, j) requires 0 <= i < n && 0 <= j < n => c[i][j]);
    hop := new int[n, n]((i, j) requires 0 <= i < n && 0 <= j < n => if c[i][j] != INF && i != j then j else -1);
    SameMatrix(View(cost), c);
  }

  function MaxRounds(n: nat): nat {
    if n < 2 then 1 else n - 1
  }

  /** The tables are final: all distances, each backed exactly by its next hop. */
  ghost predicate IsConverged(c: Matrix, n: nat, t: Tables)
    requires IsNetwork(c, n)
  {
    && Sized(t, n) && IsConsistent(c, n, t)
    && (forall i: nat, j: nat :: i < n && j < n ==> IsDistance(c, n, INF, i, j, t.cost[i][j]))
    && (forall i: nat, j: nat :: i < n && j < n && i != j && t.cost[i][j] < INF ==>
         IsBacked(c, n, t, i, j) && t.cost[i][j] == c[i][t.hop[i][j]] + t.cost[t.hop[i][j]][j])
  }

  /** The tables after round r come out of those before it. */
  ghost predicate RoundLeads(c: Matrix, n: nat, history: seq<Tables>, r: nat)
    requires IsNetwork(c, n) && r + 1 < |history|
  {
    Sized(history[r], n) && exists s :: IsRound(s, n) && history[r + 1] == Run(c, n, history[r], s)
  }

  /** The tables before the first round and after each one. */
  ghost predicate IsHistory(c: Matrix, n: nat, history: seq<Tables>)
    requires IsNetwork(c, n)
  {
    && history != [] && IsInitial(c, n, history[0])
    && (forall r :: 0 <= r < |history| ==> Sized(history[r], n))
    && forall r: nat :: r + 1 < |history| ==> RoundLeads(c, n, history, r)
  }

  /** What the loop keeps: after |history| - 1 rounds, with updated telling whether the last one changed anything. */
  ghost predicate Exchanged(c: Matrix, n: nat, history: seq<Tables>, updated: bool)
    requires IsNetwork(c, n)
  {
    && IsHistory(c, n, history)
    && var rounds, t := |history| - 1, history[|history| - 1];
    && IsConsistent(c, n, t) && BestWithin(c, n, t, rounds + 1) && rounds <= MaxRounds(n)
    && if updated then (rounds > 0 ==> rounds + 1 < n) && ChangedBefore(c, n, history, rounds)
       else rounds > 0 && history[rounds - 1] == t && IsStable(c, n, t) && ChangedBefore(c, n, history, rounds - 1)
  }

  /** The first m rounds changed something. */
  ghost predicate ChangedBefore(c: Matrix, n: nat, history: seq<Tables>, m: nat)
    requires IsNetwork(c, n)
  {
    m <= |history| && forall r :: 0 <= r < m ==> Sized(history[r], n) && !IsStable(c, n, history[r])
  }

  lemma FirstTables(c: Matrix, n: nat, t: Tables)
    requires IsNetwork(c, n) && IsInitial(c, n, t)
    ensures Exchanged(c, n, [t], true)
  {
    InitialIsConsistent(c, n, t);
    InitialBest(c, n, t);
  }

  lemma LongerHistory(c: Matrix, n: nat, history: seq<Tables>, done: seq<Offer>, u: Tables)
    requires IsNetwork(c, n) && IsHistory(c, n, history) && IsRound(done, n)
    requires u == Run(c, n, history[|history| - 1], done)
    ensures IsHistory(c, n, history + [u])
  {
    var more := history + [u];
    forall r: nat | r + 1 < |more|
      ensures RoundLeads(c, n, more, r)
    {
      assert r + 1 < |history| ==> RoundLeads(c, n, history, r);
    }
  }

  lemma OneMoreChange(c: Matrix, n: nat, history: seq<Tables>, u: Tables)
    requires IsNetwork(c, n) && history != [] && ChangedBefore(c, n, history, |history| - 1)
    ensures ChangedBefore(c, n, history + [u], |history| - 1)
    ensures Sized(history[|history| - 1], n) && !IsStable(c, n, history[|history| - 1]) ==>
      ChangedBefore(c, n, history + [u], |history|)
  {}

  lemma RoundKeepsBounds(c: Matrix, n: nat, t: Tables, done: seq<Offer>, u: Tables, h: nat)
    requires IsNetwork(c, n) && Sized(t, n) && IsConsistent(c, n, t) && BestWithin(c, n, t, h) && IsRound(done, n)
    requires u == Run(c, n, t, done)
    ensures IsConsistent(c, n, u) && BestWithin(c, n, u, h + 1)
    ensures h + 1 >= n ==> IsStable(c, n, t)
  {
    RunIsConsistent(c, n, t, done);
    RoundReachesFurther(c, n, t, done, h);
    StableInTime(c, n, t, h);
  }

  lemma NextRound(c: Matrix, n: nat, history: seq<Tables>, done: seq<Offer>, u: Tables)
    requires IsNetwork(c, n) && Exchanged(c, n, history, true) && IsRound(done, n)
    requires var t := history[|history| - 1]; u == Run(c, n, t, done) && (IsStable(c, n, t) ==> u == t)
    ensures Exchanged(c, n, history + [u], !IsStable(c, n, history[|history| - 1])) && |history| <= MaxRounds(n)
  {
    var rounds, t := |history| - 1, history[|history| - 1];
    RoundKeepsBounds(c, n, t, done, u, rounds + 1);
    LongerHistory(c, n, history, done, u);
    OneMoreChange(c, n, history, u);
  }

  /** The simulation: rounds until one changes nothing, which is counted as well. */
  method Simulate(c: Matrix, n: nat)
    returns (cost: array2<int>, hop: array2<int>, iteration: nat, ghost history: seq<Tables>)
    requires IsNetwork(c, n)
    ensures IsConverged(c, n, TablesOf(cost, hop))
    ensures 1 <= iteration <= MaxRounds(n)
    ensures IsHistory(c, n, history) && |history| == iteration + 1 && history[iteration] == TablesOf(cost, hop)
    ensures history[iteration - 1] == TablesOf(cost, hop) && IsStable(c, n, history[iteration - 1])
    ensures forall r :: 0 <= r < iteration - 1 ==> !IsStable(c, n, history[r])
  {
    cost, hop := Initialise(c, n);
    FirstTables(c, n, TablesOf(cost, hop));
    var updated := true;
    iteration := 0;
    history := [TablesOf(cost, hop)];
    while updated
      invariant Holds(cost, hop, n) && fresh(cost) && fresh(hop)
      invariant |history| == iteration + 1 && history[iteration] == TablesOf(cost, hop)
      invariant Exchanged(c, n, history, updated)
      decreases updated, MaxRounds(n) - iteration
    {
      ghost var done;
      updated, done := ExchangeRound(c, n, cost, hop);
      NextRound(c, n, history, done, TablesOf(cost, hop));
      iteration := iteration + 1;
      history := history + [TablesOf(cost, hop)];
    }
    Converged(c, n, TablesOf(cost, hop));
  }

  lemma StableInTime(c: Matrix, n: nat, t: Tables, h: nat)
    requires IsNetwork(c, n) && Sized(t, n) && IsConsistent(c, n, t) && BestWithin(c, n, t, h)
    ensures h + 1 >= n ==> IsStable(c, n, t)
  {
    if h + 1 >= n {
      forall o | IsOffer(o, n)
        ensures !Improves(c, n, t, o)
      {
        NothingImproves(c, n, t, h, o);
      }
    }
  }

  lemma Converged(c: Matrix, n: nat, t: Tables)
    requires IsNetwork(c, n) && Sized(t, n) && IsConsistent(c, n, t) && IsStable(c, n, t)
    ensures IsConverged(c, n, t)
  {
    forall i: nat, j: nat | i < n && j < n
      ensures IsDistance(c, n, INF, i, j, t.cost[i][j])
      ensures i != j && t.cost[i][j] < INF ==>
        IsBacked(c, n, t, i, j) && t.cost[i][j] == c[i][t.hop[i][j]] + t.cost[t.hop[i][j]][j]
    {
      StableIsShortest(c, n, t, i, j);
    }
  }
}
