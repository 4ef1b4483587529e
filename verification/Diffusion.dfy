// The spreading of short-term importance: opencog/attention/ImportanceDiffusionBase.cc:84-213, 326-528 and
// AFImportanceDiffusionAgent.cc:65-87.
module Diffusion {
  import opened Basics
  import opened Sums

  type Vector = map<Handle, real>

  /** Every entry is a proportion, and all of them together are at most the whole. */
  ghost predicate IsVector(v: Vector) {
    (forall h <- v :: v[h] >= 0.0) && Total(v) <= 1.0
  }

  /** insert of a map: an entry that is there already stays. */
  function Insert(v: Vector, h: Handle, x: real): Vector {
    if h in v then v else v[h := x]
  }

  /** Links by their conductance, strength times confidence. */
  predicate IsProbability(x: real) {
    0.0 <= x <= 1.0
  }

  /** i shares of x. */
  ghost function Shares(i: nat, x: real): real {
    i as real * x
  }

  lemma OneShareMore(i: nat, x: real)
    ensures Shares(0, x) == 0.0 && Shares(i + 1, x) == Shares(i, x) + x
  {
  }

  lemma AllShares(n: nat)
    requires n > 0
    ensures 1.0 / n as real > 0.0 && Shares(n, 1.0 / n as real) == 1.0
  {
  }

  /** An entry that is not above a share. */
  lemma OneEntryMore(v: Vector, h: Handle, x: real, i: nat, share: real)
    requires Total(v) <= Shares(i, share) && 0.0 <= x <= share
    ensures Total(Insert(v, h, x)) <= Shares(i + 1, share)
  {
    hide Shares;
    OneShareMore(i, share);
    PutIn(v, h, x);
  }

  ghost function IncidentVector(handles: seq<Handle>): Vector {
    map h | h in handles :: 1.0 / |handles| as real
  }

  ghost function HebbianVector(targets: seq<Handle>, percentage: Handle -> real): Vector {
    map h | h in targets :: Part(1.0 / |targets| as real, percentage(h))
  }

  /** Equal shares; an atom that is listed twice has one share all the same. */
  method ProbabilityVectorIncident(handles: seq<Handle>) returns (result: Vector)
    ensures IsVector(result) && result == IncidentVector(handles)
  {
    hide Shares;
    result := map[];
    if handles == [] {
      return;
    }
    var n := |handles|;
    AllShares(n);
    var diffusionAmount := 1.0 / n as real;
    OneShareMore(0, diffusionAmount);
    for i := 0 to n
      invariant forall h :: h in result <==> h in handles[..i]
      invariant forall h <- result :: result[h] == diffusionAmount
      invariant Total(result) <= Shares(i, diffusionAmount)
    {
      OneEntryMore(result, handles[i], diffusionAmount, i, diffusionAmount);
      result := Insert(result, handles[i], diffusionAmount);
    }
  }

  function Part(x: real, p: real): real {
    x * p
  }

  lemma PartIsSmaller(x: real, p: real)
    requires x >= 0.0 && IsProbability(p)
    ensures 0.0 <= Part(x, p) <= x
  {
  }

  /** Equal shares again, each cut down by the strength and confidence of its link. */
  method ProbabilityVectorHebbianAdjacent(targets: seq<Handle>, percentage: Handle -> real) returns (result: Vector)
    requires forall t <- targets :: IsProbability(percentage(t))
    ensures IsVector(result) && result == HebbianVector(targets, percentage)
  {
    hide Shares;
    hide Part;
    result := map[];
    if targets == [] {
      return;
    }
    var atomCount := |targets|;
    AllShares(atomCount);
    var maxAllocation := 1.0 / atomCount as real;
    OneShareMore(0, maxAllocation);
    for i := 0 to atomCount
      invariant forall h :: h in result <==> h in targets[..i]
      invariant forall h <- result :: result[h] == Part(maxAllocation, percentage(h)) && result[h] >= 0.0
      invariant Total(result) <= Shares(i, maxAllocation)
    {
      var diffusionAmount := Part(maxAllocation, percentage(targets[i]));
      PartIsSmaller(maxAllocation, percentage(targets[i]));
      OneEntryMore(result, targets[i], diffusionAmount, i, maxAllocation);
      result := Insert(result, targets[i], diffusionAmount);
    }
  }

  ghost function Scaled(v: Vector, c: real): Vector {
    map h | h in v :: Part(c, v[h])
  }

  /** The most a hebbian neighbour can get. */
  function LinkAllocation(hebbianMaxAllocationPercentage: real, n: nat): real {
    if n == 0 then 0.0 else hebbianMaxAllocationPercentage * 1.0 / n as real
  }

  lemma LinkAllocationIsProbability(p: real, n: nat)
    requires IsProbability(p)
    ensures IsProbability(LinkAllocation(p, n))
  {
  }

  /** One entry more of a scaled vector, among entries that are there already. */
  lemma ScaledOneMore(v: Vector, done: Vector, result: Vector, base: real, h: Handle, c: real)
    requires h in v && h !in done && v[h] >= 0.0 && c >= 0.0
    requires Total(result) <= base + Part(c, Total(done))
    ensures Total(Insert(result, h, Part(c, v[h]))) <= base + Part(c, Total(done[h := v[h]]))
    ensures Part(c, v[h]) >= 0.0
  {
    PutIn(result, h, Part(c, v[h]));
    PutIn(done, h, v[h]);
    assert Part(c, Total(done) + v[h]) == Part(c, Total(done)) + Part(c, v[h]);
    assert Part(c, v[h]) >= 0.0;
  }

  ghost function Hebbian(v: Vector, p: real): Vector {
    Scaled(v, LinkAllocation(p, |v|))
  }

  ghost function Combined(v: Vector, hebbian: Vector): Vector {
    Scaled(v, 1.0 - Total(hebbian)) + hebbian
  }

  /** Hebbian neighbours have their shares first; incident atoms that are none of them share what is left. */
  method CombineIncidentAdjacentVectors(incidentVector: Vector, adjacentVector: Vector,
                                        hebbianMaxAllocationPercentage: real)
    returns (result: Vector)
    requires IsVector(incidentVector) && IsVector(adjacentVector) && IsProbability(hebbianMaxAllocationPercentage)
    ensures IsVector(result)
    ensures result == Combined(incidentVector, Hebbian(adjacentVector, hebbianMaxAllocationPercentage))
  {
    hide Part;
    hide Scaled;
    hide Total;
    hide IsVector;
    hide LinkAllocation;
    var hebbianMaximumLinkAllocation := LinkAllocation(hebbianMaxAllocationPercentage, |adjacentVector|);
    LinkAllocationIsProbability(hebbianMaxAllocationPercentage, |adjacentVector|);
    var hebbianDiffusionUsed;
    result, hebbianDiffusionUsed := AllocateHebbian(adjacentVector, hebbianMaximumLinkAllocation);
    var diffusionAvailable := 1.0 - hebbianDiffusionUsed;
    result := AllocateIncident(incidentVector, diffusionAvailable, result);
  }

  method AllocateHebbian(adjacentVector: Vector, allocation: real) returns (result: Vector, hebbianDiffusionUsed: real)
    requires IsVector(adjacentVector) && IsProbability(allocation)
    ensures IsVector(result) && result == Scaled(adjacentVector, allocation) && hebbianDiffusionUsed == Total(result)
  {
    hide Part;
    hide Total;
    result, hebbianDiffusionUsed := map[], 0.0;
    NothingIsZero();
    var rest := adjacentVector.Keys;
    ghost var done: Vector := map[];
    NothingOf(allocation);
    while rest != {}
      invariant rest <= adjacentVector.Keys && done == map h | h in adjacentVector && h !in rest :: adjacentVector[h]
      invariant result == Scaled(done, allocation) && hebbianDiffusionUsed == Total(result)
      invariant Total(result) <= 0.0 + Part(allocation, Total(done))
      invariant forall h <- result :: result[h] >= 0.0
    {
      var h :| h in rest;
      var diffusionAmount := Part(allocation, adjacentVector[h]);
      ScaledOneMore(adjacentVector, done, result, 0.0, h, allocation);
      PutIn(result, h, diffusionAmount);
      result := Insert(result, h, diffusionAmount);
      hebbianDiffusionUsed := hebbianDiffusionUsed + diffusionAmount;
      rest := rest - {h};
      done := done[h := adjacentVector[h]];
    }
    assert done == adjacentVector;
    PartOfAtMostOne(allocation, Total(done));
  }

  lemma NothingIsZero()
    ensures Total<Handle>(map[]) == 0.0
  {
  }

  lemma AvailableIsLeft(hebbian: Vector)
    requires IsVector(hebbian)
    ensures 0.0 <= 1.0 - Total(hebbian) <= 1.0
  {
    NotNegative(hebbian);
  }

  lemma NothingOf(c: real)
    ensures Part(c, 0.0) == 0.0
  {
  }

  lemma PartOfAtMostOne(c: real, x: real)
    requires c >= 0.0 && x <= 1.0
    ensures Part(c, x) <= c
  {
  }

  method AllocateIncident(incidentVector: Vector, diffusionAvailable: real, hebbian: Vector) returns (result: Vector)
    requires IsVector(incidentVector) && IsVector(hebbian) && diffusionAvailable == 1.0 - Total(hebbian)
    ensures IsVector(result) && result == Combined(incidentVector, hebbian)
  {
    hide Part;
    hide Total;
    result := hebbian;
    NothingIsZero();
    AvailableIsLeft(hebbian);
    var rest := incidentVector.Keys;
    ghost var done: Vector := map[];
    NothingOf(diffusionAvailable);
    while rest != {}
      invariant rest <= incidentVector.Keys && done == map h | h in incidentVector && h !in rest :: incidentVector[h]
      invariant result == Scaled(done, diffusionAvailable) + hebbian
      invariant Total(result) <= Total(hebbian) + Part(diffusionAvailable, Total(done))
      invariant forall h <- result :: result[h] >= 0.0
    {
      var h :| h in rest;
      var diffusionAmount := Part(diffusionAvailable, incidentVector[h]);
      ScaledOneMore(incidentVector, done, result, Total(hebbian), h, diffusionAvailable);
      result := Insert(result, h, diffusionAmount);
      rest := rest - {h};
      done := done[h := incidentVector[h]];
    }
    assert done == incidentVector;
    PartOfAtMostOne(diffusionAvailable, Total(done));
  }

  // ---------------------------------------------------------------- a round of diffusion

  datatype DiffusionEvent = DiffusionEvent(source: Handle, target: Handle, amount: nat)

  /** What the events take from an atom. */
  ghost function Outgoing(events: seq<DiffusionEvent>, h: Handle): nat {
    if events == [] then 0
    else
      var (rest, e) := (events[..|events| - 1], events[|events| - 1]);
      Outgoing(rest, h) + if e.source == h then e.amount else 0
  }

  /** What the events bring to an atom. */
  ghost function Incoming(events: seq<DiffusionEvent>, h: Handle): nat {
    if events == [] then 0
    else
      var (rest, e) := (events[..|events| - 1], events[|events| - 1]);
      Incoming(rest, h) + if e.target == h then e.amount else 0
  }

  /** Rounding to the nearest integer, halves away from zero. */
  function Round(x: real): int {
    if x >= 0.0 then (x + 0.5).Floor else -((0.5 - x).Floor)
  }

  /** A probability of an amount is at most the amount, rounded or cut off. */
  lemma RoundedPart(n: nat, p: real)
    requires IsProbability(p)
    ensures 0 <= Round(Part(n as real, p)) <= n && Part(n as real, p) >= 0.0
    ensures Round(Part(n as real, p)) as real - 0.5 <= n as real * p < Round(Part(n as real, p)) as real + 0.5
  {
    PartIsProduct(n as real, p);
    hide Part;
    PartIsSmaller(n as real, p);
  }

  lemma PartIsProduct(x: real, p: real)
    ensures Part(x, p) == x * p
  {
  }

  function DiffusionAmount(sti: int, maxSpreadPercentage: real): (n: nat)
    requires sti >= 0 && IsProbability(maxSpreadPercentage)
    ensures n <= sti && n as real - 0.5 <= sti as real * maxSpreadPercentage < n as real + 0.5
  {
    RoundedPart(sti, maxSpreadPercentage);
    Round(Part(sti as real, maxSpreadPercentage))
  }

  class Bank {
    var sti: map<Handle, int>

    constructor (sti: map<Handle, int>)
      ensures this.sti == sti
    {
      this.sti := sti;
    }
  }

  datatype TruthValue = TruthValue(mean: real, confidence: real)

  /** Where an atom's importance may go, and the hebbian links it takes. */
  datatype Surroundings = Surroundings(incidentAtoms: seq<Handle>, hebbianAdjacentAtoms: seq<Handle>,
                                       link: Handle -> TruthValue)
  {
    /** calculateHebbianDiffusionPercentage, of the link to an atom. */
    function Percentage(h: Handle): real {
      link(h).mean * link(h).confidence
    }

    ghost predicate Valid(atoms: set<Handle>) {
      && (forall h <- incidentAtoms :: h in atoms) && (forall h <- hebbianAdjacentAtoms :: h in atoms)
      && forall h <- hebbianAdjacentAtoms :: IsProbability(link(h).mean) && IsProbability(link(h).confidence)
    }

    lemma PercentageIsProbability(atoms: set<Handle>)
      requires Valid(atoms)
      ensures forall h <- hebbianAdjacentAtoms :: IsProbability(Percentage(h))
    {
      forall h | h in hebbianAdjacentAtoms ensures IsProbability(Percentage(h)) {
        PartIsSmaller(link(h).mean, link(h).confidence);
      }
    }
  }

  /** How an atom divides what it gives, over its incident atoms and its hebbian neighbours. */
  ghost function VectorOf(around: Surroundings, hebbianMaxAllocationPercentage: real): Vector {
    Combined(IncidentVector(around.incidentAtoms), HebbianPart(around, hebbianMaxAllocationPercentage))
  }

  ghost function HebbianPart(around: Surroundings, hebbianMaxAllocationPercentage: real): Vector {
    Hebbian(HebbianVector(around.hebbianAdjacentAtoms, around.Percentage), hebbianMaxAllocationPercentage)
  }

  // ---------------------------------------------------------------- how much the shares are

  lemma {:induction false} ScaledTotal(v: Vector, c: real)
    ensures Total(Scaled(v, c)) == Part(c, Total(v))
    decreases |v|
  {
    hide Part;
    NothingIsZero();
    NothingOf(c);
    if v == map[] {
      assert Scaled(v, c) == map[];
    } else {
      var k :| k in v;
      Smaller(v, k);
      TakeOut(v, k);
      TakeOut(Scaled(v, c), k);
      assert Scaled(v, c) - {k} == Scaled(v - {k}, c);
      ScaledTotal(v - {k}, c);
      PartOfSum(c, v[k], Total(v - {k}));
    }
  }

  lemma PartOfSum(c: real, x: real, y: real)
    ensures Part(c, x + y) == Part(c, x) + Part(c, y)
  {
  }

  ghost predicate AllAre(v: Vector, x: real) {
    forall h <- v :: v[h] == x
  }

  lemma {:induction false} EqualShares(v: Vector, x: real)
    requires AllAre(v, x)
    ensures Total(v) == Shares(|v|, x)
    decreases |v|
  {
    hide Shares;
    OneShareMore(0, x);
    if v != map[] {
      var k :| k in v;
      Smaller(v, k);
      TakeOut(v, k);
      EqualShares(v - {k}, x);
      OneShareMore(|v| - 1, x);
    }
  }

  ghost function Atoms(s: seq<Handle>): set<Handle> {
    set h | h in s
  }

  predicate NoDuplicates(s: seq<Handle>) {
    forall i, j :: 0 <= i < j < |s| ==> s[i] != s[j]
  }

  lemma {:induction false} AtomsAreFewer(s: seq<Handle>)
    ensures |Atoms(s)| <= |s| && (|Atoms(s)| == |s| <==> NoDuplicates(s))
  {
    if s == [] {
      assert Atoms(s) == {};
    } else {
      var (t, h) := (s[..|s| - 1], s[|s| - 1]);
      AtomsAreFewer(t);
      assert s == t + [h];
      assert Atoms(s) == Atoms(t) + {h};
      if h in t {
        var i :| 0 <= i < |t| && t[i] == h;
        assert s[i] == s[|s| - 1];
        assert Atoms(s) == Atoms(t);
      }
    }
  }

  /** The incident atoms that are no hebbian neighbours. */
  ghost function OnlyIncident(around: Surroundings): set<Handle> {
    Atoms(around.incidentAtoms) - Atoms(around.hebbianAdjacentAtoms)
  }

  /**
   * The share of a hebbian neighbour goes with the strength and with the confidence of its link, and is divided by the
   * number of neighbours twice. Incident atoms that are no neighbours have equal shares of the rest.
   */
  lemma ShareOf(around: Surroundings, p: real, h: Handle)
    ensures h in VectorOf(around, p) <==> h in around.incidentAtoms || h in around.hebbianAdjacentAtoms
    ensures h in around.hebbianAdjacentAtoms ==>
      VectorOf(around, p)[h] == p / |Atoms(around.hebbianAdjacentAtoms)| as real
        * (1.0 / |around.hebbianAdjacentAtoms| as real * (around.link(h).mean * around.link(h).confidence))
    ensures h in OnlyIncident(around) ==>
      VectorOf(around, p)[h] == (1.0 - Total(HebbianPart(around, p))) * (1.0 / |around.incidentAtoms| as real)
  {
    hide Total;
    hide HebbianPart;
    hide Part;
    HebbianKeys(around, p);
    if h in around.hebbianAdjacentAtoms {
      HebbianShare(around, p, h);
    } else if h in around.incidentAtoms {
      IncidentShare(around, p, h);
    }
  }

  lemma IncidentShare(around: Surroundings, p: real, h: Handle)
    requires h in around.incidentAtoms && h !in HebbianPart(around, p)
    ensures h in VectorOf(around, p)
    ensures VectorOf(around, p)[h]
         == (1.0 - Total(HebbianPart(around, p))) * (1.0 / |around.incidentAtoms| as real)
  {
    hide Total;
    hide HebbianPart;
    hide Part;
    PartIsProduct(1.0 - Total(HebbianPart(around, p)), 1.0 / |around.incidentAtoms| as real);
  }

  lemma HebbianShare(around: Surroundings, p: real, h: Handle)
    requires h in around.hebbianAdjacentAtoms
    ensures h in HebbianPart(around, p)
    ensures HebbianPart(around, p)[h] == p / |Atoms(around.hebbianAdjacentAtoms)| as real
        * (1.0 / |around.hebbianAdjacentAtoms| as real * (around.link(h).mean * around.link(h).confidence))
  {
    hide LinkAllocation;
    var v := HebbianVector(around.hebbianAdjacentAtoms, around.Percentage);
    var k := |Atoms(around.hebbianAdjacentAtoms)|;
    assert v.Keys == Atoms(around.hebbianAdjacentAtoms);
    assert |v| == |v.Keys|;
    AllocationOf(p, k);
    PartIsProduct(1.0 / |around.hebbianAdjacentAtoms| as real, around.Percentage(h));
    PartIsProduct(LinkAllocation(p, k), v[h]);
    hide Part;
  }

  lemma AllocationOf(p: real, n: nat)
    ensures n > 0 ==> LinkAllocation(p, n) == p / n as real
  {
  }

  /** What is given away in all, as a share: less than everything where atoms are listed twice, or in both lists. */
  lemma SharesAddUp(around: Surroundings, p: real)
    ensures var (n, t) := (|around.incidentAtoms|, Total(HebbianPart(around, p)));
      Total(VectorOf(around, p))
      == t + if n == 0 then 0.0 else Shares(|OnlyIncident(around)|, Part(1.0 - t, 1.0 / n as real))
  {
    hide Total;
    hide HebbianPart;
    hide Part;
    hide Combined;
    hide Shares;
    hide IncidentVector;
    hide AllAre;
    hide Atoms;
    var n := |around.incidentAtoms|;
    var x := if n == 0 then 0.0 else 1.0 / n as real;
    HebbianKeys(around, p);
    IncidentShares(around.incidentAtoms, x);
    OneShareMore(0, Part(1.0 - Total(HebbianPart(around, p)), x));
    CombinedTotal(IncidentVector(around.incidentAtoms), HebbianPart(around, p), x);
  }

  lemma IncidentShares(handles: seq<Handle>, x: real)
    requires handles != [] ==> x == 1.0 / |handles| as real
    ensures IncidentVector(handles).Keys == Atoms(handles) && AllAre(IncidentVector(handles), x)
    ensures handles == [] ==> Atoms(handles) == {}
  {
  }

  lemma CombinedTotal(incident: Vector, hebbian: Vector, x: real)
    requires AllAre(incident, x)
    ensures Total(Combined(incident, hebbian))
         == Total(hebbian) + Shares(|incident.Keys - hebbian.Keys|, Part(1.0 - Total(hebbian), x))
  {
    hide Total;
    hide Part;
    hide Shares;
    hide Scaled;
    hide AllAre;
    hide Combined;
    var d := 1.0 - Total(hebbian);
    ScaledAll(incident, d, x);
    CombinedIs(incident, hebbian);
    EqualRest(Scaled(incident, d), hebbian, Part(d, x));
  }

  lemma CombinedIs(v: Vector, hebbian: Vector)
    ensures Combined(v, hebbian) == Scaled(v, 1.0 - Total(hebbian)) + hebbian
  {
    hide Total;
    hide Scaled;
  }

  lemma ScaledAll(v: Vector, c: real, x: real)
    requires AllAre(v, x)
    ensures AllAre(Scaled(v, c), Part(c, x)) && Scaled(v, c).Keys == v.Keys
  {
    hide Part;
  }

  lemma EqualRest(incident: Vector, hebbian: Vector, x: real)
    requires AllAre(incident, x)
    ensures Total(incident + hebbian) == Total(hebbian) + Shares(|incident.Keys - hebbian.Keys|, x)
  {
    hide Total;
    hide Shares;
    MergeTotal(incident, hebbian);
    var rest := incident - hebbian.Keys;
    assert rest.Keys == incident.Keys - hebbian.Keys;
    assert |rest| == |rest.Keys|;
    EqualShares(rest, x);
  }

  lemma HebbianKeys(around: Surroundings, p: real)
    ensures HebbianPart(around, p).Keys == Atoms(around.hebbianAdjacentAtoms)
  {
  }

  /**
   * The shares add up to everything just when the hebbian neighbours have it all already, or there are incident atoms,
   * none of them twice and none of them a hebbian neighbour.
   */
  lemma SharesAreEverything(around: Surroundings, p: real)
    ensures Total(VectorOf(around, p)) == 1.0
       <==> Total(HebbianPart(around, p)) == 1.0 || IncidentAtomsTakeTheRest(around)
  {
    hide Total;
    hide VectorOf;
    hide HebbianPart;
    hide Shares;
    hide Part;
    hide OnlyIncident;
    hide NoDuplicates;
    var (n, m, t) := (|around.incidentAtoms|, |OnlyIncident(around)|, Total(HebbianPart(around, p)));
    SharesAddUp(around, p);
    AtomsAreFewer(around.incidentAtoms);
    OnlyIncidentIsAll(around);
    if n > 0 {
      AllOrLess(n, m, t);
    }
  }

  predicate IncidentAtomsTakeTheRest(around: Surroundings) {
    && around.incidentAtoms != [] && NoDuplicates(around.incidentAtoms)
    && forall h <- around.incidentAtoms :: h !in around.hebbianAdjacentAtoms
  }

  lemma OnlyIncidentIsAll(around: Surroundings)
    ensures |OnlyIncident(around)| <= |Atoms(around.incidentAtoms)|
    ensures |OnlyIncident(around)| == |Atoms(around.incidentAtoms)| <==>
      forall h <- around.incidentAtoms :: h !in around.hebbianAdjacentAtoms
  {
    var (all, some) := (Atoms(around.incidentAtoms), Atoms(around.hebbianAdjacentAtoms));
    var both := all * some;
    assert |all| == |all - some| + |both| by { assert all == (all - some) + both; }
    forall h | h in around.incidentAtoms && h in around.hebbianAdjacentAtoms ensures h in both {
    }
    if both != {} {
      var h :| h in both;
    }
  }

  lemma AllOrLess(n: nat, m: nat, t: real)
    requires 0 < n && m <= n
    ensures t + Shares(m, Part(1.0 - t, 1.0 / n as real)) == 1.0 <==> t == 1.0 || m == n
  {
    var (x, d) := (1.0 / n as real, 1.0 - t);
    var y := m as real * x;
    AllShares(n);
    assert y == 1.0 <==> m == n by { Proportion(n, m, x); }
    assert Shares(m, Part(d, x)) == d * y;
    if d != 0.0 && t + d * y == 1.0 {
      OnlyOneKeeps(d, y);
    }
  }

  lemma Proportion(n: nat, m: nat, x: real)
    requires n as real * x == 1.0 && m <= n
    ensures m as real * x == 1.0 <==> m == n
  {
    if m < n {
      assert (n - m) as real * x == 1.0 - m as real * x;
      assert x != 0.0;
    }
  }

  lemma OnlyOneKeeps(d: real, y: real)
    requires d * y == d && d != 0.0
    ensures y == 1.0
  {
    assert d * (y - 1.0) == 0.0;
  }

  /** All hebbian neighbours together: the allowed percentage divided by their number, as far as their vector goes. */
  lemma HebbianPartTotal(around: Surroundings, p: real)
    ensures Total(HebbianPart(around, p)) == LinkAllocation(p, |Atoms(around.hebbianAdjacentAtoms)|)
      * Total(HebbianVector(around.hebbianAdjacentAtoms, around.Percentage))
  {
    hide Total;
    var v := HebbianVector(around.hebbianAdjacentAtoms, around.Percentage);
    assert v.Keys == Atoms(around.hebbianAdjacentAtoms) && |v| == |v.Keys|;
    ScaledTotal(v, LinkAllocation(p, |v|));
    PartIsProduct(LinkAllocation(p, |v|), Total(v));
  }

  ghost function Concat(parts: seq<seq<DiffusionEvent>>): seq<DiffusionEvent> {
    if parts == [] then [] else Concat(parts[..|parts| - 1]) + parts[|parts| - 1]
  }

  /** Every atom can pay what the events take from it. */
  ghost predicate Covered(sti: map<Handle, int>, events: seq<DiffusionEvent>) {
    forall h <- sti :: Outgoing(events, h) <= sti[h]
  }

  ghost predicate Known(sti: map<Handle, int>, events: seq<DiffusionEvent>) {
    forall e <- events :: e.source in sti && e.target in sti
  }

  /** What each atom has after the events. */
  ghost predicate Traded(before: map<Handle, int>, events: seq<DiffusionEvent>, after: map<Handle, int>) {
    after.Keys == before.Keys && forall h <- before :: after[h] == before[h] - Outgoing(events, h) + Incoming(events, h)
  }

  /**
   * What an atom gives in all: the spread percentage of what it has, as far as the vector goes, up to half a unit of
   * rounding, and less than one unit for each target.
   */
  ghost predicate Gives(given: nat, sti: int, maxSpreadPercentage: real, vector: Vector) {
    var meant := sti as real * maxSpreadPercentage * Total(vector);
    meant - 0.5 - |vector| as real <= given as real <= meant + 0.5
  }

  lemma OutgoingAppend(events: seq<DiffusionEvent>, e: DiffusionEvent, h: Handle)
    ensures Outgoing(events + [e], h) == Outgoing(events, h) + if e.source == h then e.amount else 0
    ensures Incoming(events + [e], h) == Incoming(events, h) + if e.target == h then e.amount else 0
  {
    assert (events + [e])[..|events|] == events;
  }

  class ImportanceDiffusion {
    const bank: Bank
    const maxSpreadPercentage: real
    const hebbianMaxAllocationPercentage: real
    var diffusionStack: seq<DiffusionEvent>

    constructor (bank: Bank, maxSpreadPercentage: real, hebbianMaxAllocationPercentage: real)
      ensures this.bank == bank && diffusionStack == []
      ensures this.maxSpreadPercentage == maxSpreadPercentage
      ensures this.hebbianMaxAllocationPercentage == hebbianMaxAllocationPercentage
    {
      this.bank := bank;
      this.maxSpreadPercentage := maxSpreadPercentage;
      this.hebbianMaxAllocationPercentage := hebbianMaxAllocationPercentage;
      diffusionStack := [];
    }

    /** The parameters are probabilities, and no atom is in debt. */
    ghost predicate Valid()
      reads this, bank
    {
      && IsProbability(maxSpreadPercentage) && IsProbability(hebbianMaxAllocationPercentage)
      && (forall h <- bank.sti :: bank.sti[h] >= 0)
      && Known(bank.sti, diffusionStack) && Covered(bank.sti, diffusionStack)
    }

    method CalculateDiffusionAmount(h: Handle) returns (amount: nat)
      requires Valid() && h in bank.sti
      ensures amount <= bank.sti[h]
      ensures amount as real - 0.5 <= bank.sti[h] as real * maxSpreadPercentage < amount as real + 0.5
      ensures amount == DiffusionAmount(bank.sti[h], maxSpreadPercentage)
    {
      amount := DiffusionAmount(bank.sti[h], maxSpreadPercentage);
    }

    method TradeSTI(event: DiffusionEvent)
      requires event.source in bank.sti && event.target in bank.sti
      modifies bank
      ensures Traded(old(bank.sti), [event], bank.sti)
      ensures TotalInt(bank.sti) == TotalInt(old(bank.sti))
    {
      hide TotalInt;
      PutInInt(bank.sti, event.source, bank.sti[event.source] - event.amount);
      bank.sti := bank.sti[event.source := bank.sti[event.source] - event.amount];
      PutInInt(bank.sti, event.target, bank.sti[event.target] + event.amount);
      bank.sti := bank.sti[event.target := bank.sti[event.target] + event.amount];
      forall h ensures Outgoing([event], h) == (if event.source == h then event.amount else 0)
               ensures Incoming([event], h) == (if event.target == h then event.amount else 0) {
        OutgoingAppend([], event, h);
        assert [] + [event] == [event];
      }
    }

    /**
     * What an atom gives to each target: its share of the amount, cut off to a whole number. Of all the shares together
     * less than one is lost for each target.
     */
    ghost static predicate Diffused(events: seq<DiffusionEvent>, source: Handle, total: nat, vector: Vector) {
      && (forall e <- events :: e.source == source && e.target in vector)
      && (forall h ::
          Incoming(events, h) == if h in vector && vector[h] >= 0.0 then Part(total as real, vector[h]).Floor else 0)
      && Part(total as real, Total(vector)) - |vector| as real
        <= Outgoing(events, source) as real <= Part(total as real, Total(vector))
    }

    /** Pushes an event for every entry of the vector; together they are no more than the amount. */
    method PushEvents(source: Handle, totalDiffusionAmount: nat, probabilityVector: Vector)
      returns (ghost events: seq<DiffusionEvent>)
      requires IsVector(probabilityVector)
      modifies this`diffusionStack
      ensures diffusionStack == old(diffusionStack) + events
      ensures Diffused(events, source, totalDiffusionAmount, probabilityVector)
      ensures Outgoing(events, source) <= totalDiffusionAmount
    {
      hide Part;
      hide Total;
      events := [];
      var rest := probabilityVector.Keys;
      ghost var done: Vector := map[];
      NothingIsZero();
      NothingOf(totalDiffusionAmount as real);
      while rest != {}
        invariant rest <= probabilityVector.Keys
          && done == map h | h in probabilityVector && h !in rest :: probabilityVector[h]
        invariant diffusionStack == old(diffusionStack) + events
        invariant Diffused(events, source, totalDiffusionAmount, done)
      {
        var target :| target in rest;
        PartOfShare(totalDiffusionAmount, probabilityVector[target], done, target);
        var amount := Part(totalDiffusionAmount as real, probabilityVector[target]).Floor;
        var diffusionEvent := DiffusionEvent(source, target, amount);
        OneEventMore(events, diffusionEvent, totalDiffusionAmount, done, probabilityVector[target]);
        diffusionStack := diffusionStack + [diffusionEvent];
        events := events + [diffusionEvent];
        rest := rest - {target};
        done := done[target := probabilityVector[target]];
      }
      assert done == probabilityVector;
      PartOfAtMostOne(totalDiffusionAmount as real, Total(done));
    }

    static lemma PartOfShare(total: nat, p: real, done: Vector, target: Handle)
      requires p >= 0.0 && target !in done
      ensures Part(total as real, p) >= 0.0
      ensures Part(total as real, Total(done[target := p])) == Part(total as real, Total(done)) + Part(total as real, p)
    {
      PutIn(done, target, p);
    }

    static lemma OneEventMore(events: seq<DiffusionEvent>, e: DiffusionEvent, total: nat, done: Vector, p: real)
      requires Diffused(events, e.source, total, done) && e.target !in done && p >= 0.0
      requires e.amount == Part(total as real, p).Floor
      ensures Diffused(events + [e], e.source, total, done[e.target := p])
    {
      PartOfShare(total, p, done, e.target);
      assert |done[e.target := p]| == |done| + 1;
      hide Part;
      hide Total;
      forall h
        ensures Outgoing(events + [e], h) == Outgoing(events, h) + if e.source == h then e.amount else 0
        ensures Incoming(events + [e], h) == Incoming(events, h) + if e.target == h then e.amount else 0
      {
        OutgoingAppend(events, e, h);
      }
    }

    /** Prepares what one atom gives to its incident atoms and to its hebbian neighbours. */
    method DiffuseAtom(source: Handle, around: Surroundings) returns (ghost events: seq<DiffusionEvent>)
      requires Valid() && source in bank.sti && around.Valid(bank.sti.Keys)
      requires Outgoing(diffusionStack, source) == 0
      modifies this`diffusionStack
      ensures Valid() && diffusionStack == old(diffusionStack) + events
      ensures IsVector(VectorOf(around, hebbianMaxAllocationPercentage))
      ensures Diffused(events, source, DiffusionAmount(bank.sti[source], maxSpreadPercentage),
                       VectorOf(around, hebbianMaxAllocationPercentage))
    {
      hide Part;
      hide IsVector;
      hide Combined;
      hide Diffused;
      hide Hebbian;
      hide IncidentVector;
      hide HebbianVector;
      hide Known;
      hide Covered;
      around.PercentageIsProbability(bank.sti.Keys);
      var incident := ProbabilityVectorIncident(around.incidentAtoms);
      var adjacent := ProbabilityVectorHebbianAdjacent(around.hebbianAdjacentAtoms, around.Percentage);
      var probabilityVector := CombineIncidentAdjacentVectors(incident, adjacent, hebbianMaxAllocationPercentage);
      TargetsAreKnown(around, hebbianMaxAllocationPercentage, bank.sti.Keys);
      var totalDiffusionAmount := CalculateDiffusionAmount(source);
      if totalDiffusionAmount == 0 {
        events := [];
        NothingDiffused(source, probabilityVector);
        return;
      }
      ghost var before := diffusionStack;
      events := PushEvents(source, totalDiffusionAmount, probabilityVector);
      StaysCovered(bank.sti, before, events, source, totalDiffusionAmount, probabilityVector);
    }

    static lemma TargetsAreKnown(around: Surroundings, p: real, atoms: set<Handle>)
      requires around.Valid(atoms)
      ensures forall h <- VectorOf(around, p) :: h in atoms
    {
      hide Part;
    }

    static lemma NothingDiffused(source: Handle, vector: Vector)
      ensures Diffused([], source, 0, vector)
    {
      forall h | h in vector ensures Part(0 as real, vector[h]) == 0.0 {
      }
    }

    static lemma StaysCovered(sti: map<Handle, int>, before: seq<DiffusionEvent>, events: seq<DiffusionEvent>,
                              source: Handle, total: nat, vector: Vector)
      requires Known(sti, before) && Covered(sti, before) && Outgoing(before, source) == 0 && source in sti
      requires Diffused(events, source, total, vector) && Outgoing(events, source) <= total <= sti[source]
      requires forall h <- vector :: h in sti
      ensures Known(sti, before + events) && Covered(sti, before + events)
    {
      forall h ensures Outgoing(before + events, h)
        == Outgoing(before, h) + if h == source then Outgoing(events, source) else 0 {
        OutgoingOfSource(before, events, source, h);
      }
    }

    static lemma {:induction false} OutgoingOfSource(before: seq<DiffusionEvent>, events: seq<DiffusionEvent>,
                                                     source: Handle, h: Handle)
      requires forall e <- events :: e.source == source
      ensures Outgoing(before + events, h) == Outgoing(before, h) + if h == source then Outgoing(events, source) else 0
      decreases |events|
    {
      if events == [] {
        assert before + events == before;
      } else {
        var n := |events| - 1;
        OutgoingOfSource(before, events[..n], source, h);
        OutgoingAppend(before + events[..n], events[n], h);
        assert before + events == before + events[..n] + [events[n]];
      }
    }

    /** One pair of entries moved: the trade on top of the stack, with what is still to be traded. */
    lemma TradeKeeps(was: map<Handle, int>, all: seq<DiffusionEvent>, before: map<Handle, int>,
                     rest: seq<DiffusionEvent>, after: map<Handle, int>)
      requires rest != [] && Between(was, all, before, rest) && Traded(before, [rest[|rest| - 1]], after)
      requires Known(before, rest) && Covered(before, rest) && forall h <- before :: before[h] >= 0
      ensures Between(was, all, after, rest[..|rest| - 1])
      ensures Known(after, rest[..|rest| - 1]) && Covered(after, rest[..|rest| - 1])
        && forall h <- after :: after[h] >= 0
    {
      var e := rest[|rest| - 1];
      forall h | h in after
        ensures after[h]
          == before[h] - (if e.source == h then e.amount else 0) + (if e.target == h then e.amount else 0)
      {
        OutgoingAppend([], e, h);
        assert [] + [e] == [e];
      }
      forall h | h in after
        ensures Outgoing(rest[..|rest| - 1], h) <= after[h] && after[h] >= 0
      {
        assert Outgoing(rest, h) <= before[h];
      }
    }

    /** With some of all events left, the others have been traded. */
    ghost static predicate Between(was: map<Handle, int>, all: seq<DiffusionEvent>, now: map<Handle, int>,
                                   rest: seq<DiffusionEvent>) {
      && now.Keys == was.Keys
      && forall h <- was ::
        now[h] - Outgoing(rest, h) + Incoming(rest, h) == was[h] - Outgoing(all, h) + Incoming(all, h)
    }

    /** Drains the stack; no atom is in debt at any time. */
    method ProcessDiffusionStack()
      requires Valid()
      modifies this, bank
      ensures Valid() && diffusionStack == []
      ensures Traded(old(bank.sti), old(diffusionStack), bank.sti)
      ensures TotalInt(bank.sti) == TotalInt(old(bank.sti))
    {
      hide TotalInt;
      hide Traded;
      hide Covered;
      hide Known;
      hide Between;
      ghost var all, was := diffusionStack, bank.sti;
      assert Between(was, all, was, all) by { AllLeft(was, all); }
      while diffusionStack != []
        invariant Valid() && Between(was, all, bank.sti, diffusionStack) && TotalInt(bank.sti) == TotalInt(was)
        decreases |diffusionStack|
      {
        var event := diffusionStack[|diffusionStack| - 1];
        ghost var before := bank.sti;
        EventIsKnown(bank.sti, diffusionStack);
        TradeSTI(event);
        TradeKeeps(was, all, before, diffusionStack, bank.sti);
        diffusionStack := diffusionStack[..|diffusionStack| - 1];
      }
      NothingLeft(was, all, bank.sti);
    }

    static lemma AllLeft(was: map<Handle, int>, all: seq<DiffusionEvent>)
      ensures Between(was, all, was, all)
    {
    }

    static lemma EventIsKnown(sti: map<Handle, int>, events: seq<DiffusionEvent>)
      requires Known(sti, events) && events != []
      ensures events[|events| - 1].source in sti && events[|events| - 1].target in sti
    {
    }

    static lemma NothingLeft(was: map<Handle, int>, all: seq<DiffusionEvent>, now: map<Handle, int>)
      requires Between(was, all, now, [])
      ensures Traded(was, all, now)
    {
    }

    /** A round: all sources prepare their events, then the stack is drained. */
    method SpreadImportance(diffusionSourceVector: seq<Handle>, around: Handle -> Surroundings)
      returns (ghost parts: seq<seq<DiffusionEvent>>)
      requires Valid() && diffusionStack == []
      requires forall i, j :: 0 <= i < j < |diffusionSourceVector| ==>
        diffusionSourceVector[i] != diffusionSourceVector[j]
      requires forall h <- diffusionSourceVector :: h in bank.sti && around(h).Valid(bank.sti.Keys)
      modifies this, bank
      ensures Valid() && diffusionStack == []
      ensures |parts| == |diffusionSourceVector| && forall i :: 0 <= i < |parts| ==>
        PartOf(parts[i], diffusionSourceVector[i], around, old(bank.sti))
      ensures Traded(old(bank.sti), Concat(parts), bank.sti) && TotalInt(bank.sti) == TotalInt(old(bank.sti))
      ensures forall h <- diffusionSourceVector ::
        Gives(Outgoing(Concat(parts), h), old(bank.sti[h]), maxSpreadPercentage,
              VectorOf(around(h), hebbianMaxAllocationPercentage))
      ensures forall h :: h !in diffusionSourceVector ==> Outgoing(Concat(parts), h) == 0
    {
      hide Gives;
      hide Covered;
      hide Known;
      hide TotalInt;
      hide Traded;
      hide Diffused;
      hide VectorOf;
      hide DiffusionAmount;
      hide Outgoing;
      hide IsVector;
      NoEvents();
      parts := [];
      for i := 0 to |diffusionSourceVector|
        invariant Valid() && bank.sti == old(bank.sti) && diffusionStack == Concat(parts)
        invariant |parts| == i && forall k :: 0 <= k < i ==>
          PartOf(parts[k], diffusionSourceVector[k], around, old(bank.sti))
        invariant forall h :: h !in diffusionSourceVector[..i] ==> Outgoing(Concat(parts), h) == 0
        invariant forall h <- diffusionSourceVector[..i] ::
          Gives(Outgoing(Concat(parts), h), old(bank.sti[h]), maxSpreadPercentage,
                VectorOf(around(h), hebbianMaxAllocationPercentage))
        invariant forall e <- diffusionStack :: e.source in diffusionSourceVector[..i]
      {
        var atomSource := diffusionSourceVector[i];
        ghost var before := diffusionStack;
        NothingYet(diffusionStack, atomSource);
        ghost var pushed := DiffuseAtom(atomSource, around(atomSource));
        AllFrom(pushed, atomSource, DiffusionAmount(bank.sti[atomSource], maxSpreadPercentage),
                VectorOf(around(atomSource), hebbianMaxAllocationPercentage));
        assert (parts + [pushed])[..i] == parts;
        RoundedGift(pushed, atomSource, bank.sti[atomSource], maxSpreadPercentage,
                    VectorOf(around(atomSource), hebbianMaxAllocationPercentage));
        OneSourceMore(diffusionSourceVector[..i], before, pushed, atomSource);
        assert diffusionSourceVector[..i + 1] == diffusionSourceVector[..i] + [atomSource];
        parts := parts + [pushed];
      }
      ProcessDiffusionStack();
    }

    static lemma RoundedGift(events: seq<DiffusionEvent>, source: Handle, sti: nat, p: real, vector: Vector)
      requires IsProbability(p) && IsVector(vector) && Diffused(events, source, DiffusionAmount(sti, p), vector)
      ensures Gives(Outgoing(events, source), sti, p, vector)
    {
      hide Total;
      hide Part;
      hide Round;
      hide Outgoing;
      hide Incoming;
      NotNegative(vector);
      var (n, v) := (DiffusionAmount(sti, p) as real, Total(vector));
      StaysNear(n, sti as real * p, v);
      hide Diffused;
      PartIsProduct(sti as real * p, v);
    }

    static lemma NoEvents()
      ensures forall h :: Outgoing([], h) == 0
    {
    }

    /** One source more takes nothing from the others. */
    static lemma OneSourceMore(sources: seq<Handle>, before: seq<DiffusionEvent>, pushed: seq<DiffusionEvent>,
                               source: Handle)
      requires forall e <- pushed :: e.source == source
      requires Outgoing(before, source) == 0 && source !in sources
      ensures Outgoing(before + pushed, source) == Outgoing(pushed, source)
      ensures forall h :: h != source ==> Outgoing(before + pushed, h) == Outgoing(before, h)
    {
      hide Outgoing;
      forall h ensures Outgoing(before + pushed, h)
        == Outgoing(before, h) + if h == source then Outgoing(pushed, source) else 0 {
        OutgoingOfSource(before, pushed, source, h);
      }
    }

    static lemma StaysNear(n: real, x: real, v: real)
      requires n - 0.5 <= x <= n + 0.5 && 0.0 <= v <= 1.0
      ensures Part(n, v) - 0.5 <= Part(x, v) <= Part(n, v) + 0.5
    {
      hide Part;
      if x >= n {
        PartIsSmaller(x - n, v);
        PartsAdd(n, x - n, v);
      } else {
        PartIsSmaller(n - x, v);
        PartsAdd(x, n - x, v);
      }
    }

    static lemma PartsAdd(x: real, y: real, v: real)
      ensures Part(x + y, v) == Part(x, v) + Part(y, v)
    {
    }

    /** What one source gives in a round, by what it had before the round. */
    ghost predicate PartOf(events: seq<DiffusionEvent>, source: Handle, around: Handle -> Surroundings,
                           sti: map<Handle, int>) {
      && source in sti && sti[source] >= 0 && IsProbability(maxSpreadPercentage)
      && Diffused(events, source, DiffusionAmount(sti[source], maxSpreadPercentage),
                  VectorOf(around(source), hebbianMaxAllocationPercentage))
    }

    static lemma {:induction false} NothingYet(events: seq<DiffusionEvent>, h: Handle)
      requires forall e <- events :: e.source != h
      ensures Outgoing(events, h) == 0
      decreases |events|
    {
      if events != [] {
        NothingYet(events[..|events| - 1], h);
      }
    }

    static lemma AllFrom(events: seq<DiffusionEvent>, source: Handle, total: nat, vector: Vector)
      requires Diffused(events, source, total, vector)
      ensures forall e <- events :: e.source == source
    {
    }
  }

  /** The order in which the stack is drained makes no difference. */
  lemma OrderMakesNoDifference(a: seq<DiffusionEvent>, b: seq<DiffusionEvent>, was: map<Handle, int>,
                               x: map<Handle, int>, y: map<Handle, int>)
    requires multiset(a) == multiset(b) && Traded(was, a, x) && Traded(was, b, y)
    ensures x == y
  {
    forall h ensures Outgoing(a, h) == Outgoing(b, h) && Incoming(a, h) == Incoming(b, h) {
      SameSums(a, b, h);
    }
  }

  lemma {:induction false} TakeOutEvent(a: seq<DiffusionEvent>, i: nat, h: Handle)
    requires i < |a|
    ensures Outgoing(a, h) == Outgoing(a[..i] + a[i + 1..], h) + if a[i].source == h then a[i].amount else 0
    ensures Incoming(a, h) == Incoming(a[..i] + a[i + 1..], h) + if a[i].target == h then a[i].amount else 0
  {
    var n := |a| - 1;
    if i < n {
      TakeOutEvent(a[..n], i, h);
      assert a[..i] + a[i + 1..] == a[..n][..i] + a[..n][i + 1..] + [a[n]];
      OutgoingAppend(a[..n][..i] + a[..n][i + 1..], a[n], h);
    } else {
      assert a[..i] + a[i + 1..] == a[..n];
    }
  }

  /** Where the last of some events is among the same events in another order. */
  lemma FindLast(a: seq<DiffusionEvent>, b: seq<DiffusionEvent>) returns (i: nat)
    requires a != [] && multiset(a) == multiset(b)
    ensures i < |b| && b[i] == a[|a| - 1] && multiset(a[..|a| - 1]) == multiset(b[..i] + b[i + 1..])
  {
    var e := a[|a| - 1];
    assert e in multiset(b);
    i :| 0 <= i < |b| && b[i] == e;
    assert a == a[..|a| - 1] + [e];
    assert b == b[..i] + ([e] + b[i + 1..]);
    assert multiset(b) == multiset(b[..i] + b[i + 1..]) + multiset{e};
    assert multiset(b[..i] + b[i + 1..]) == multiset(b) - multiset{e};
    assert multiset(a[..|a| - 1]) == multiset(a) - multiset{e};
  }

  lemma {:induction false} SameSums(a: seq<DiffusionEvent>, b: seq<DiffusionEvent>, h: Handle)
    requires multiset(a) == multiset(b)
    ensures Outgoing(a, h) == Outgoing(b, h) && Incoming(a, h) == Incoming(b, h)
    decreases |a|
  {
    if a == [] {
      assert |b| == |multiset(b)| == 0;
    } else {
      var i := FindLast(a, b);
      TakeOutEvent(b, i, h);
      SameSums(a[..|a| - 1], b[..i] + b[i + 1..], h);
    }
  }
}
