/**
 * The newer, extensible hierarchy engine: a chain of user comparators in
 * descending priority order, a fallback that compares role tiers plus unit
 * seniority, and a broadcast that writes mirrored "hierarchy" labels between
 * one player and every other living player.
 */
module CustomHierarchy {
  import opened Common

  /** The result of comparing two players, as the first player's power status. */
  datatype CompareResult = FollowOrders | GiveOrders | SameRank | DoNotCompare | NoAction

  /** A comparator outcome that ends the chain. */
  predicate Decisive(r: CompareResult)
  {
    r == GiveOrders || r == FollowOrders || r == SameRank
  }

  /** The same comparison seen from the other player. */
  function Flip(r: CompareResult): (f: CompareResult)
    ensures r == GiveOrders <==> f == FollowOrders
    ensures r == FollowOrders <==> f == GiveOrders
    ensures r == SameRank <==> f == SameRank
    ensures r == DoNotCompare <==> f == DoNotCompare
  {
    match r
    case GiveOrders => FollowOrders
    case FollowOrders => GiveOrders
    case _ => r
  }

  /**
   * One registered custom comparator: its dictionary key (used only to
   * replace or delete it), its priority and the comparison itself.
   */
  datatype Comparer = Comparer(key: string, priority: int, compare: (Player, Player) -> CompareResult)

  // ---------------------------------------------------------------------
  // Processing order: a stable sort by descending priority
  // ---------------------------------------------------------------------

  /**
   * Comparator `i` runs before comparator `j`: it has the higher priority, or
   * the same priority and comes earlier in the dictionary's enumeration.
   */
  predicate Precedes(cs: seq<Comparer>, i: nat, j: nat)
    requires i < |cs| && j < |cs|
  {
    cs[i].priority > cs[j].priority || (cs[i].priority == cs[j].priority && i < j)
  }

  /** `order` lists indices of `cs` in strictly increasing `Precedes` order. */
  predicate IndexSorted(cs: seq<Comparer>, order: seq<nat>)
  {
    && (forall k :: 0 <= k < |order| ==> order[k] < |cs|)
    && (forall k, l :: 0 <= k < l < |order| ==> Precedes(cs, order[k], order[l]))
  }

  /** Inserts index `j` into a sorted index sequence, keeping it sorted. */
  function InsertIndex(cs: seq<Comparer>, order: seq<nat>, j: nat): (r: seq<nat>)
    requires IndexSorted(cs, order) && j < |cs| && j !in order
    ensures |r| == |order| + 1
    ensures forall x :: x in r <==> x in order || x == j
    ensures IndexSorted(cs, r)
  {
    if order == [] then [j]
    else if Precedes(cs, j, order[0]) then [j] + order
    else
      var rest := InsertIndex(cs, order[1..], j);
      assert forall x :: x in order[1..] ==> Precedes(cs, order[0], x) by {
        forall x | x in order[1..] ensures Precedes(cs, order[0], x) {
          var l :| 0 <= l < |order[1..]| && order[1..][l] == x;
          assert order[l + 1] == x;
        }
      }
      [order[0]] + rest
  }

  /** The first `n` comparator indices, sorted. */
  function SortedIndices(cs: seq<Comparer>, n: nat): (r: seq<nat>)
    requires n <= |cs|
    ensures |r| == n
    ensures forall x: nat :: x in r <==> x < n
    ensures IndexSorted(cs, r)
  {
    if n == 0 then []
    else
      var prev := SortedIndices(cs, n - 1);
      var r := InsertIndex(cs, prev, n - 1);
      assert forall x: nat :: x in r <==> x < n by {
        forall x: nat ensures x in r <==> x < n {
          assert x in r <==> x in prev || x == n - 1;
        }
      }
      r
  }

  /**
   * The order in which the comparators run: every index exactly once, by
   * descending priority, equal priorities in enumeration order.
   */
  function ProcessingOrder(cs: seq<Comparer>): (order: seq<nat>)
    ensures |order| == |cs|
    ensures forall i: nat :: i in order <==> i < |cs|
    ensures IndexSorted(cs, order)
  {
    SortedIndices(cs, |cs|)
  }

  // ---------------------------------------------------------------------
  // Seniority values
  // ---------------------------------------------------------------------

  /** The role tier table; roles outside it contribute nothing. */
  function Tier(role: Role): (t: int)
    ensures t in {0, 100, 200, 300, 400}
    ensures role.ClassD? || role.OtherRole? || role == Scientist ==> t == 0
    ensures t == 100 <==> role == FacilityGuard
    ensures t == 400 <==> role == ChaosMarauder || role == NtfCaptain
  {
    match role
    case Scientist => 0
    case FacilityGuard => 100
    case ChaosConscript => 200
    case ChaosRifleman => 200
    case NtfPrivate => 200
    case ChaosRepressor => 300
    case NtfSpecialist => 300
    case NtfSergeant => 300
    case ChaosMarauder => 400
    case NtfCaptain => 400
    case _ => 0
  }

  /**
   * The unit part of a player's value: 0 for Chaos Insurgency, otherwise
   * 99 minus the unit's index in `units`, cast to a byte.
   */
  function GetUnitValue(p: Player, units: seq<string>): (v: int)
    ensures 0 <= v < 256
    ensures p.isCHI ==> v == 0
    ensures !p.isCHI ==> (v + FindIndex(units, p.unitName) - 99) % 256 == 0
  {
    if p.isCHI then 0 else ToByte(99 - FindIndex(units, p.unitName))
  }

  /** The player's seniority: unit value plus role tier, kept in a 16-bit short. */
  function GetPlayerValue(p: Player, units: seq<string>): (v: int)
    ensures 0 <= v <= 655
    ensures v == Tier(p.role) + GetUnitValue(p, units)
    ensures p.isCHI ==> v == Tier(p.role)
  {
    ToShort(GetUnitValue(p, units) + Tier(p.role))
  }

  /** The outcome of comparing two seniority values. */
  function ValueOutcome(v1: int, v2: int): (r: CompareResult)
    ensures r == GiveOrders <==> v1 > v2
    ensures r == FollowOrders <==> v1 < v2
    ensures r == SameRank <==> v1 == v2
  {
    if v1 > v2 then GiveOrders else if v1 < v2 then FollowOrders else SameRank
  }

  /** The built-in rule used when no comparator expressed an opinion. */
  function Fallback(p1: Player, p2: Player, units: seq<string>): (r: CompareResult)
    ensures p1.side != p2.side ==> r == DoNotCompare
    ensures p1.role == ClassD ==> r == DoNotCompare
    ensures r == DoNotCompare || Decisive(r)
    ensures Decisive(r) <==> p1.side == p2.side && p1.role != ClassD
  {
    if p1.side != p2.side then DoNotCompare
    else if p1.role == ClassD then DoNotCompare
    else ValueOutcome(GetPlayerValue(p1, units), GetPlayerValue(p2, units))
  }

  // ---------------------------------------------------------------------
  // Comparison
  // ---------------------------------------------------------------------

  /**
   * Runs the comparators from position `k` of `order`, having already seen a
   * DoNotCompare iff `seenDoNotCompare`: the first decisive outcome wins;
   * otherwise DoNotCompare if any comparator said so, else NoAction.
   */
  function ChainFrom(cs: seq<Comparer>, order: seq<nat>, k: nat, seenDoNotCompare: bool,
                     p1: Player, p2: Player): (r: CompareResult)
    requires k <= |order|
    requires forall m :: 0 <= m < |order| ==> order[m] < |cs|
    ensures seenDoNotCompare ==> r != NoAction
    decreases |order| - k
  {
    if k == |order| then (if seenDoNotCompare then DoNotCompare else NoAction)
    else
      var r := cs[order[k]].compare(p1, p2);
      if r == DoNotCompare then ChainFrom(cs, order, k + 1, true, p1, p2)
      else if r != NoAction then r
      else ChainFrom(cs, order, k + 1, seenDoNotCompare, p1, p2)
  }

  /** The comparison of `p1` to `p2` under the comparators `cs`. */
  function Compare(cs: seq<Comparer>, p1: Player, p2: Player, units: seq<string>): (r: CompareResult)
    ensures r != NoAction
    ensures p1.id == p2.id ==> r == DoNotCompare
  {
    if p1.id == p2.id then DoNotCompare
    else
      var chained := ChainFrom(cs, ProcessingOrder(cs), 0, false, p1, p2);
      if chained != NoAction then chained else Fallback(p1, p2, units)
  }

  /** Compares `p1` to `p2`, consulting the comparators in processing order. */
  method ComparePlayer(comparers: seq<Comparer>, p1: Player, p2: Player, units: seq<string>)
    returns (r: CompareResult)
    ensures r == Compare(comparers, p1, p2, units)
    ensures r != NoAction
    ensures p1.id == p2.id ==> r == DoNotCompare
  {
    if p1.id == p2.id {
      return DoNotCompare;
    }
    var doNotCompare := false;
    var order := ProcessingOrder(comparers);
    for k := 0 to |order|
      invariant ChainFrom(comparers, order, k, doNotCompare, p1, p2)
             == ChainFrom(comparers, order, 0, false, p1, p2)
    {
      var result := comparers[order[k]].compare(p1, p2);
      if result == DoNotCompare {
        doNotCompare := true;
      } else if result != NoAction {
        return result;
      }
    }
    if doNotCompare {
      return DoNotCompare;
    }
    if p1.side != p2.side {
      return DoNotCompare;
    }
    if p1.role == ClassD {
      return DoNotCompare;
    }
    var player1Value := GetPlayerValue(p1, units);
    var player2Value := GetPlayerValue(p2, units);
    if player1Value > player2Value {
      r := GiveOrders;
    } else if player1Value < player2Value {
      r := FollowOrders;
    } else {
      r := SameRank;
    }
  }

  // ---------------------------------------------------------------------
  // Broadcasting labels
  // ---------------------------------------------------------------------

  const HierarchyChannel := "hierarchy"

  /** The configurable label texts (their default values). */
  const GiveOrdersText := "<color=yellow>Give orders</color>"
  const FollowOrdersText := "<color=yellow>Follow orders</color>"
  const SameRankText := "<color=yellow>Same rank</color>"

  /** The label text that goes with an outcome; DoNotCompare clears the label. */
  function Label(r: CompareResult): (text: Option<string>)
    requires r != NoAction
    ensures text == None <==> r == DoNotCompare
  {
    match r
    case GiveOrders => Some(GiveOrdersText)
    case FollowOrders => Some(FollowOrdersText)
    case SameRank => Some(SameRankText)
    case DoNotCompare => None
  }

  /** The two label writes for one compared pair. */
  function PairWrites(labels: map<LabelKey, Option<string>>, p1: Player, p2: Player, r: CompareResult)
    : map<LabelKey, Option<string>>
    requires r != NoAction
  {
    labels[LabelKey(p1.id, HierarchyChannel, p2.id) := Label(r)]
          [LabelKey(p2.id, HierarchyChannel, p1.id) := Label(Flip(r))]
  }

  /** `p2` is compared with `p1` during a broadcast for `p1`. */
  predicate Eligible(p1: Player, p2: Player)
  {
    p2.id != p1.id && p2.isAlive
  }

  /** The effect of one roster entry on the labels. */
  function SweepStep(labels: map<LabelKey, Option<string>>, p1: Player, p2: Player,
                     cs: seq<Comparer>, units: seq<string>): map<LabelKey, Option<string>>
  {
    if Eligible(p1, p2) then PairWrites(labels, p1, p2, Compare(cs, p1, p2, units)) else labels
  }

  /** The labels after visiting the roster in order. */
  function Sweep(labels: map<LabelKey, Option<string>>, p1: Player, roster: seq<Player>,
                 cs: seq<Comparer>, units: seq<string>): map<LabelKey, Option<string>>
    decreases |roster|
  {
    if roster == [] then labels
    else SweepStep(Sweep(labels, p1, roster[..|roster| - 1], cs, units), p1, roster[|roster| - 1], cs, units)
  }

  /** The labels after a broadcast for `p1`: nothing happens for a dead player. */
  function Broadcast(labels: map<LabelKey, Option<string>>, p1: Player, roster: seq<Player>,
                     cs: seq<Comparer>, units: seq<string>): map<LabelKey, Option<string>>
  {
    if p1.isAlive then Sweep(labels, p1, roster, cs, units) else labels
  }

  /** Resynchronises the hierarchy labels between `p1` and every other living player. */
  method UpdatePlayer(sink: LabelSink, p1: Player, roster: seq<Player>,
                      comparers: seq<Comparer>, units: seq<string>)
    modifies sink
    ensures sink.labels == Broadcast(old(sink.labels), p1, roster, comparers, units)
    ensures !p1.isAlive ==> sink.labels == old(sink.labels)
  {
    if !p1.isAlive {
      return;
    }
    for i := 0 to |roster|
      invariant sink.labels == Sweep(old(sink.labels), p1, roster[..i], comparers, units)
    {
      var p2 := roster[i];
      assert roster[..i + 1][..i] == roster[..i];
      if p1.id == p2.id {
        continue;
      }
      if !p2.isAlive {
        continue;
      }
      var diff := ComparePlayer(comparers, p1, p2, units);
      match diff {
        case FollowOrders =>
          sink.SetTarget(p1, HierarchyChannel, Some(FollowOrdersText), p2);
          sink.SetTarget(p2, HierarchyChannel, Some(GiveOrdersText), p1);
        case GiveOrders =>
          sink.SetTarget(p1, HierarchyChannel, Some(GiveOrdersText), p2);
          sink.SetTarget(p2, HierarchyChannel, Some(FollowOrdersText), p1);
        case SameRank =>
          sink.SetTarget(p1, HierarchyChannel, Some(SameRankText), p2);
          sink.SetTarget(p2, HierarchyChannel, Some(SameRankText), p1);
        case DoNotCompare =>
          sink.SetTarget(p1, HierarchyChannel, None, p2);
          sink.SetTarget(p2, HierarchyChannel, None, p1);
        case NoAction =>
          assert false;
      }
    }
    assert roster[..|roster|] == roster;
  }

  // ---------------------------------------------------------------------
  // How the comparator chain resolves
  // ---------------------------------------------------------------------

  /** The first position from `k` on whose comparator is decisive. */
  ghost function FirstDecisiveAt(cs: seq<Comparer>, order: seq<nat>, k: nat, p1: Player, p2: Player): (m: nat)
    requires k <= |order|
    requires forall x :: 0 <= x < |order| ==> order[x] < |cs|
    requires exists x :: k <= x < |order| && Decisive(cs[order[x]].compare(p1, p2))
    ensures k <= m < |order| && Decisive(cs[order[m]].compare(p1, p2))
    ensures forall x :: k <= x < m ==> !Decisive(cs[order[x]].compare(p1, p2))
    decreases |order| - k
  {
    if Decisive(cs[order[k]].compare(p1, p2)) then k
    else FirstDecisiveAt(cs, order, k + 1, p1, p2)
  }

  /** The chain returns the first decisive outcome, whatever came before it. */
  lemma {:induction false} ChainFirstDecisive(cs: seq<Comparer>, order: seq<nat>, k: nat, seen: bool,
                                              p1: Player, p2: Player, m: nat)
    requires k <= m < |order|
    requires forall x :: 0 <= x < |order| ==> order[x] < |cs|
    requires Decisive(cs[order[m]].compare(p1, p2))
    requires forall x :: k <= x < m ==> !Decisive(cs[order[x]].compare(p1, p2))
    ensures ChainFrom(cs, order, k, seen, p1, p2) == cs[order[m]].compare(p1, p2)
    decreases m - k
  {
    if k < m {
      var r := cs[order[k]].compare(p1, p2);
      ChainFirstDecisive(cs, order, k + 1, seen || r == DoNotCompare, p1, p2, m);
    }
  }

  /** Without a decisive comparator the chain only reports whether one said DoNotCompare. */
  lemma {:induction false} ChainNoDecisive(cs: seq<Comparer>, order: seq<nat>, k: nat, seen: bool,
                                           p1: Player, p2: Player)
    requires k <= |order|
    requires forall x :: 0 <= x < |order| ==> order[x] < |cs|
    requires forall x :: k <= x < |order| ==> !Decisive(cs[order[x]].compare(p1, p2))
    ensures ChainFrom(cs, order, k, seen, p1, p2)
         == if seen || exists x :: k <= x < |order| && cs[order[x]].compare(p1, p2) == DoNotCompare
            then DoNotCompare else NoAction
    decreases |order| - k
  {
    if k < |order| {
      var r := cs[order[k]].compare(p1, p2);
      ChainNoDecisive(cs, order, k + 1, seen || r == DoNotCompare, p1, p2);
      if r == DoNotCompare {
        assert k <= k < |order| && cs[order[k]].compare(p1, p2) == DoNotCompare;
      }
    }
  }

  /**
   * When some comparator is decisive, the result is the outcome of the
   * decisive comparator that runs first: every other decisive comparator
   * has lower priority, or the same priority and a later position.
   */
  lemma ResolutionFirstDecisive(cs: seq<Comparer>, p1: Player, p2: Player, units: seq<string>)
    requires p1.id != p2.id
    requires exists i :: 0 <= i < |cs| && Decisive(cs[i].compare(p1, p2))
    ensures exists i :: 0 <= i < |cs| && Decisive(cs[i].compare(p1, p2))
              && Compare(cs, p1, p2, units) == cs[i].compare(p1, p2)
              && (forall j :: 0 <= j < |cs| && j != i && Decisive(cs[j].compare(p1, p2)) ==> Precedes(cs, i, j))
  {
    var order := ProcessingOrder(cs);
    var i0 :| 0 <= i0 < |cs| && Decisive(cs[i0].compare(p1, p2));
    assert i0 in order;
    var x0 :| 0 <= x0 < |order| && order[x0] == i0;
    assert 0 <= x0 < |order| && Decisive(cs[order[x0]].compare(p1, p2));
    var m := FirstDecisiveAt(cs, order, 0, p1, p2);
    ChainFirstDecisive(cs, order, 0, false, p1, p2, m);
    var i := order[m];
    forall j | 0 <= j < |cs| && j != i && Decisive(cs[j].compare(p1, p2))
      ensures Precedes(cs, i, j)
    {
      assert j in order;
      var l :| 0 <= l < |order| && order[l] == j;
      assert m < l;
    }
    assert Decisive(cs[i].compare(p1, p2)) && Compare(cs, p1, p2, units) == cs[i].compare(p1, p2);
  }

  /** No decisive comparator, but one said DoNotCompare: the result is DoNotCompare. */
  lemma ResolutionDoNotCompare(cs: seq<Comparer>, p1: Player, p2: Player, units: seq<string>)
    requires p1.id != p2.id
    requires forall i :: 0 <= i < |cs| ==> !Decisive(cs[i].compare(p1, p2))
    requires exists i :: 0 <= i < |cs| && cs[i].compare(p1, p2) == DoNotCompare
    ensures Compare(cs, p1, p2, units) == DoNotCompare
  {
    var order := ProcessingOrder(cs);
    ChainNoDecisive(cs, order, 0, false, p1, p2);
    var i :| 0 <= i < |cs| && cs[i].compare(p1, p2) == DoNotCompare;
    assert i in order;
    var x :| 0 <= x < |order| && order[x] == i;
    assert cs[order[x]].compare(p1, p2) == DoNotCompare;
  }

  /** Every comparator abstains: the built-in rule decides. */
  lemma ResolutionFallback(cs: seq<Comparer>, p1: Player, p2: Player, units: seq<string>)
    requires p1.id != p2.id
    requires forall i :: 0 <= i < |cs| ==> cs[i].compare(p1, p2) == NoAction
    ensures Compare(cs, p1, p2, units) == Fallback(p1, p2, units)
  {
    ChainNoDecisive(cs, ProcessingOrder(cs), 0, false, p1, p2);
  }

  /** The three ways the chain can end, as implications. */
  lemma ResolutionCases(cs: seq<Comparer>, p1: Player, p2: Player, units: seq<string>)
    requires p1.id != p2.id
    ensures (exists i :: 0 <= i < |cs| && Decisive(cs[i].compare(p1, p2)))
            ==> Decisive(Compare(cs, p1, p2, units))
    ensures (forall i :: 0 <= i < |cs| ==> !Decisive(cs[i].compare(p1, p2)))
            && (exists i :: 0 <= i < |cs| && cs[i].compare(p1, p2) == DoNotCompare)
            ==> Compare(cs, p1, p2, units) == DoNotCompare
    ensures (forall i :: 0 <= i < |cs| ==> cs[i].compare(p1, p2) == NoAction)
            ==> Compare(cs, p1, p2, units) == Fallback(p1, p2, units)
  {
    if exists i :: 0 <= i < |cs| && Decisive(cs[i].compare(p1, p2)) {
      ResolutionFirstDecisive(cs, p1, p2, units);
    } else if exists i :: 0 <= i < |cs| && cs[i].compare(p1, p2) == DoNotCompare {
      ResolutionDoNotCompare(cs, p1, p2, units);
    } else {
      forall i | 0 <= i < |cs| ensures cs[i].compare(p1, p2) == NoAction {
        assert !Decisive(cs[i].compare(p1, p2));
      }
      ResolutionFallback(cs, p1, p2, units);
    }
  }

  /**
   * DoNotCompare between two different players means exactly: no comparator
   * was decisive, and either one said DoNotCompare or the built-in rule does.
   */
  lemma DoNotCompareCharacterised(cs: seq<Comparer>, p1: Player, p2: Player, units: seq<string>)
    requires p1.id != p2.id
    ensures Compare(cs, p1, p2, units) == DoNotCompare
        <==> (forall i :: 0 <= i < |cs| ==> !Decisive(cs[i].compare(p1, p2)))
             && ((exists i :: 0 <= i < |cs| && cs[i].compare(p1, p2) == DoNotCompare)
                 || Fallback(p1, p2, units) == DoNotCompare)
  {
    ResolutionCases(cs, p1, p2, units);
    if forall i :: 0 <= i < |cs| ==> !Decisive(cs[i].compare(p1, p2)) {
      if !exists i :: 0 <= i < |cs| && cs[i].compare(p1, p2) == DoNotCompare {
        forall i | 0 <= i < |cs| ensures cs[i].compare(p1, p2) == NoAction {
          assert !Decisive(cs[i].compare(p1, p2));
        }
      }
    }
  }

  /** A decisive comparator whose priority beats every other one decides. */
  lemma HighestPriorityDecides(cs: seq<Comparer>, p1: Player, p2: Player, units: seq<string>, i: nat)
    requires p1.id != p2.id
    requires i < |cs| && Decisive(cs[i].compare(p1, p2))
    requires forall j :: 0 <= j < |cs| && j != i ==> cs[j].priority < cs[i].priority
    ensures Compare(cs, p1, p2, units) == cs[i].compare(p1, p2)
  {
    ResolutionFirstDecisive(cs, p1, p2, units);
    var w :| 0 <= w < |cs| && Decisive(cs[w].compare(p1, p2))
              && Compare(cs, p1, p2, units) == cs[w].compare(p1, p2)
              && (forall j :: 0 <= j < |cs| && j != w && Decisive(cs[j].compare(p1, p2)) ==> Precedes(cs, w, j));
    assert w == i;
  }

  /** Of two decisive comparators with the same priority, the one enumerated first decides. */
  lemma EarlierOfEqualPriorityDecides(cs: seq<Comparer>, p1: Player, p2: Player, units: seq<string>, i: nat, j: nat)
    requires p1.id != p2.id
    requires i < j < |cs| && Decisive(cs[i].compare(p1, p2)) && Decisive(cs[j].compare(p1, p2))
    requires cs[i].priority == cs[j].priority
    requires forall k :: 0 <= k < |cs| && k != i && k != j ==> cs[k].priority < cs[i].priority
    ensures Compare(cs, p1, p2, units) == cs[i].compare(p1, p2)
  {
    ResolutionFirstDecisive(cs, p1, p2, units);
    var w :| 0 <= w < |cs| && Decisive(cs[w].compare(p1, p2))
              && Compare(cs, p1, p2, units) == cs[w].compare(p1, p2)
              && (forall k :: 0 <= k < |cs| && k != w && Decisive(cs[k].compare(p1, p2)) ==> Precedes(cs, w, k));
    assert w == i;
  }

  // ---------------------------------------------------------------------
  // The built-in rule
  // ---------------------------------------------------------------------

  /** With every comparator abstaining, players of different sides are never compared. */
  lemma DifferentSidesNotCompared(cs: seq<Comparer>, p1: Player, p2: Player, units: seq<string>)
    requires p1.side != p2.side
    requires forall i :: 0 <= i < |cs| ==> cs[i].compare(p1, p2) == NoAction
    ensures Compare(cs, p1, p2, units) == DoNotCompare
  {
    if p1.id != p2.id {
      ResolutionFallback(cs, p1, p2, units);
    }
  }

  /**
   * On the value path, the outcome is GiveOrders, FollowOrders or SameRank as
   * the first player's value is greater than, less than or equal to the second's.
   */
  lemma ValueComparison(cs: seq<Comparer>, p1: Player, p2: Player, units: seq<string>)
    requires p1.id != p2.id && p1.side == p2.side && p1.role != ClassD
    requires forall i :: 0 <= i < |cs| ==> cs[i].compare(p1, p2) == NoAction
    ensures var r := Compare(cs, p1, p2, units);
            var v1, v2 := GetPlayerValue(p1, units), GetPlayerValue(p2, units);
            && (r == GiveOrders <==> v1 > v2)
            && (r == FollowOrders <==> v1 < v2)
            && (r == SameRank <==> v1 == v2)
  {
    ResolutionFallback(cs, p1, p2, units);
  }

  /** The built-in rule is antisymmetric between two non-ClassD players of one side. */
  lemma FallbackMirror(a: Player, b: Player, units: seq<string>)
    requires a.side == b.side && a.role != ClassD && b.role != ClassD
    ensures Fallback(a, b, units) == Flip(Fallback(b, a, units))
  {
  }

  /**
   * With every comparator abstaining both ways, two different non-ClassD
   * players of one side compare as mirror images.
   */
  lemma CompareMirror(cs: seq<Comparer>, a: Player, b: Player, units: seq<string>)
    requires a.id != b.id && a.side == b.side && a.role != ClassD && b.role != ClassD
    requires forall i :: 0 <= i < |cs| ==> cs[i].compare(a, b) == NoAction && cs[i].compare(b, a) == NoAction
    ensures Compare(cs, a, b, units) == Flip(Compare(cs, b, a, units))
  {
    ResolutionFallback(cs, a, b, units);
    ResolutionFallback(cs, b, a, units);
    FallbackMirror(a, b, units);
  }

  /**
   * Only the first player is checked for ClassD, so the comparison can be
   * one-sided: a ClassD player is not compared to a same-side colleague,
   * while the colleague is compared to the ClassD player.
   */
  lemma ClassDAsymmetry(cs: seq<Comparer>, a: Player, b: Player, units: seq<string>)
    requires a.id != b.id && a.side == b.side && a.role == ClassD && b.role != ClassD
    requires forall i :: 0 <= i < |cs| ==> cs[i].compare(a, b) == NoAction && cs[i].compare(b, a) == NoAction
    ensures Compare(cs, a, b, units) == DoNotCompare
    ensures Decisive(Compare(cs, b, a, units))
  {
    ResolutionFallback(cs, a, b, units);
    ResolutionFallback(cs, b, a, units);
  }

  // ---------------------------------------------------------------------
  // Seniority values
  // ---------------------------------------------------------------------

  /** A unit that is not in the list has index -1 and so value 100, the most senior value below the wrap. */
  lemma UnknownUnitValue(p: Player, units: seq<string>)
    requires !p.isCHI && p.unitName !in units
    ensures GetUnitValue(p, units) == 100
  {
  }

  /** Among the first hundred units, an earlier unit has a strictly larger value. */
  lemma UnitSeniority(a: Player, b: Player, units: seq<string>)
    requires !a.isCHI && !b.isCHI && a.unitName in units
    requires FindIndex(units, a.unitName) < FindIndex(units, b.unitName) <= 99
    ensures GetUnitValue(a, units) > GetUnitValue(b, units)
  {
    var i, j := FindIndex(units, a.unitName), FindIndex(units, b.unitName);
    assert GetUnitValue(a, units) == ToByte(99 - i) == 99 - i;
    assert GetUnitValue(b, units) == ToByte(99 - j) == 99 - j;
  }

  /** The byte cast wraps: the 101st unit gets value 255 and outranks every earlier unit. */
  lemma UnitValueWraps(p: Player, units: seq<string>)
    requires !p.isCHI && FindIndex(units, p.unitName) == 100
    ensures GetUnitValue(p, units) == 255
  {
    assert ToByte(99 - 100) == 255;
  }

  /** With the same unit standing, a higher role tier gives a strictly higher value. */
  lemma PlayerValueMonotonicInTier(a: Player, b: Player, units: seq<string>)
    requires a.isCHI == b.isCHI && a.unitName == b.unitName
    requires Tier(a.role) < Tier(b.role)
    ensures GetPlayerValue(a, units) < GetPlayerValue(b, units)
  {
  }

  /** With the same role, a more senior unit among the first hundred gives a strictly higher value. */
  lemma PlayerValueMonotonicInUnit(a: Player, b: Player, units: seq<string>)
    requires a.role == b.role && !a.isCHI && !b.isCHI && a.unitName in units
    requires FindIndex(units, a.unitName) < FindIndex(units, b.unitName) <= 99
    ensures GetPlayerValue(a, units) > GetPlayerValue(b, units)
  {
    UnitSeniority(a, b, units);
  }

  // ---------------------------------------------------------------------
  // Broadcasting labels
  // ---------------------------------------------------------------------

  /** The two hierarchy labels a pair shows are mirror images. */
  lemma MirroredLabels(r: CompareResult)
    requires r != NoAction
    ensures Label(r) == Some(FollowOrdersText) <==> Label(Flip(r)) == Some(GiveOrdersText)
    ensures Label(r) == Some(GiveOrdersText) <==> Label(Flip(r)) == Some(FollowOrdersText)
    ensures Label(r) == Some(SameRankText) <==> Label(Flip(r)) == Some(SameRankText)
    ensures Label(r) == None <==> Label(Flip(r)) == None
  {
  }

  /** `k` is one of the two hierarchy labels between `p1` and `p2`. */
  predicate IsPairKey(p1: Player, p2: Player, k: LabelKey)
  {
    && k.channel == HierarchyChannel
    && ((k.first == p1.id && k.last == p2.id) || (k.first == p2.id && k.last == p1.id))
  }

  /** A label that belongs to no compared pair is left as it was. */
  lemma {:induction false} SweepFrame(labels: map<LabelKey, Option<string>>, p1: Player, roster: seq<Player>,
                                      cs: seq<Comparer>, units: seq<string>, k: LabelKey)
    requires forall q :: q in roster && Eligible(p1, q) ==> !IsPairKey(p1, q, k)
    ensures SameAt(labels, Sweep(labels, p1, roster, cs, units), k)
    decreases |roster|
  {
    if roster != [] {
      var init, last := roster[..|roster| - 1], roster[|roster| - 1];
      assert forall q :: q in init ==> q in roster;
      assert last in roster;
      SweepFrame(labels, p1, init, cs, units, k);
    }
  }

  /** With distinct roster entries, a pair's labels are those its own comparison wrote. */
  lemma {:induction false} SweepAt(labels: map<LabelKey, Option<string>>, p1: Player, roster: seq<Player>,
                                   cs: seq<Comparer>, units: seq<string>, p2: Player, k: LabelKey)
    requires DistinctIds(roster)
    requires p2 in roster && Eligible(p1, p2) && IsPairKey(p1, p2, k)
    ensures SameAt(SweepStep(labels, p1, p2, cs, units), Sweep(labels, p1, roster, cs, units), k)
    decreases |roster|
  {
    var n := |roster|;
    var init, last := roster[..n - 1], roster[n - 1];
    var j :| 0 <= j < n && roster[j] == p2;
    if j == n - 1 {
      assert last == p2;
    } else {
      assert last.id != p2.id;
      assert init[j] == p2;
      SweepAt(labels, p1, init, cs, units, p2, k);
    }
  }

  /**
   * A broadcast for a living player writes, for every other living roster
   * member, the comparison's label one way and its mirror the other way.
   */
  lemma UpdatePlayerWritesPair(labels: map<LabelKey, Option<string>>, p1: Player, roster: seq<Player>,
                               cs: seq<Comparer>, units: seq<string>, p2: Player)
    requires p1.isAlive && DistinctIds(roster) && p2 in roster && Eligible(p1, p2)
    ensures var after := Broadcast(labels, p1, roster, cs, units);
            var r := Compare(cs, p1, p2, units);
            && LabelKey(p1.id, HierarchyChannel, p2.id) in after
            && after[LabelKey(p1.id, HierarchyChannel, p2.id)] == Label(r)
            && LabelKey(p2.id, HierarchyChannel, p1.id) in after
            && after[LabelKey(p2.id, HierarchyChannel, p1.id)] == Label(Flip(r))
  {
    SweepAt(labels, p1, roster, cs, units, p2, LabelKey(p1.id, HierarchyChannel, p2.id));
    SweepAt(labels, p1, roster, cs, units, p2, LabelKey(p2.id, HierarchyChannel, p1.id));
  }

  /** A broadcast changes no label other than the hierarchy labels of compared pairs. */
  lemma UpdatePlayerFrame(labels: map<LabelKey, Option<string>>, p1: Player, roster: seq<Player>,
                          cs: seq<Comparer>, units: seq<string>, k: LabelKey)
    requires forall q :: q in roster && Eligible(p1, q) ==> !IsPairKey(p1, q, k)
    ensures SameAt(labels, Broadcast(labels, p1, roster, cs, units), k)
  {
    if p1.isAlive {
      SweepFrame(labels, p1, roster, cs, units, k);
    }
  }
}
