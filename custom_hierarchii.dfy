/**
 * The older, fixed-logic hierarchy engine: a per-player cache of levels
 * (role tier plus unit seniority, or -1 for an unranked player), a text
 * difference between two cached levels, and an update that writes
 * "hierarchii" and "unit" labels between one player and the rest of the roster.
 */
module CustomHierarchii {
  import opened Common

  const UnitChannel := "unit"
  const HierarchiiChannel := "hierarchii"

  const GiveText := "<b>Wydawaj rozkazy</b>"
  const SameText := "<b>Ten sam poziom uprawnień</b>"
  const FollowText := "<b>Wykonuj rozkazy</b>"
  /** The text of the branch after the three comparisons (without the two levels it interpolates). */
  const UnreachableText := "<b>Wykryto błąd (Niewykonalny kod się wykonał)</b>"

  /** The roles the older engine ranks; every other role is unranked. */
  predicate Ranked(role: Role)
  {
    role == FacilityGuard || role == NtfPrivate || role == NtfSpecialist
    || role == NtfSergeant || role == NtfCaptain
  }

  /** The tier of a ranked role. */
  function RoleLevel(role: Role): (t: int)
    requires Ranked(role)
    ensures t in {100, 200, 300, 400}
  {
    match role
    case FacilityGuard => 100
    case NtfPrivate => 200
    case NtfSpecialist => 300
    case NtfSergeant => 300
    case NtfCaptain => 400
  }

  /**
   * A player's level: -1 for an unranked role, otherwise the tier plus 99
   * minus the unit's index, computed in 16-bit shorts.
   */
  function GetHierarchiiLevel(p: Player, units: seq<string>): (lvl: int)
    ensures -32768 <= lvl < 32768
    ensures !Ranked(p.role) ==> lvl == -1
    ensures Ranked(p.role) && |units| <= 32868
            ==> lvl == RoleLevel(p.role) + 99 - FindIndex(units, p.unitName)
  {
    if !Ranked(p.role) then -1
    else ToShort(RoleLevel(p.role) + ToShort(99 - FindIndex(units, p.unitName)))
  }

  /**
   * The label text for the first player relative to the second, from their
   * cached levels: none when either is unranked.
   */
  function GetDiff(levels: map<PlayerId, int>, p1: Player, p2: Player): (text: Option<string>)
    requires p1.id in levels && p2.id in levels
    ensures text == None <==> levels[p1.id] == -1 || levels[p2.id] == -1
    ensures text == Some(GiveText)
            <==> levels[p1.id] != -1 && levels[p2.id] != -1 && levels[p1.id] > levels[p2.id]
    ensures text == Some(SameText)
            <==> levels[p1.id] != -1 && levels[p2.id] != -1 && levels[p1.id] == levels[p2.id]
    ensures text == Some(FollowText)
            <==> levels[p1.id] != -1 && levels[p2.id] != -1 && levels[p1.id] < levels[p2.id]
    ensures text != Some(UnreachableText)
  {
    var player1Lvl, player2Lvl := levels[p1.id], levels[p2.id];
    if player1Lvl == -1 || player2Lvl == -1 then None
    else if player1Lvl > player2Lvl then Some(GiveText)
    else if player1Lvl == player2Lvl then Some(SameText)
    else if player1Lvl < player2Lvl then Some(FollowText)
    else assert false; Some(UnreachableText)
  }

  /** The cache holds a level for `player` and, if that level is ranked, for every other roster member. */
  predicate CacheCovers(levels: map<PlayerId, int>, player: Player, roster: seq<Player>)
  {
    && player.id in levels
    && (levels[player.id] != -1 ==>
          forall j :: 0 <= j < |roster| && roster[j].id != player.id ==> roster[j].id in levels)
  }

  /** The four writes that clear the labels between `player` and `p`. */
  function ClearPair(labels: map<LabelKey, Option<string>>, player: Player, p: Player)
    : map<LabelKey, Option<string>>
  {
    labels[LabelKey(p.id, UnitChannel, player.id) := None]
          [LabelKey(p.id, HierarchiiChannel, player.id) := None]
          [LabelKey(player.id, UnitChannel, p.id) := None]
          [LabelKey(player.id, HierarchiiChannel, p.id) := None]
  }

  /** The unit label for `p`: its unit name for MTF, nothing otherwise. */
  function UnitLabel(p: Player): (text: Option<string>)
    ensures text != None <==> p.team == MTF
  {
    if p.team == MTF then Some("Unit: " + p.unitName) else None
  }

  /** The three writes between a ranked `player` and a ranked `p`. */
  function RankedPair(labels: map<LabelKey, Option<string>>, levels: map<PlayerId, int>, player: Player, p: Player)
    : map<LabelKey, Option<string>>
    requires player.id in levels && p.id in levels
  {
    labels[LabelKey(p.id, HierarchiiChannel, player.id) := GetDiff(levels, player, p)]
          [LabelKey(player.id, HierarchiiChannel, p.id) := GetDiff(levels, p, player)]
          [LabelKey(p.id, UnitChannel, player.id) := UnitLabel(p)]
  }

  /** The effect of one roster entry on the labels. */
  function RefreshStep(labels: map<LabelKey, Option<string>>, levels: map<PlayerId, int>, player: Player, p: Player)
    : map<LabelKey, Option<string>>
    requires player.id in levels
    requires levels[player.id] != -1 && p.id != player.id ==> p.id in levels
  {
    if p.id == player.id then labels
    else if levels[player.id] == -1 then ClearPair(labels, player, p)
    else if levels[p.id] == -1 then ClearPair(labels, player, p)
    else RankedPair(labels, levels, player, p)
  }

  /** The labels after visiting the roster in order. */
  function Refresh(labels: map<LabelKey, Option<string>>, levels: map<PlayerId, int>, player: Player, roster: seq<Player>)
    : map<LabelKey, Option<string>>
    requires CacheCovers(levels, player, roster)
    decreases |roster|
  {
    if roster == [] then labels
    else
      var init := roster[..|roster| - 1];
      assert CacheCovers(levels, player, init);
      RefreshStep(Refresh(labels, levels, player, init), levels, player, roster[|roster| - 1])
  }

  /** The older engine's state: the cached level of every player seen so far. */
  class HierarchiiHandler {
    var levels: map<PlayerId, int>

    constructor ()
      ensures levels == map[]
    {
      levels := map[];
    }

    /** Records the player's current level in the cache. */
    method CacheLevel(p: Player, units: seq<string>)
      modifies this
      ensures levels == old(levels)[p.id := GetHierarchiiLevel(p, units)]
    {
      levels := levels[p.id := GetHierarchiiLevel(p, units)];
    }

    /** Resynchronises the labels between `player` and every other roster member. */
    method UpdatePlayer(player: Player, roster: seq<Player>, sink: LabelSink)
      requires CacheCovers(levels, player, roster)
      modifies sink
      ensures sink.labels == Refresh(old(sink.labels), levels, player, roster)
    {
      if levels[player.id] == -1 {
        for i := 0 to |roster|
          invariant sink.labels == Refresh(old(sink.labels), levels, player, roster[..i])
        {
          var p := roster[i];
          assert roster[..i + 1][..i] == roster[..i];
          if player.id == p.id {
            continue;
          }
          sink.SetTarget(p, UnitChannel, None, player);
          sink.SetTarget(p, HierarchiiChannel, None, player);
          sink.SetTarget(player, UnitChannel, None, p);
          sink.SetTarget(player, HierarchiiChannel, None, p);
        }
        assert roster[..|roster|] == roster;
        return;
      }

      for i := 0 to |roster|
        invariant sink.labels == Refresh(old(sink.labels), levels, player, roster[..i])
      {
        var p := roster[i];
        assert roster[..i + 1][..i] == roster[..i];
        if player.id == p.id {
          continue;
        }
        if levels[p.id] == -1 {
          sink.SetTarget(p, UnitChannel, None, player);
          sink.SetTarget(p, HierarchiiChannel, None, player);
          sink.SetTarget(player, UnitChannel, None, p);
          sink.SetTarget(player, HierarchiiChannel, None, p);
          continue;
        }
        sink.SetTarget(p, HierarchiiChannel, GetDiff(levels, player, p), player);
        sink.SetTarget(player, HierarchiiChannel, GetDiff(levels, p, player), p);
        if p.team == MTF {
          sink.SetTarget(p, UnitChannel, Some("Unit: " + p.unitName), player);
        } else {
          sink.SetTarget(p, UnitChannel, None, player);
        }
      }
      assert roster[..|roster|] == roster;
    }
  }

  // ---------------------------------------------------------------------
  // Levels
  // ---------------------------------------------------------------------

  /** A unit missing from the list has index -1, so the level is the tier plus 100. */
  lemma AbsentUnitLevel(p: Player, units: seq<string>)
    requires Ranked(p.role) && p.unitName !in units
    ensures GetHierarchiiLevel(p, units) == RoleLevel(p.role) + 100
  {
  }

  /** Within one role, a more senior unit gives a strictly higher level. */
  lemma LevelSeniority(a: Player, b: Player, units: seq<string>)
    requires Ranked(a.role) && a.role == b.role && |units| <= 32868
    requires FindIndex(units, a.unitName) < FindIndex(units, b.unitName)
    ensures GetHierarchiiLevel(a, units) > GetHierarchiiLevel(b, units)
  {
  }

  /**
   * No byte cast here, but nothing keeps a ranked level away from the
   * sentinel: a guard in the 201st unit gets level -1 and counts as unranked.
   */
  lemma RankedLevelCanBeSentinel(p: Player, units: seq<string>)
    requires p.role == FacilityGuard && FindIndex(units, p.unitName) == 200
    ensures GetHierarchiiLevel(p, units) == -1
  {
    assert ToShort(99 - 200) == -101;
  }

  /** Swapping the players swaps give and follow; same rank and no label stay as they are. */
  lemma GetDiffAntisymmetric(levels: map<PlayerId, int>, a: Player, b: Player)
    requires a.id in levels && b.id in levels
    ensures GetDiff(levels, a, b) == Some(GiveText) <==> GetDiff(levels, b, a) == Some(FollowText)
    ensures GetDiff(levels, a, b) == Some(SameText) <==> GetDiff(levels, b, a) == Some(SameText)
    ensures GetDiff(levels, a, b) == None <==> GetDiff(levels, b, a) == None
  {
  }

  // ---------------------------------------------------------------------
  // Updating labels
  // ---------------------------------------------------------------------

  /** `k` is one of the four labels between `player` and `p`. */
  predicate IsPairKey(player: Player, p: Player, k: LabelKey)
  {
    && (k.channel == UnitChannel || k.channel == HierarchiiChannel)
    && ((k.first == p.id && k.last == player.id) || (k.first == player.id && k.last == p.id))
  }

  /** A label between `player` and no other roster member is left as it was. */
  lemma {:induction false} RefreshFrame(labels: map<LabelKey, Option<string>>, levels: map<PlayerId, int>,
                                        player: Player, roster: seq<Player>, k: LabelKey)
    requires CacheCovers(levels, player, roster)
    requires forall q :: q in roster && q.id != player.id ==> !IsPairKey(player, q, k)
    ensures SameAt(labels, Refresh(labels, levels, player, roster), k)
    decreases |roster|
  {
    if roster != [] {
      var init, last := roster[..|roster| - 1], roster[|roster| - 1];
      assert CacheCovers(levels, player, init);
      assert forall q :: q in init ==> q in roster;
      assert last in roster;
      RefreshFrame(labels, levels, player, init, k);
    }
  }

  /** With distinct roster entries, a pair's labels are those its own step wrote. */
  lemma {:induction false} RefreshAt(labels: map<LabelKey, Option<string>>, levels: map<PlayerId, int>,
                                     player: Player, roster: seq<Player>, p: Player, k: LabelKey)
    requires CacheCovers(levels, player, roster) && DistinctIds(roster)
    requires p in roster && p.id != player.id && IsPairKey(player, p, k)
    ensures levels[player.id] != -1 ==> p.id in levels
    ensures SameAt(RefreshStep(labels, levels, player, p), Refresh(labels, levels, player, roster), k)
    decreases |roster|
  {
    var n := |roster|;
    var init, last := roster[..n - 1], roster[n - 1];
    assert CacheCovers(levels, player, init);
    var j :| 0 <= j < n && roster[j] == p;
    if j == n - 1 {
      assert last == p;
      forall q | q in init && q.id != player.id ensures !IsPairKey(player, q, k) {
        var l :| 0 <= l < n - 1 && init[l] == q;
        assert roster[l] == q;
      }
      RefreshFrame(labels, levels, player, init, k);
    } else {
      assert last.id != p.id;
      assert init[j] == p;
      RefreshAt(labels, levels, player, init, p, k);
    }
  }

  /**
   * A label of an unranked pair is cleared by the pair's last step and
   * by every other step with the same member, so repeated entries do not matter.
   */
  lemma {:induction false} ClearedAt(labels: map<LabelKey, Option<string>>, levels: map<PlayerId, int>,
                                     player: Player, roster: seq<Player>, p: Player, k: LabelKey)
    requires CacheCovers(levels, player, roster)
    requires p in roster && p.id != player.id && IsPairKey(player, p, k)
    requires levels[player.id] == -1 || (p.id in levels && levels[p.id] == -1)
    ensures k in Refresh(labels, levels, player, roster) && Refresh(labels, levels, player, roster)[k] == None
    decreases |roster|
  {
    var n := |roster|;
    var init, last := roster[..n - 1], roster[n - 1];
    assert CacheCovers(levels, player, init);
    if last.id != p.id {
      var j :| 0 <= j < n && roster[j] == p;
      assert init[j] == p;
      ClearedAt(labels, levels, player, init, p, k);
    }
  }

  /**
   * When either side of a pair is unranked, the update clears all four
   * labels between them.
   */
  lemma UpdateClearsUnrankedPair(labels: map<LabelKey, Option<string>>, levels: map<PlayerId, int>,
                                 player: Player, roster: seq<Player>, p: Player)
    requires CacheCovers(levels, player, roster)
    requires p in roster && p.id != player.id
    requires levels[player.id] == -1 || (p.id in levels && levels[p.id] == -1)
    ensures var after := Refresh(labels, levels, player, roster);
            forall k :: IsPairKey(player, p, k) ==> k in after && after[k] == None
  {
    forall k | IsPairKey(player, p, k)
      ensures k in Refresh(labels, levels, player, roster) && Refresh(labels, levels, player, roster)[k] == None
    {
      ClearedAt(labels, levels, player, roster, p, k);
    }
  }

  /**
   * Between a ranked player and a ranked roster member the update writes
   * both hierarchy texts, the member's unit label in one direction, and
   * leaves the unit label in the other direction untouched.
   */
  lemma UpdateRankedPair(labels: map<LabelKey, Option<string>>, levels: map<PlayerId, int>,
                         player: Player, roster: seq<Player>, p: Player)
    requires CacheCovers(levels, player, roster) && DistinctIds(roster)
    requires p in roster && p.id != player.id && p.id in levels
    requires levels[player.id] != -1 && levels[p.id] != -1
    ensures var after := Refresh(labels, levels, player, roster);
            && LabelKey(p.id, HierarchiiChannel, player.id) in after
            && after[LabelKey(p.id, HierarchiiChannel, player.id)] == GetDiff(levels, player, p)
            && LabelKey(player.id, HierarchiiChannel, p.id) in after
            && after[LabelKey(player.id, HierarchiiChannel, p.id)] == GetDiff(levels, p, player)
            && LabelKey(p.id, UnitChannel, player.id) in after
            && after[LabelKey(p.id, UnitChannel, player.id)] == UnitLabel(p)
            && SameAt(labels, after, LabelKey(player.id, UnitChannel, p.id))
  {
    RefreshAt(labels, levels, player, roster, p, LabelKey(p.id, HierarchiiChannel, player.id));
    RefreshAt(labels, levels, player, roster, p, LabelKey(player.id, HierarchiiChannel, p.id));
    RefreshAt(labels, levels, player, roster, p, LabelKey(p.id, UnitChannel, player.id));
    RefreshAt(labels, levels, player, roster, p, LabelKey(player.id, UnitChannel, p.id));
  }

  /** The update changes no label outside the unit and hierarchii labels between `player` and the roster. */
  lemma UpdateFrame(labels: map<LabelKey, Option<string>>, levels: map<PlayerId, int>,
                    player: Player, roster: seq<Player>, k: LabelKey)
    requires CacheCovers(levels, player, roster)
    requires k.first != player.id && k.last != player.id
    ensures SameAt(labels, Refresh(labels, levels, player, roster), k)
  {
    RefreshFrame(labels, levels, player, roster, k);
  }
}
