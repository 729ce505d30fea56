/**
 * How the two generations of the hierarchy relate: on the roles the older
 * engine ranks, and for units among the first hundred, its cached level is
 * the newer engine's seniority value, and its label texts follow the newer
 * built-in rule outcome for outcome.
 */
module Generations {
  import opened Common
  import New = CustomHierarchy
  import Old = CustomHierarchii

  /** The two tier tables agree on every role the older engine ranks. */
  lemma TierIsRoleLevel(role: Role)
    requires Old.Ranked(role)
    ensures Old.RoleLevel(role) == New.Tier(role)
  {
  }

  /** On a ranked role in one of the first hundred units, old level and new value coincide. */
  lemma LevelIsPlayerValue(p: Player, units: seq<string>)
    requires Old.Ranked(p.role) && !p.isCHI && FindIndex(units, p.unitName) <= 99
    ensures Old.GetHierarchiiLevel(p, units) == New.GetPlayerValue(p, units)
  {
    var i := FindIndex(units, p.unitName);
    assert ToShort(99 - i) == 99 - i;
    assert ToByte(99 - i) == 99 - i;
  }

  /**
   * For two same-side players on ranked roles, with freshly cached levels,
   * the older engine's text is give, same or follow exactly when the newer
   * built-in rule says GiveOrders, SameRank or FollowOrders.
   */
  lemma GenerationsAgree(levels: map<PlayerId, int>, a: Player, b: Player, units: seq<string>)
    requires Old.Ranked(a.role) && Old.Ranked(b.role) && !a.isCHI && !b.isCHI
    requires FindIndex(units, a.unitName) <= 99 && FindIndex(units, b.unitName) <= 99
    requires a.side == b.side
    requires a.id in levels && b.id in levels
    requires levels[a.id] == Old.GetHierarchiiLevel(a, units)
    requires levels[b.id] == Old.GetHierarchiiLevel(b, units)
    ensures Old.GetDiff(levels, a, b) == Some(Old.GiveText) <==> New.Fallback(a, b, units) == New.GiveOrders
    ensures Old.GetDiff(levels, a, b) == Some(Old.SameText) <==> New.Fallback(a, b, units) == New.SameRank
    ensures Old.GetDiff(levels, a, b) == Some(Old.FollowText) <==> New.Fallback(a, b, units) == New.FollowOrders
  {
    LevelIsPlayerValue(a, units);
    LevelIsPlayerValue(b, units);
  }
}
