/**
 * Host-side entities that both hierarchy engines read: players, their roles,
 * sides and teams, the list lookup the host offers for unit names, the integer
 * casts the engines perform, and the label sink the engines write into.
 */
module Common {

  datatype Option<T> = None | Some(value: T)

  /** The identity of a player; two player values are the same player iff their ids agree. */
  type PlayerId = int

  /** The in-game classes the engines distinguish; every other class is `OtherRole`. */
  datatype Role =
    | ClassD
    | Scientist
    | FacilityGuard
    | ChaosConscript
    | ChaosRifleman
    | ChaosRepressor
    | ChaosMarauder
    | NtfPrivate
    | NtfSpecialist
    | NtfSergeant
    | NtfCaptain
    | OtherRole(code: int)

  /** The faction a player fights for. */
  datatype Side = NoSide | Mtf | ChaosInsurgency | Scp | Tutorial

  /** The team a player belongs to. */
  datatype Team = SCP | MTF | CHI | RSC | CDP | RIP | TUT

  /**
   * The state of a player at the moment of evaluation. The host derives
   * `side`, `team` and `isCHI` from the role; the model takes them as given.
   */
  datatype Player = Player(
    id: PlayerId,
    role: Role,
    side: Side,
    isCHI: bool,
    team: Team,
    unitName: string,
    isAlive: bool)

  /** The first index of `name` in `names`, or -1 when it does not occur (a list's FindIndex). */
  function FindIndex(names: seq<string>, name: string): (i: int)
    ensures -1 <= i < |names|
    ensures i == -1 <==> name !in names
    ensures 0 <= i ==> names[i] == name && name !in names[..i]
  {
    if |names| == 0 then -1
    else if names[0] == name then 0
    else
      var j := FindIndex(names[1..], name);
      if j == -1 then -1
      else
        assert names[..j + 1] == [names[0]] + names[1..][..j];
        j + 1
  }

  /** An unchecked cast of an `int` to an unsigned 8-bit `byte`. */
  function ToByte(x: int): (b: int)
    ensures 0 <= b < 256
    ensures (x - b) % 256 == 0
    ensures 0 <= x < 256 ==> b == x
  {
    x % 256
  }

  /** An unchecked cast of an `int` to a signed 16-bit `short`. */
  function ToShort(x: int): (s: int)
    ensures -32768 <= s < 32768
    ensures (x - s) % 65536 == 0
    ensures -32768 <= x < 32768 ==> s == x
  {
    (x + 32768) % 65536 - 32768
  }

  /**
   * The address of one on-screen label: the first and last player arguments
   * of a label write and the channel between them. Which of the two players
   * sees the label is up to the host.
   */
  datatype LabelKey = LabelKey(first: PlayerId, channel: string, last: PlayerId)

  /** The host's label store; `None` is a cleared label. */
  class LabelSink {
    var labels: map<LabelKey, Option<string>>

    constructor ()
      ensures labels == map[]
    {
      labels := map[];
    }

    /** Sets (or, with `None`, clears) the label on `channel` between `first` and `last`. */
    method SetTarget(first: Player, channel: string, text: Option<string>, last: Player)
      modifies this
      ensures labels == old(labels)[LabelKey(first.id, channel, last.id) := text]
    {
      labels := labels[LabelKey(first.id, channel, last.id) := text];
    }
  }

  /** No two roster entries are the same player. */
  predicate DistinctIds(roster: seq<Player>)
  {
    forall i, j :: 0 <= i < j < |roster| ==> roster[i].id != roster[j].id
  }

  /** `after` agrees with `before` on `k`: same presence, same value. */
  predicate SameAt(before: map<LabelKey, Option<string>>, after: map<LabelKey, Option<string>>, k: LabelKey)
  {
    (k in after <==> k in before) && (k in before ==> after[k] == before[k])
  }
}
