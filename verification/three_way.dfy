/**
 * The `operator<=>` tutorial: defaulted and hand-written three-way
 * comparisons for points, versions, characters, players and tasks, and the
 * orders `std::sort` produces from them. Each comparison is shown to be the
 * lexicographic comparison of a key, which makes it a total order on keys.
 */
module ThreeWay {
  import opened Ordering
  import opened Sorting

  /** `Point` (and the identical `Point2D`) with a defaulted `<=>` and `==`. */
  datatype Point = Point(x: int, y: int)

  /** The defaulted `<=>`: members in declaration order. */
  function ComparePoints(p: Point, q: Point): Ord {
    Then(CompareInt(p.x, q.x), CompareInt(p.y, q.y))
  }

  function PointKey(p: Point): seq<int> {
    [p.x, p.y]
  }

  /** The defaulted `<=>` is lexicographic on `(x, y)` and reports `equal` exactly when `==` holds. */
  lemma PointOrder(p: Point, q: Point)
    ensures ComparePoints(p, q) == LexCompare(PointKey(p), PointKey(q))
    ensures ComparePoints(p, q) == Equal <==> p == q
  {
    LexCons(p.x, [p.y], q.x, [q.y]);
    LexCons(p.y, [], q.y, []);
  }

  /** The demo points of both files. */
  lemma PointExamples()
    ensures ComparePoints(Point(10, 20), Point(30, 40)) == Less
    ensures Point(10, 20) == Point(10, 20) && Point(10, 20) != Point(30, 40)
    ensures ComparePoints(Point(30, 40), Point(10, 20)) == Greater
    ensures ComparePoints(Point(1, 2), Point(3, 4)) == Less
  {
  }

  /**
   * `Version` (and `FVersion`, whose members and operators are the same
   * apart from capitalised names).
   */
  datatype Version = Version(major: int, minor: int, patch: int)

  /** `major`, then `minor`, then `patch`; the first non-equal result wins. */
  function CompareVersions(v: Version, w: Version): Ord {
    Then(CompareInt(v.major, w.major), Then(CompareInt(v.minor, w.minor), CompareInt(v.patch, w.patch)))
  }

  function VersionKey(v: Version): seq<int> {
    [v.major, v.minor, v.patch]
  }

  /** `v < w` as the comparison operators synthesised from `<=>` evaluate it. */
  predicate VersionLess(v: Version, w: Version) {
    CompareVersions(v, w) == Less
  }

  lemma VersionKeyCompare(v: Version, w: Version)
    ensures CompareVersions(v, w) == LexCompare(VersionKey(v), VersionKey(w))
  {
    LexCons(v.major, [v.minor, v.patch], w.major, [w.minor, w.patch]);
    LexCons(v.minor, [v.patch], w.minor, [w.patch]);
    LexCons(v.patch, [], w.patch, []);
  }

  /**
   * The hand-written `<=>` is a strong total order that reports `equal`
   * exactly when the defaulted `==` holds.
   */
  lemma VersionTotalOrder(u: Version, v: Version, w: Version)
    ensures CompareVersions(v, w) == Equal <==> v == w
    ensures CompareVersions(w, v) == CompareVersions(v, w).Flip()
    ensures VersionLess(u, v) && VersionLess(v, w) ==> VersionLess(u, w)
    ensures VersionLess(v, w) || v == w || VersionLess(w, v)
  {
    VersionKeyCompare(u, v);
    VersionKeyCompare(v, w);
    VersionKeyCompare(w, v);
    VersionKeyCompare(u, w);
    LexEqual(VersionKey(v), VersionKey(w));
    LexFlip(VersionKey(v), VersionKey(w));
    if VersionLess(u, v) && VersionLess(v, w) {
      LexTransitive(VersionKey(u), VersionKey(v), VersionKey(w));
    }
  }

  /** The comparisons both demos print, including the `FVersion` minimum-version check. */
  lemma VersionExamples()
    ensures VersionLess(Version(1, 0, 0), Version(1, 0, 1))
    ensures VersionLess(Version(1, 0, 1), Version(1, 1, 0))
    ensures VersionLess(Version(1, 1, 0), Version(2, 0, 0))
    ensures VersionLess(Version(1, 2, 3), Version(1, 2, 4))
    ensures VersionLess(Version(1, 2, 3), Version(2, 0, 0))
    ensures VersionLess(Version(5, 5, 0), Version(5, 6, 0))
    ensures VersionLess(Version(5, 6, 0), Version(5, 7, 0))
  {
  }

  const DemoVersions := [Version(2, 0, 0), Version(1, 0, 1), Version(1, 0, 0), Version(1, 1, 0)]

  const SortedVersions: seq<Version> := [Version(1, 0, 0), Version(1, 0, 1), Version(1, 1, 0), Version(2, 0, 0)]

  /** `SortedVersions` holds the same elements as `DemoVersions`. */
  lemma SortedVersionsPermutation()
    ensures multiset(SortedVersions) == multiset(DemoVersions)
  {
  }

  /** `SortedVersions` has strictly ordered neighbours. */
  lemma SortedVersionsChain()
    ensures forall k :: 0 <= k < |SortedVersions| - 1 ==> StrictlyInOrder(VersionKey(SortedVersions[k]), VersionKey(SortedVersions[k + 1]), false)
  {
    forall k | 0 <= k < |SortedVersions| - 1
      ensures StrictlyInOrder(VersionKey(SortedVersions[k]), VersionKey(SortedVersions[k + 1]), false)
    {
      VersionKeyCompare(SortedVersions[k], SortedVersions[k + 1]);
    }
  }

  /**
   * `std::sort` of `{2.0.0, 1.0.1, 1.0.0, 1.1.0}` with the synthesised `<`:
   * every sorted permutation is 1.0.0, 1.0.1, 1.1.0, 2.0.0.
   */
  lemma VersionSortExample(sorted: seq<Version>)
    requires multiset(sorted) == multiset(DemoVersions)
    requires SortedByKey(sorted, VersionKey, false)
    ensures sorted == SortedVersions
  {
    SortedVersionsPermutation();
    SortedVersionsChain();
    SortedResultIs(DemoVersions, SortedVersions, sorted, VersionKey, false);
  }

  /** A character: `<=>` looks only at the stats, `==` is defaulted over every member. */
  datatype Character = Character(name: string, level: int, attack: int, defense: int)

  /** Level first, then attack, then defense; the name is never compared. */
  function CompareCharacters(a: Character, b: Character): Ord {
    Then(CompareInt(a.level, b.level), Then(CompareInt(a.attack, b.attack), CompareInt(a.defense, b.defense)))
  }

  function CharacterKey(c: Character): seq<int> {
    [c.level, c.attack, c.defense]
  }

  lemma CharacterKeyCompare(a: Character, b: Character)
    ensures CompareCharacters(a, b) == LexCompare(CharacterKey(a), CharacterKey(b))
    ensures CompareCharacters(a, b) == Equal <==> CharacterKey(a) == CharacterKey(b)
  {
    LexCons(a.level, [a.attack, a.defense], b.level, [b.attack, b.defense]);
    LexCons(a.attack, [a.defense], b.attack, [b.defense]);
    LexCons(a.defense, [], b.defense, []);
  }

  /** `<=>` can say `equal` while `==` says the characters differ: the names take no part in `<=>`. */
  lemma CharacterEqualityDiffers()
    ensures CompareCharacters(Character("Knight", 10, 50, 40), Character("Guard", 10, 50, 40)) == Equal
    ensures Character("Knight", 10, 50, 40) != Character("Guard", 10, 50, 40)
  {
    assert Character("Knight", 10, 50, 40).name[0] != Character("Guard", 10, 50, 40).name[0];
  }

  const Knight := Character("Knight", 10, 50, 40)
  const Wizard := Character("Wizard", 10, 60, 30)
  const Rogue := Character("Rogue", 12, 45, 35)
  const Paladin := Character("Paladin", 10, 50, 45)

  const Party := [Knight, Wizard, Rogue, Paladin]

  const RankedParty: seq<Character> := [Rogue, Wizard, Paladin, Knight]

  /** `RankedParty` holds the same elements as `Party`. */
  lemma RankedPartyPermutation()
    ensures multiset(RankedParty) == multiset(Party)
  {
  }

  /** `RankedParty` has strictly ordered neighbours. */
  lemma RankedPartyChain()
    ensures forall k :: 0 <= k < |RankedParty| - 1 ==> StrictlyInOrder(CharacterKey(RankedParty[k]), CharacterKey(RankedParty[k + 1]), true)
  {
    forall k | 0 <= k < |RankedParty| - 1
      ensures StrictlyInOrder(CharacterKey(RankedParty[k]), CharacterKey(RankedParty[k + 1]), true)
    {
      CharacterKeyCompare(RankedParty[k + 1], RankedParty[k]);
    }
  }

  /** Sorting the party with `a > b` ranks Rogue, Wizard, Paladin, Knight. */
  lemma PartySortExample(sorted: seq<Character>)
    requires multiset(sorted) == multiset(Party)
    requires SortedByKey(sorted, CharacterKey, true)
    ensures sorted == RankedParty
  {
    RankedPartyPermutation();
    RankedPartyChain();
    SortedResultIs(Party, RankedParty, sorted, CharacterKey, true);
  }

  /** A player: `<=>` compares score, then level, and ignores the name. */
  datatype Player = Player(name: string, score: int, level: int)

  function ComparePlayers(a: Player, b: Player): Ord {
    Then(CompareInt(a.score, b.score), CompareInt(a.level, b.level))
  }

  function PlayerKey(p: Player): seq<int> {
    [p.score, p.level]
  }

  lemma PlayerKeyCompare(a: Player, b: Player)
    ensures ComparePlayers(a, b) == LexCompare(PlayerKey(a), PlayerKey(b))
    ensures ComparePlayers(a, b) == Equal <==> PlayerKey(a) == PlayerKey(b)
  {
    LexCons(a.score, [a.level], b.score, [b.level]);
    LexCons(a.level, [], b.level, []);
  }

  const DemoPlayers := [Player("Alice", 1000, 10), Player("Bob", 1500, 8),
    Player("Carol", 1000, 12), Player("Dave", 1500, 10), Player("Eve", 800, 15)]

  const RankedPlayers: seq<Player> := [Player("Dave", 1500, 10), Player("Bob", 1500, 8), Player("Carol", 1000, 12),
    Player("Alice", 1000, 10), Player("Eve", 800, 15)]

  /** `RankedPlayers` holds the same elements as `DemoPlayers`. */
  lemma RankedPlayersPermutation()
    ensures multiset(RankedPlayers) == multiset(DemoPlayers)
  {
  }

  /** `RankedPlayers` has strictly ordered neighbours. */
  lemma RankedPlayersChain()
    ensures forall k :: 0 <= k < |RankedPlayers| - 1 ==> StrictlyInOrder(PlayerKey(RankedPlayers[k]), PlayerKey(RankedPlayers[k + 1]), true)
  {
    forall k | 0 <= k < |RankedPlayers| - 1
      ensures StrictlyInOrder(PlayerKey(RankedPlayers[k]), PlayerKey(RankedPlayers[k + 1]), true)
    {
      PlayerKeyCompare(RankedPlayers[k + 1], RankedPlayers[k]);
    }
  }

  /** The ranking: score descending, then level descending. */
  lemma PlayerSortExample(sorted: seq<Player>)
    requires multiset(sorted) == multiset(DemoPlayers)
    requires SortedByKey(sorted, PlayerKey, true)
    ensures sorted == RankedPlayers
  {
    RankedPlayersPermutation();
    RankedPlayersChain();
    SortedResultIs(DemoPlayers, RankedPlayers, sorted, PlayerKey, true);
  }

  /** `enum class Priority`, compared by declaration order. */
  datatype Priority = Low | Medium | High | Critical {
    function Rank(): nat {
      match this
      case Low => 0
      case Medium => 1
      case High => 2
      case Critical => 3
    }
  }

  datatype Task = Task(name: string, priority: Priority, deadline: int)

  /** Priority in enum order, then the deadline reversed: `other.deadline <=> deadline`. */
  function CompareTasks(a: Task, b: Task): Ord {
    Then(CompareInt(a.priority.Rank(), b.priority.Rank()), CompareInt(b.deadline, a.deadline))
  }

  function TaskKey(t: Task): seq<int> {
    [t.priority.Rank(), -t.deadline]
  }

  /**
   * Higher priority compares greater; for equal priorities the earlier
   * deadline compares greater.
   */
  lemma TaskOrder(a: Task, b: Task)
    ensures CompareTasks(a, b) == LexCompare(TaskKey(a), TaskKey(b))
    ensures a.priority.Rank() > b.priority.Rank() ==> CompareTasks(a, b) == Greater
    ensures a.priority == b.priority && a.deadline < b.deadline ==> CompareTasks(a, b) == Greater
  {
    LexCons(a.priority.Rank(), [-a.deadline], b.priority.Rank(), [-b.deadline]);
    LexCons(-a.deadline, [], -b.deadline, []);
  }

  const DemoTasks := [Task("Fix bug", High, 3), Task("Write docs", Low, 7),
    Task("Review PR", Medium, 2), Task("Critical fix", Critical, 5), Task("Refactor", Low, 1)]

  const RankedTasks: seq<Task> := [Task("Critical fix", Critical, 5), Task("Fix bug", High, 3), Task("Review PR", Medium, 2),
    Task("Refactor", Low, 1), Task("Write docs", Low, 7)]

  /** `RankedTasks` holds the same elements as `DemoTasks`. */
  lemma RankedTasksPermutation()
    ensures multiset(RankedTasks) == multiset(DemoTasks)
  {
  }

  /** `RankedTasks` has strictly ordered neighbours. */
  lemma RankedTasksChain()
    ensures forall k :: 0 <= k < |RankedTasks| - 1 ==> StrictlyInOrder(TaskKey(RankedTasks[k]), TaskKey(RankedTasks[k + 1]), true)
  {
    forall k | 0 <= k < |RankedTasks| - 1
      ensures StrictlyInOrder(TaskKey(RankedTasks[k]), TaskKey(RankedTasks[k + 1]), true)
    {
      TaskOrder(RankedTasks[k + 1], RankedTasks[k]);
    }
  }

  /** Sorting the task list with `a > b`: Critical first, earlier deadlines first within a priority. */
  lemma TaskSortExample(sorted: seq<Task>)
    requires multiset(sorted) == multiset(DemoTasks)
    requires SortedByKey(sorted, TaskKey, true)
    ensures sorted == RankedTasks
  {
    RankedTasksPermutation();
    RankedTasksChain();
    SortedResultIs(DemoTasks, RankedTasks, sorted, TaskKey, true);
  }

}
