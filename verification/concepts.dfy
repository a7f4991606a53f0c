/**
 * The concepts tutorial's runtime pieces: `SaveData`, which satisfies
 * `Serializable` with a "level,score" text form, and `TActorPool`, a LIFO
 * free list of actors that creates a new actor when it runs dry.
 */
module Concepts {
  import opened Wrappers
  import opened Decimal
  import opened Ascii

  /** `SaveData`; a default-constructed one is level 1, score 0. */
  datatype SaveData = SaveData(level: int, score: int)

  const DefaultSaveData := SaveData(1, 0)

  /** `SaveData::serialize`: `oss << level << "," << score`. */
  function Serialize(d: SaveData): (s: string)
    ensures |s| == |IntToString(d.level)| + 1 + |IntToString(d.score)|
    ensures s[|IntToString(d.level)|] == ','
    ensures s[..|IntToString(d.level)|] == IntToString(d.level)
    ensures s[|IntToString(d.level)| + 1..] == IntToString(d.score)
  {
    IntToString(d.level) + "," + IntToString(d.score)
  }

  /**
   * `SaveData::deserialize`: reads an `int` level, one separator character
   * and an `int` score from `d`. An extraction that reaches the end of the
   * text before anything but white space leaves its field as it was; one
   * that meets a character but no digits stores 0. Either failure puts the
   * stream in its failed state, after which nothing more is read; the
   * character read as the separator is never checked.
   */
  function Deserialize(d: SaveData, data: string): (r: SaveData)
    ensures SkipSpaces(data, 0) == |data| ==> r == d
    ensures ExtractInt(data, 0).Malformed? ==> r == SaveData(0, d.score)
    ensures ExtractInt(data, 0).Read? ==> r.level == ExtractInt(data, 0).value
    ensures ExtractInt(data, 0).Read? && ReadChar(data, ExtractInt(data, 0).next).None? ==> r.score == d.score
  {
    match ExtractInt(data, 0)
    case AtEnd => d
    case Malformed => SaveData(0, d.score)
    case Read(level, p1) =>
      match ReadChar(data, p1)
      case None => SaveData(level, d.score)
      case Some((_, p2)) =>
        match ExtractInt(data, p2)
        case AtEnd => SaveData(level, d.score)
        case Malformed => SaveData(level, 0)
        case Read(score, _) => SaveData(level, score)
  }

  /** `load_from_string<SaveData>`: a default `SaveData` that then deserializes the text. */
  function LoadFromString(data: string): (r: SaveData)
    ensures SkipSpaces(data, 0) == |data| ==> r == DefaultSaveData
    ensures ExtractInt(data, 0).Malformed? ==> r == SaveData(0, 0)
  {
    Deserialize(DefaultSaveData, data)
  }

  /** The level is read back from the front of the text, up to the comma. */
  lemma SerializedLevel(d: SaveData)
    ensures ReadInt(Serialize(d), 0) == Some((d.level, |IntToString(d.level)|))
  {
    var s := Serialize(d);
    assert !IsDigit(s[|IntToString(d.level)|]);
    ReadIntPrefix(s, d.level);
  }

  /** The comma right after the level is the next character read. */
  lemma SerializedComma(d: SaveData)
    ensures ReadChar(Serialize(d), |IntToString(d.level)|) == Some((',', |IntToString(d.level)| + 1))
  {
    var s := Serialize(d);
    var k := |IntToString(d.level)|;
    assert !IsSpace(s[k]);
    assert SkipSpaces(s, k) == k;
  }

  /** The score is read back from after the comma to the end of the text. */
  lemma SerializedScore(d: SaveData)
    ensures ReadInt(Serialize(d), |IntToString(d.level)| + 1) == Some((d.score, |Serialize(d)|))
  {
    ReadIntSuffix(Serialize(d), |IntToString(d.level)| + 1, d.score);
  }

  /** Deserializing what `serialize` wrote restores both fields, whatever the object held. */
  lemma SerializeRoundTrip(d: SaveData, target: SaveData)
    ensures Deserialize(target, Serialize(d)) == d
  {
    SerializedLevel(d);
    SerializedComma(d);
    SerializedScore(d);
  }

  /** `oss << 5` and `oss << 1000`. */
  lemma ThousandText()
    ensures IntToString(5) == "5" && IntToString(1000) == "1000"
  {
    assert Digits(1) == "1";
    assert Digits(10) == "1" + "0";
    assert Digits(100) == "10" + "0";
    assert Digits(1000) == "100" + "0";
  }

  /** Level 5 and score 1000 serialize to "5,1000". */
  lemma SaveDataText(d: SaveData)
    requires d == SaveData(5, 1000)
    ensures Serialize(d) == "5,1000"
  {
    ThousandText();
    assert Serialize(d) == IntToString(5) + "," + IntToString(1000);
  }

  /** The exercise: level 5 and score 1000 serialize to "5,1000" and load back. */
  lemma SaveDataExample(d: SaveData, text: string)
    requires d == SaveData(5, 1000) && text == "5,1000"
    ensures Serialize(d) == text
    ensures Deserialize(DefaultSaveData, text) == d
  {
    SaveDataText(d);
    SerializeRoundTrip(d, DefaultSaveData);
  }

  /**
   * Text that ends before any field: the empty text leaves the object as it
   * was, so `load_from_string` of it is the default {1, 0}; a missing score
   * after the separator keeps the old score.
   */
  lemma DeserializeAtEnd(d: SaveData)
    ensures Deserialize(d, "") == d
    ensures LoadFromString("") == SaveData(1, 0)
    ensures Deserialize(d, "5,") == SaveData(5, d.score)
  {
    var s := "5,";
    assert SkipSpaces(s, 0) == 0;
    assert DigitRun(s[0..]) == 1 by { assert s[0..][1] == ','; }
    assert s[0..][..1] == "5";
    assert ValueOf("5") == 5;
    assert SkipSpaces(s, 1) == 1;
    assert SkipSpaces(s, 2) == 2;
  }

  /** Text with no digits at the front leaves level 0 and the score untouched. */
  lemma DeserializeGarbage(d: SaveData)
    ensures Deserialize(d, "abc") == SaveData(0, d.score)
  {
    assert SkipSpaces("abc", 0) == 0;
    assert DigitRun("abc"[0..]) == 0;
  }

  /**
   * `TActorPool`: the free list, top at the end, and how many actors
   * `new T()` has made so far; an actor is the number of its creation.
   */
  datatype ActorPool = ActorPool(free: seq<nat>, created: nat)

  const EmptyPool := ActorPool([], 0)

  /** Every actor in the free list has been created, and none appears twice. */
  ghost predicate Valid(p: ActorPool) {
    (forall i :: 0 <= i < |p.free| ==> p.free[i] < p.created) &&
    (forall i, j :: 0 <= i < j < |p.free| ==> p.free[i] != p.free[j])
  }

  /** `GetPoolSize`. */
  function PoolSize(p: ActorPool): nat {
    |p.free|
  }

  /** `Release`: pushes the actor back on the free list. */
  function Release(p: ActorPool, actor: nat): (r: ActorPool)
    ensures PoolSize(r) == PoolSize(p) + 1
    ensures r.free[|r.free| - 1] == actor && r.free[..|p.free|] == p.free
    ensures r.created == p.created
  {
    ActorPool(p.free + [actor], p.created)
  }

  /**
   * `Acquire`: pops the most recently released actor, or creates a new one
   * when the free list is empty.
   */
  function Acquire(p: ActorPool): (r: (ActorPool, nat))
    ensures |p.free| > 0 ==> r.1 == p.free[|p.free| - 1] && r.0.free == p.free[..|p.free| - 1]
    ensures |p.free| > 0 ==> PoolSize(r.0) == PoolSize(p) - 1 && r.0.created == p.created
    ensures |p.free| == 0 ==> PoolSize(r.0) == 0 && r.1 == p.created && r.0.created == p.created + 1
  {
    if |p.free| > 0 then (ActorPool(p.free[..|p.free| - 1], p.created), p.free[|p.free| - 1])
    else (ActorPool(p.free, p.created + 1), p.created)
  }

  /** LIFO: acquiring right after a release hands back that actor and restores the pool. */
  lemma AcquireUndoesRelease(p: ActorPool, actor: nat)
    ensures Acquire(Release(p, actor)) == (p, actor)
  {
    assert (p.free + [actor])[..|p.free|] == p.free;
  }

  /**
   * A fresh actor from an empty pool is distinct from every actor the pool
   * holds, and valid pools stay valid when an acquired actor comes back.
   */
  lemma AcquireKeepsValid(p: ActorPool)
    requires Valid(p)
    ensures Valid(Acquire(p).0)
    ensures forall i :: 0 <= i < |Acquire(p).0.free| ==> Acquire(p).0.free[i] != Acquire(p).1
    ensures Valid(Release(Acquire(p).0, Acquire(p).1))
  {
    var (q, actor) := Acquire(p);
    var back := q.free + [actor];
    if |p.free| > 0 {
      assert q.free == p.free[..|p.free| - 1];
      assert back == p.free;
    } else {
      assert back == [actor];
    }
  }

  /** The demo: two acquires from an empty pool and two releases leave two actors pooled. */
  lemma PoolExample()
    ensures var (p1, enemy1) := Acquire(EmptyPool);
      var (p2, enemy2) := Acquire(p1);
      var p3 := Release(Release(p2, enemy1), enemy2);
      enemy1 != enemy2 && PoolSize(p3) == 2 && Acquire(p3).1 == enemy2
  {
  }
}
