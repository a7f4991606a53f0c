/**
 * The `std::optional` tutorial: searches that return the first match or
 * nothing, a list-backed `Config` whose first matching pair wins, and a
 * map-backed `ConfigParser` whose last `set` wins.
 */
module OptionalLookup {
  import opened Wrappers
  import Seqs

  /**
   * The index a range-for loop with an early `return` stops at: the first
   * element satisfying `p`, or `None` when the loop runs to the end.
   */
  function FirstIndex<T>(s: seq<T>, p: T -> bool): (r: Option<nat>)
    ensures r.Some? ==> r.value < |s| && p(s[r.value])
    ensures r.Some? ==> forall j :: 0 <= j < r.value ==> !p(s[j])
    ensures r.None? <==> forall j :: 0 <= j < |s| ==> !p(s[j])
  {
    if |s| == 0 then None
    else if p(s[0]) then Some(0)
    else match FirstIndex(s[1..], p)
      case None => None
      case Some(i) => Some(i + 1)
  }

  /** The element the loop returns: `s[FirstIndex(s, p)]`. */
  function FindFirst<T>(s: seq<T>, p: T -> bool): (r: Option<T>)
    ensures r.Some? <==> exists i :: 0 <= i < |s| && p(s[i])
    ensures r.Some? ==> p(r.value) && r.value in s
  {
    match FirstIndex(s, p)
    case None => None
    case Some(i) => Some(s[i])
  }

  /** The found element, a matching one, is the one at the first matching index. */
  lemma FindFirstIsFirst<T>(s: seq<T>, p: T -> bool, i: nat)
    requires i < |s| && p(s[i]) && forall j :: 0 <= j < i ==> !p(s[j])
    ensures FirstIndex(s, p) == Some(i)
    ensures FindFirst(s, p) == Some(s[i])
  {
  }

  /** `find_value`: `target` itself when it occurs in `v`. */
  function FindValue(v: seq<int>, target: int): (r: Option<int>)
    ensures r.Some? <==> target in v
    ensures r.Some? ==> r.value == target
  {
    FindFirst(v, x => x == target)
  }

  /** The search demo: 5 is found, 4 is not, and 10 falls back to -1. */
  lemma FindValueExamples()
    ensures FindValue([1, 3, 5, 7, 9], 5) == Some(5)
    ensures FindValue([1, 3, 5, 7, 9], 4) == None
    ensures FindValue([1, 3, 5, 7, 9], 10).GetOr(-1) == -1
  {
  }

  /** The test `find_name` applies: a non-empty name, checked before reading `name[0]`. */
  predicate StartsWith(name: string, letter: char) {
    |name| > 0 && name[0] == letter
  }

  /** `find_name`: the first non-empty name starting with `letter`. */
  function FindName(names: seq<string>, letter: char): (r: Option<string>)
    ensures r.Some? ==> r.value in names && |r.value| > 0 && r.value[0] == letter
    ensures r.Some? ==> exists i :: (0 <= i < |names| && names[i] == r.value &&
      forall j :: 0 <= j < i ==> !StartsWith(names[j], letter))
    ensures r.None? <==> forall i :: 0 <= i < |names| ==> |names[i]| == 0 || names[i][0] != letter
  {
    match FirstIndex(names, name => StartsWith(name, letter))
    case None => None
    case Some(i) => Some(names[i])
  }

  /** The name demo: 'C' finds "Carol"; 'Z' finds nothing and prints "(not found)". */
  lemma FindNameExamples()
    ensures FindName(["Alice", "Bob", "Carol", "David"], 'C') == Some("Carol")
    ensures FindName(["Alice", "Bob", "Carol", "David"], 'Z').GetOr("(not found)") == "(not found)"
  {
    var names := ["Alice", "Bob", "Carol", "David"];
    FindFirstIsFirst(names, name => StartsWith(name, 'C'), 2);
    assert forall i :: 0 <= i < |names| ==> names[i][0] != 'Z';
  }

  datatype Player = Player(id: int, name: string, score: int)

  /** The global player list of the search exercise. */
  const Players: seq<Player> := [
    Player(1, "Alice", 100),
    Player(2, "Bob", 85),
    Player(3, "Carol", 92),
    Player(4, "David", 78)
  ]

  /** `find_player_by_id`: the first player with this id. */
  function FindPlayerById(players: seq<Player>, id: int): (r: Option<Player>)
    ensures r.Some? ==> r.value in players && r.value.id == id
    ensures r.Some? ==> exists i :: (0 <= i < |players| && players[i] == r.value &&
      forall j :: 0 <= j < i ==> players[j].id != id)
    ensures r.None? <==> forall i :: 0 <= i < |players| ==> players[i].id != id
  {
    match FirstIndex(players, (p: Player) => p.id == id)
    case None => None
    case Some(i) => Some(players[i])
  }

  /** `find_player_by_min_score`: the first player, in list order, scoring at least `minScore`. */
  function FindPlayerByMinScore(players: seq<Player>, minScore: int): (r: Option<Player>)
    ensures r.Some? ==> r.value in players && r.value.score >= minScore
    ensures r.Some? ==> exists i :: (0 <= i < |players| && players[i] == r.value &&
      forall j :: 0 <= j < i ==> players[j].score < minScore)
    ensures r.None? <==> forall i :: 0 <= i < |players| ==> players[i].score < minScore
  {
    match FirstIndex(players, (p: Player) => p.score >= minScore)
    case None => None
    case Some(i) => Some(players[i])
  }

  /** The demos: id 2 is Bob, id 999 is absent, and Alice is the first to score 90. */
  lemma PlayerExamples()
    ensures FindPlayerById(Players, 2) == Some(Player(2, "Bob", 85))
    ensures FindPlayerById(Players, 999) == None
    ensures FindPlayerByMinScore(Players, 90) == Some(Player(1, "Alice", 100))
  {
    FindFirstIsFirst(Players, (p: Player) => p.id == 2, 1);
  }

  /** `Config::get`: the value of the first pair whose key matches. */
  function ConfigGet(settings: seq<(string, string)>, key: string): (r: Option<string>)
    ensures r.None? <==> forall i :: 0 <= i < |settings| ==> settings[i].0 != key
    ensures r.Some? ==> exists i :: (0 <= i < |settings| && settings[i] == (key, r.value) &&
      forall j :: 0 <= j < i ==> settings[j].0 != key)
  {
    match FirstIndex(settings, (kv: (string, string)) => kv.0 == key)
    case None => None
    case Some(i) => Some(settings[i].1)
  }

  /** The config demo: the width is "1920" and the missing title falls back. */
  lemma ConfigExamples()
    ensures ConfigGet([("width", "1920"), ("height", "1080"), ("fullscreen", "true")], "width") == Some("1920")
    ensures ConfigGet([("width", "1920"), ("height", "1080"), ("fullscreen", "true")], "title")
      .GetOr("Untitled Game") == "Untitled Game"
  {
    var settings := [("width", "1920"), ("height", "1080"), ("fullscreen", "true")];
    assert forall i :: 0 <= i < |settings| ==> settings[i].0 != "title";
  }

  /** `ConfigParser`: an `unordered_map` from keys to values. */
  datatype ConfigParser = ConfigParser(data: map<string, string>)

  const EmptyParser := ConfigParser(map[])

  /** `ConfigParser::get`: the stored value, or `nullopt` for a key never set. */
  function Get(c: ConfigParser, key: string): (r: Option<string>)
    ensures r.Some? <==> key in c.data
  {
    if key in c.data then Some(c.data[key]) else None
  }

  /** `ConfigParser::set`: `data_[key] = value` overwrites, and no other key changes. */
  function Set(c: ConfigParser, key: string, value: string): (r: ConfigParser)
    ensures Get(r, key) == Some(value)
    ensures forall k :: k != key ==> Get(r, k) == Get(c, k)
    ensures r.data.Keys == c.data.Keys + {key}
  {
    ConfigParser(c.data[key := value])
  }

  /** The parser after the writes, applied in order. */
  function SetAll(c: ConfigParser, writes: seq<(string, string)>): ConfigParser
    decreases |writes|
  {
    if |writes| == 0 then c
    else SetAll(Set(c, writes[0].0, writes[0].1), writes[1..])
  }

  /** The value of the last write to `key`, searching from the end. */
  function LastWrite(writes: seq<(string, string)>, key: string): Option<string> {
    if |writes| == 0 then None
    else if writes[|writes| - 1].0 == key then Some(writes[|writes| - 1].1)
    else LastWrite(writes[..|writes| - 1], key)
  }

  /** Writing a sequence of pairs: one more write is one more `set`. */
  lemma {:induction false} SetAllSnoc(c: ConfigParser, writes: seq<(string, string)>, key: string, value: string)
    ensures SetAll(c, writes + [(key, value)]) == Set(SetAll(c, writes), key, value)
    decreases |writes|
  {
    if |writes| == 0 {
      assert writes + [(key, value)] == [(key, value)];
    } else {
      assert (writes + [(key, value)])[1..] == writes[1..] + [(key, value)];
      SetAllSnoc(Set(c, writes[0].0, writes[0].1), writes[1..], key, value);
    }
  }

  /** Last write wins: `get` after a run of `set`s returns the last value written to the key. */
  lemma {:induction false} GetAfterSetAll(writes: seq<(string, string)>, key: string)
    ensures Get(SetAll(EmptyParser, writes), key) == LastWrite(writes, key)
    decreases |writes|
  {
    if |writes| > 0 {
      var init := writes[..|writes| - 1];
      var last := writes[|writes| - 1];
      assert writes == init + [last];
      SetAllSnoc(EmptyParser, init, last.0, last.1);
      GetAfterSetAll(init, key);
    }
  }

  /** First match wins is last write wins on the reversed list. */
  lemma {:induction false} FirstMatchIsLastWrite(settings: seq<(string, string)>, key: string)
    ensures ConfigGet(settings, key) == LastWrite(Seqs.Reverse(settings), key)
    decreases |settings|
  {
    if |settings| > 0 {
      var rev := Seqs.Reverse(settings);
      assert rev[..|rev| - 1] == Seqs.Reverse(settings[1..]);
      FirstMatchIsLastWrite(settings[1..], key);
      if settings[0].0 != key {
        var r := ConfigGet(settings[1..], key);
        if r.Some? {
          var i :| 0 <= i < |settings[1..]| && settings[1..][i] == (key, r.value) &&
            forall j :: 0 <= j < i ==> settings[1..][j].0 != key;
          assert settings[i + 1] == (key, r.value);
          forall j | 0 <= j < i + 1 ensures settings[j].0 != key {
            if j > 0 {
              assert settings[j] == settings[1..][j - 1];
            }
          }
        } else {
          forall j | 0 <= j < |settings| ensures settings[j].0 != key {
            if j > 0 {
              assert settings[j] == settings[1..][j - 1];
            }
          }
        }
      }
    }
  }

  /** `get_bool`: exactly "true" or "false", case-sensitively; anything else is `nullopt`. */
  function GetBool(c: ConfigParser, key: string): (r: Option<bool>)
    ensures r == Some(true) <==> Get(c, key) == Some("true")
    ensures r == Some(false) <==> Get(c, key) == Some("false")
    ensures r.None? <==> Get(c, key).None? || (Get(c, key).value != "true" && Get(c, key).value != "false")
  {
    match Get(c, key)
    case None => None
    case Some(v) => if v == "true" then Some(true) else if v == "false" then Some(false) else None
  }

  /** The settings of the parser exercise, written in order. */
  const ExerciseWrites: seq<(string, string)> := [
    ("game_title", "My Awesome Game"),
    ("screen_width", "1920"),
    ("screen_height", "1080"),
    ("fullscreen", "true"),
    ("invalid_number", "abc")
  ]

  /** The parser demo: the title is set, the developer falls back, fullscreen reads as true. */
  lemma ParserExamples()
    ensures Get(SetAll(EmptyParser, ExerciseWrites), "game_title") == Some("My Awesome Game")
    ensures Get(SetAll(EmptyParser, ExerciseWrites), "developer").GetOr("Unknown Developer") == "Unknown Developer"
    ensures GetBool(SetAll(EmptyParser, ExerciseWrites), "fullscreen") == Some(true)
    ensures GetBool(SetAll(EmptyParser, ExerciseWrites), "invalid_number") == None
  {
    var w := ExerciseWrites;
    GetAfterSetAll(w, "game_title");
    GetAfterSetAll(w, "developer");
    GetAfterSetAll(w, "fullscreen");
    GetAfterSetAll(w, "invalid_number");
    assert w[..4] == w[..|w| - 1];
    assert w[..3] == w[..4][..3];
    assert w[..2] == w[..3][..2];
    assert w[..1] == w[..2][..1];
    assert w[..0] == w[..1][..0];
  }
}
