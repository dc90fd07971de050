/** The rules of the game in game.go: entities with named integer
    attributes, the message log, the level map with its registered
    entities, and the cardinal movement rule with its collision check. The
    map, the log and the entities are passed to Movement as parameters
    where the source reaches them through package variables. */
module Game {
  import opened Bytes
  import opened Utf8

  /** The floor tile, the only tile an entity may step onto. */
  const FLOOR: byte := 0x2E
  /** What GetTile reports for a position off the map. */
  const SPACE: rune := 0x20

  /** An entity: its attributes (position, hit points, armour class,
      strength) and the symbol it is drawn with. */
  class Entity {
    var attributes: map<string, int>
    const symbol: rune

    /** makeEntity: an entity at (x, y) with the starting statistics. */
    constructor (x: int, y: int, symbol: rune)
      ensures this.symbol == symbol
      ensures attributes == map["xpos" := x, "ypos" := y, "HP" := 10, "AC" := 10, "Str" := 5]
    {
      this.symbol := symbol;
      attributes := map["xpos" := x]["ypos" := y]["HP" := 10]["AC" := 10]["Str" := 5];
    }

    /** The value of attribute s; asking for one the entity lacks is a
        panic in the source, so the caller must not. */
    function GetAttribute(s: string): int
      reads this
      requires s in attributes
    {
      attributes[s]
    }

    /** Sets attribute s to i, adding it when missing; every other attribute
        keeps its value, and reading s back gives i. */
    method SetAttribute(s: string, i: int)
      modifies this
      ensures attributes == old(attributes)[s := i]
      ensures s in attributes && GetAttribute(s) == i
      ensures forall k :: k in old(attributes) && k != s ==> k in attributes && GetAttribute(k) == old(attributes)[k]
    {
      attributes := attributes[s := i];
    }
  }

  /** The message log. Location indexes the message on display; the game
      starts it at the last message and every broadcast advances both. */
  class Messages {
    var messages: seq<bytes>
    var location: int

    constructor (messages: seq<bytes>, location: int)
      ensures this.messages == messages && this.location == location
    {
      this.messages := messages;
      this.location := location;
    }

    /** The location points at the newest message. */
    predicate Valid()
      reads this
    {
      location == |messages| - 1
    }

    /** Appends a message and advances the location, which keeps the
        location on the newest message. */
    method Broadcast(mes: bytes)
      modifies this
      ensures messages == old(messages) + [mes] && location == old(location) + 1
      ensures old(Valid()) ==> Valid() && Display() == mes
    {
      messages := messages + [mes];
      location := location + 1;
    }

    /** The message at the location; a location outside the log is an index
        panic in the source. In a valid log it is the newest message. */
    function Display(): (r: bytes)
      reads this
      requires 0 <= location < |messages|
      ensures Valid() ==> r == messages[|messages| - 1]
      ensures r in messages
    {
      messages[location]
    }
  }

  /** The level: its map, one byte per tile and one row per line, and the
      registered entities in registration order. */
  class Level {
    const game: seq<seq<byte>>
    var entities: seq<Entity>

    constructor (game: seq<seq<byte>>)
      ensures this.game == game && entities == []
    {
      this.game := game;
      entities := [];
    }

    /** Adds e after every entity registered so far. */
    method RegisterEntity(e: Entity)
      modifies this
      ensures entities == old(entities) + [e]
    {
      entities := entities + [e];
    }

    /** The registered entities standing on (x, y), in registration order. */
    method GetEntity(x: int, y: int) returns (ret: seq<Entity>)
      requires AllPlaced(entities)
      ensures ret == Occupants(entities, x, y)
    {
      ret := [];
      var i := 0;
      while i < |entities|
        invariant 0 <= i <= |entities|
        invariant AllPlaced(entities[..i])
        invariant ret == Occupants(entities[..i], x, y)
      {
        var e := entities[i];
        assert entities[..i + 1][..i] == entities[..i];
        if e.GetAttribute("xpos") == x && e.GetAttribute("ypos") == y {
          ret := ret + [e];
        }
        i := i + 1;
      }
      assert entities[..i] == entities;
    }
  }

  /** The entity has a position. */
  predicate Placed(e: Entity)
    reads e
  {
    "xpos" in e.attributes && "ypos" in e.attributes
  }

  predicate AllPlaced(es: seq<Entity>)
    reads set e | e in es
  {
    forall i :: 0 <= i < |es| ==> Placed(es[i])
  }

  function Pos(e: Entity): (int, int)
    reads e
    requires Placed(e)
  {
    (e.attributes["xpos"], e.attributes["ypos"])
  }

  /** The entities of es standing on (x, y), in the order of es. */
  function Occupants(es: seq<Entity>, x: int, y: int): (r: seq<Entity>)
    reads set e | e in es
    requires AllPlaced(es)
    ensures |r| <= |es|
    decreases |es|
  {
    if |es| == 0 then []
    else
      var last := es[|es| - 1];
      Occupants(es[..|es| - 1], x, y) + (if Pos(last) == (x, y) then [last] else [])
  }

  /** An entity is among the occupants exactly when it is registered and
      stands on the tile. */
  lemma {:induction false} OccupantsMembers(es: seq<Entity>, x: int, y: int, e: Entity)
    requires AllPlaced(es)
    ensures e in Occupants(es, x, y) <==> e in es && Pos(e) == (x, y)
    decreases |es|
  {
    if |es| > 0 {
      var init := es[..|es| - 1];
      OccupantsMembers(init, x, y, e);
      assert es == init + [es[|es| - 1]];
    }
  }

  /** Filtering keeps the order: the occupants of a concatenation are the
      occupants of the first part followed by those of the second. */
  lemma {:induction false} OccupantsConcat(a: seq<Entity>, b: seq<Entity>, x: int, y: int)
    requires AllPlaced(a) && AllPlaced(b)
    ensures AllPlaced(a + b)
    ensures Occupants(a + b, x, y) == Occupants(a, x, y) + Occupants(b, x, y)
    decreases |b|
  {
    if |b| == 0 {
      assert a + b == a;
    } else {
      var init := b[..|b| - 1];
      OccupantsConcat(a, init, x, y);
      assert (a + b)[..|a + b| - 1] == a + init;
    }
  }

  /** Registering an entity adds it to the occupants of its own tile and
      of no other. */
  lemma RegisterOccupants(es: seq<Entity>, e: Entity, x: int, y: int)
    requires AllPlaced(es) && Placed(e)
    ensures AllPlaced(es + [e])
    ensures Occupants(es + [e], x, y) == Occupants(es, x, y) + (if Pos(e) == (x, y) then [e] else [])
  {
    OccupantsConcat(es, [e], x, y);
    assert Occupants([e], x, y) == Occupants([], x, y) + (if Pos(e) == (x, y) then [e] else []);
  }

  /** No entity of es stands on t. */
  predicate Nobody(es: seq<Entity>, t: (int, int))
    reads set e | e in es
    requires AllPlaced(es)
  {
    forall i :: 0 <= i < |es| ==> Pos(es[i]) != t
  }

  /** A tile has no occupants exactly when nobody stands on it. */
  lemma OccupantsEmpty(es: seq<Entity>, t: (int, int))
    requires AllPlaced(es)
    ensures Occupants(es, t.0, t.1) == [] <==> Nobody(es, t)
  {
    if Occupants(es, t.0, t.1) == [] {
      forall i | 0 <= i < |es|
        ensures Pos(es[i]) != t
      {
        OccupantsMembers(es, t.0, t.1, es[i]);
      }
    } else {
      OccupantsMembers(es, t.0, t.1, Occupants(es, t.0, t.1)[0]);
    }
  }

  /** No two different entities share a tile. */
  predicate Apart(es: seq<Entity>)
    reads set e | e in es
    requires AllPlaced(es)
  {
    forall i, j :: 0 <= i < |es| && 0 <= j < |es| && es[i] != es[j] ==> Pos(es[i]) != Pos(es[j])
  }

  /** GetTile with the column bound of the row asked for: a position on
      the map gives its tile and true, any other gives a space and false. */
  function GetTile(game: seq<seq<byte>>, x: int, y: int): (r: (rune, bool))
    ensures r.1 <==> 0 <= y < |game| && 0 <= x < |game[y]|
    ensures r.1 ==> r.0 == game[y][x]
    ensures !r.1 ==> r.0 == SPACE
  {
    if y < 0 || x < 0 then (SPACE, false)
    else if y > |game| - 1 || x > |game[y]| - 1 then (SPACE, false)
    else (game[y][x], true)
  }

  /** GetTile as written: the column bound is taken from row 0 for every
      row. None stands for the index panic that follows when the guard
      lets through a column past the end of a shorter row. */
  function GetTileAsWritten(game: seq<seq<byte>>, x: int, y: int): (r: Option<(rune, bool)>)
    ensures r.None? <==> 0 <= y < |game| && |game[y]| <= x < |game[0]|
  {
    if y < 0 || x < 0 then Some((SPACE, false))
    else if y > |game| - 1 || x > |game[0]| - 1 then Some((SPACE, false))
    else if x < |game[y]| then Some((game[y][x], true))
    else None
  }

  /** Every row is as long as the first. */
  predicate Rectangular(game: seq<seq<byte>>) {
    forall y :: 0 <= y < |game| ==> |game[y]| == |game[0]|
  }

  /** On a rectangular map the bound as written and the corrected bound
      give the same answer everywhere. */
  lemma AsWrittenOnRectangle(game: seq<seq<byte>>, x: int, y: int)
    requires Rectangular(game)
    ensures GetTileAsWritten(game, x, y) == Some(GetTile(game, x, y))
  {
  }

  /** A map whose second row is shorter than its first: the guard as
      written accepts (1, 1) and the read runs past the end of row 1. */
  lemma RaggedMapPanics()
    ensures GetTileAsWritten([[FLOOR, FLOOR], [FLOOR]], 1, 1).None?
    ensures GetTile([[FLOOR, FLOOR], [FLOOR]], 1, 1) == (SPACE, false)
  {
  }

  /** The tile a movement choice aims at from (x, y): 1 up, 2 down, 3 left,
      4 right. Any other choice aims at the entity's own tile. */
  function Target(choice: int, x: int, y: int): (t: (int, int))
    ensures 1 <= choice <= 4 ==> Adjacent((x, y), t)
    ensures !(1 <= choice <= 4) ==> t == (x, y)
  {
    match choice
    case 1 => (x, y - 1)
    case 2 => (x, y + 1)
    case 3 => (x - 1, y)
    case 4 => (x + 1, y)
    case _ => (x, y)
  }

  /** p and q are neighbours along a row or a column. */
  predicate Adjacent(p: (int, int), q: (int, int)) {
    (p.0 == q.0 && (q.1 == p.1 + 1 || q.1 == p.1 - 1))
    || (p.1 == q.1 && (q.0 == p.0 + 1 || q.0 == p.0 - 1))
  }

  /** A tile an entity may step onto: on the map and floor. */
  predicate Walkable(game: seq<seq<byte>>, t: (int, int)) {
    GetTile(game, t.0, t.1) == (FLOOR as rune, true)
  }

  /** " bumped " in ASCII. */
  const BUMPED: bytes := [0x20, 0x62, 0x75, 0x6D, 0x70, 0x65, 0x64, 0x20]

  /** The message for entity s bumping into entity t: the two symbols in
      UTF-8 around " bumped ", and a full stop. */
  function BumpMessage(s: rune, t: rune): (r: bytes)
    ensures |r| >= 10 && r[|r| - 1] == 0x2E
  {
    EncodeRune(s) + BUMPED + EncodeRune(t) + [0x2E]
  }

  /** The message starts with the mover's symbol, which reads back as that
      symbol. */
  lemma BumpNamesMover(s: rune, t: rune)
    requires ValidRune(s)
    ensures DecodeRune(BumpMessage(s, t)) == (s, |EncodeRune(s)|)
  {
    var rest := BUMPED + EncodeRune(t) + [0x2E];
    DecodeEncode(s, rest);
    assert BumpMessage(s, t) == EncodeRune(s) + rest;
  }

  /** What one movement does: nothing, a bump into another entity, or a
      step onto a tile. */
  datatype Outcome = Stay | Bump(other: Entity) | StepTo(x: int, y: int)

  /** The outcome of choice for e: 5 does nothing; otherwise the entity
      steps to the target when it is a floor tile nobody stands on, and
      bumps into the first registered occupant when there is one. */
  function Decide(level: Level, e: Entity, choice: int): (r: Outcome)
    reads level, e, set o | o in level.entities
    requires Placed(e) && AllPlaced(level.entities)
    ensures choice == 5 ==> r == Stay
    ensures var p := Pos(e); var t := Target(choice, p.0, p.1);
      r != Stay <==> choice != 5 && Walkable(level.game, t)
    ensures var p := Pos(e); var t := Target(choice, p.0, p.1);
      r.Bump? ==> r.other in level.entities && Pos(r.other) == t
    ensures var p := Pos(e); var t := Target(choice, p.0, p.1);
      r.Bump? ==> |Occupants(level.entities, t.0, t.1)| > 0 && r.other == Occupants(level.entities, t.0, t.1)[0]
    ensures var p := Pos(e); var t := Target(choice, p.0, p.1);
      r.StepTo? ==> (r.x, r.y) == t && Nobody(level.entities, t)
    ensures 1 <= choice <= 4 && r.StepTo? ==> Adjacent(Pos(e), (r.x, r.y))
  {
    var p := Pos(e);
    var t := Target(choice, p.0, p.1);
    if choice == 5 || !Walkable(level.game, t) then Stay
    else
      var others := Occupants(level.entities, t.0, t.1);
      OccupantsEmpty(level.entities, t);
      if others != [] then
        OccupantsMembers(level.entities, t.0, t.1, others[0]);
        Bump(others[0])
      else StepTo(t.0, t.1)
  }

  /** Moves e onto (x, y), which no registered entity occupies: only its
      position changes, and no two entities end up sharing a tile. */
  method StepEntity(level: Level, e: Entity, x: int, y: int)
    requires Placed(e) && AllPlaced(level.entities) && Nobody(level.entities, (x, y))
    modifies e
    ensures e.attributes == old(e.attributes)["xpos" := x]["ypos" := y]
    ensures AllPlaced(level.entities)
    ensures old(Apart(level.entities)) ==> Apart(level.entities)
  {
    e.SetAttribute("xpos", x);
    e.SetAttribute("ypos", y);
  }

  /** Movement(e) picking choice: it does what Decide says, logging a
      bump, and keeps registered entities on different tiles. */
  method Movement(level: Level, log: Messages, e: Entity, choice: int)
    requires Placed(e) && AllPlaced(level.entities)
    modifies e, log
    ensures Placed(e) && AllPlaced(level.entities)
    ensures match old(Decide(level, e, choice))
      case Stay => unchanged(e, log)
      case Bump(o) =>
        unchanged(e) && log.messages == old(log.messages) + [BumpMessage(e.symbol, o.symbol)]
        && log.location == old(log.location) + 1
      case StepTo(x, y) => e.attributes == old(e.attributes)["xpos" := x]["ypos" := y] && unchanged(log)
    ensures old(Apart(level.entities)) ==> Apart(level.entities)
  {
    var x := e.GetAttribute("xpos");
    var y := e.GetAttribute("ypos");
    if choice == 1 {
      y := y - 1;
    } else if choice == 2 {
      y := y + 1;
    } else if choice == 3 {
      x := x - 1;
    } else if choice == 4 {
      x := x + 1;
    }
    if choice != 5 {
      MoveOnto(level, log, e, choice, x, y);
    }
  }

  /** The rest of Movement once the target (x, y) of a choice other than 5
      is known: bump into its first occupant, or step onto it when it is
      free floor. */
  method MoveOnto(level: Level, log: Messages, e: Entity, choice: int, x: int, y: int)
    requires Placed(e) && AllPlaced(level.entities)
    requires choice != 5 && (x, y) == Target(choice, Pos(e).0, Pos(e).1)
    modifies e, log
    ensures Placed(e) && AllPlaced(level.entities)
    ensures match old(Decide(level, e, choice))
      case Stay => unchanged(e, log)
      case Bump(o) =>
        unchanged(e) && log.messages == old(log.messages) + [BumpMessage(e.symbol, o.symbol)]
        && log.location == old(log.location) + 1
      case StepTo(x, y) => e.attributes == old(e.attributes)["xpos" := x]["ypos" := y] && unchanged(log)
    ensures old(Apart(level.entities)) ==> Apart(level.entities)
  {
    ghost var d := Decide(level, e, choice);
    var tile := GetTile(level.game, x, y);
    if tile.1 && tile.0 == FLOOR as rune {
      var others := level.GetEntity(x, y);
      if others != [] {
        assert d == Bump(others[0]);
        log.Broadcast(BumpMessage(e.symbol, others[0].symbol));
      } else {
        assert d == StepTo(x, y);
        StepEntity(level, e, x, y);
      }
    }
  }
}
