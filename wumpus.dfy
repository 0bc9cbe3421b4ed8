/**
 * Hunt the Wumpus of Lab 4: a cave of twenty rooms shaped as a
 * dodecahedron, the placement of the hazards, and the moves of the player,
 * the arrow and the wumpus. Every random draw of the source is a parameter
 * here: an index into the list the source draws from, or a boolean for the
 * wumpus's three-in-four chance of waking after a miss.
 */
module Wumpus {

  /** The three tunnels out of room `r`, as `CAVE` lists them. */
  function Tunnels(r: int): seq<int>
    requires IsRoom(r)
  {
    match r
    case 1 => [2, 5, 8]
    case 2 => [1, 3, 10]
    case 3 => [2, 4, 12]
    case 4 => [3, 5, 14]
    case 5 => [1, 4, 6]
    case 6 => [5, 7, 15]
    case 7 => [6, 8, 17]
    case 8 => [1, 7, 9]
    case 9 => [8, 10, 18]
    case 10 => [2, 9, 11]
    case 11 => [10, 12, 19]
    case 12 => [3, 11, 13]
    case 13 => [12, 14, 20]
    case 14 => [4, 13, 15]
    case 15 => [6, 14, 16]
    case 16 => [15, 17, 20]
    case 17 => [7, 16, 18]
    case 18 => [9, 17, 19]
    case 19 => [11, 18, 20]
    case 20 => [13, 16, 19]
  }

  /** `CAVE`: the map from every room to its tunnels. */
  const Cave: map<int, seq<int>> := map r | 1 <= r <= 20 :: Tunnels(r)

  /** `list(CAVE.keys())`: the rooms in the order the map lists them. */
  const Rooms: seq<int> := [1, 2, 3, 4, 5, 6, 7, 8, 9, 10, 11, 12, 13, 14, 15, 16, 17, 18, 19, 20]

  predicate IsRoom(r: int) {
    1 <= r <= 20
  }

  predicate Distinct(s: seq<int>) {
    forall i, j | 0 <= i < j < |s| :: s[i] != s[j]
  }

  /** The cave has the rooms 1 to 20, listed once each by `Rooms`. */
  lemma CaveRooms()
    ensures forall r :: r in Cave <==> IsRoom(r)
    ensures forall r :: r in Rooms <==> r in Cave
    ensures |Rooms| == 20 && Distinct(Rooms)
  {
    forall r | IsRoom(r) ensures r in Cave && r in Rooms {
      assert Rooms[r - 1] == r;
    }
  }

  /** Every room has three different neighbours, each a room of the cave. */
  lemma CaveTunnels()
    ensures forall r | r in Cave :: |Cave[r]| == 3 && Distinct(Cave[r])
    ensures forall r, n | r in Cave && n in Cave[r] :: n in Cave && n != r
  {
  }

  /** Every tunnel runs both ways. */
  lemma CaveSymmetric()
    ensures forall r, n | r in Cave && n in Cave[r] :: n in Cave && r in Cave[n]
  {
    CaveRooms();
    forall r | r in Cave ensures forall n | n in Cave[r] :: n in Cave && r in Cave[n] {
      TunnelsBack(r);
    }
  }

  /** The tunnels out of room `r` all lead back to it. */
  lemma TunnelsBack(r: int)
    requires IsRoom(r)
    ensures r in Cave && |Cave[r]| == 3
    ensures forall k | 0 <= k < 3 :: Cave[r][k] in Cave && r in Cave[Cave[r][k]]
  {
    if r == 1 {
      assert Cave[1] == [2, 5, 8];
    } else if r == 2 {
      assert Cave[2] == [1, 3, 10];
    } else if r == 3 {
      assert Cave[3] == [2, 4, 12];
    } else if r == 4 {
      assert Cave[4] == [3, 5, 14];
    } else if r == 5 {
      assert Cave[5] == [1, 4, 6];
    } else if r == 6 {
      assert Cave[6] == [5, 7, 15];
    } else if r == 7 {
      assert Cave[7] == [6, 8, 17];
    } else if r == 8 {
      assert Cave[8] == [1, 7, 9];
    } else if r == 9 {
      assert Cave[9] == [8, 10, 18];
    } else if r == 10 {
      assert Cave[10] == [2, 9, 11];
    } else if r == 11 {
      assert Cave[11] == [10, 12, 19];
    } else if r == 12 {
      assert Cave[12] == [3, 11, 13];
    } else if r == 13 {
      assert Cave[13] == [12, 14, 20];
    } else if r == 14 {
      assert Cave[14] == [4, 13, 15];
    } else if r == 15 {
      assert Cave[15] == [6, 14, 16];
    } else if r == 16 {
      assert Cave[16] == [15, 17, 20];
    } else if r == 17 {
      assert Cave[17] == [7, 16, 18];
    } else if r == 18 {
      assert Cave[18] == [9, 17, 19];
    } else if r == 19 {
      assert Cave[19] == [11, 18, 20];
    } else if r == 20 {
      assert Cave[20] == [13, 16, 19];
    }
  }

  /** The fields of a `WumpusGame`. */
  datatype World = World(
    player: int,
    wumpus: int,
    pits: set<int>,
    bats: set<int>,
    arrows: int,
    gameOver: bool,
    victory: bool)

  /** What every move keeps: everyone stands in a room, and a win always ends the game. */
  predicate WorldOk(w: World) {
    && w.player in Cave
    && w.wumpus in Cave
    && (forall r | r in w.pits :: r in Cave)
    && (forall r | r in w.bats :: r in Cave)
    && (w.victory ==> w.gameOver)
    && w.arrows >= 0
  }

  // ----- reset_game -----

  /** The list comprehension `[r for r in rooms if r not in hazards]`. */
  function Outside(rooms: seq<int>, hazards: set<int>): seq<int> {
    if rooms == [] then []
    else if rooms[0] in hazards then Outside(rooms[1..], hazards)
    else [rooms[0]] + Outside(rooms[1..], hazards)
  }

  /** The filter keeps exactly the rooms of the list that are not hazards. */
  lemma {:induction false} OutsideHas(rooms: seq<int>, hazards: set<int>)
    ensures forall x :: x in Outside(rooms, hazards) <==> x in rooms && x !in hazards
  {
    if rooms != [] {
      OutsideHas(rooms[1..], hazards);
      assert forall x :: x in rooms <==> x == rooms[0] || x in rooms[1..];
    }
  }

  /** Filtering a list without repeats gives a list without repeats. */
  lemma {:induction false} OutsideDistinct(rooms: seq<int>, hazards: set<int>)
    requires Distinct(rooms)
    ensures Distinct(Outside(rooms, hazards))
  {
    if rooms != [] {
      assert Distinct(rooms[1..]) by {
        forall i, j | 0 <= i < j < |rooms| - 1 ensures rooms[1..][i] != rooms[1..][j] {
          assert rooms[1..][i] == rooms[i + 1] && rooms[1..][j] == rooms[j + 1];
        }
      }
      OutsideDistinct(rooms[1..], hazards);
      OutsideHas(rooms[1..], hazards);
      if rooms[0] !in hazards {
        var t := Outside(rooms[1..], hazards);
        assert rooms[0] !in rooms[1..] by {
          forall k | 0 <= k < |rooms| - 1 ensures rooms[1..][k] != rooms[0] {
            assert rooms[1..][k] == rooms[k + 1];
          }
        }
        assert Outside(rooms, hazards) == [rooms[0]] + t;
      }
    }
  }

  /** A room the list does not hold makes no difference as a hazard. */
  lemma {:induction false} OutsideIgnores(rooms: seq<int>, hazards: set<int>, x: int)
    requires x !in rooms
    ensures Outside(rooms, hazards) == Outside(rooms, hazards - {x})
  {
    if rooms != [] {
      OutsideIgnores(rooms[1..], hazards, x);
    }
  }

  /** The filter drops exactly one entry per hazard when the hazards are rooms of a list without repeats. */
  lemma {:induction false} OutsideSize(rooms: seq<int>, hazards: set<int>)
    requires Distinct(rooms)
    requires forall h | h in hazards :: h in rooms
    ensures |Outside(rooms, hazards)| == |rooms| - |hazards|
  {
    if rooms == [] {
      assert forall h :: h !in hazards;
      assert hazards == {};
    } else {
      var a, t := rooms[0], rooms[1..];
      assert Distinct(t) by {
        forall i, j | 0 <= i < j < |t| ensures t[i] != t[j] {
          assert t[i] == rooms[i + 1] && t[j] == rooms[j + 1];
        }
      }
      assert a !in t by {
        forall k | 0 <= k < |t| ensures t[k] != a {
          assert t[k] == rooms[k + 1];
        }
      }
      if a in hazards {
        OutsideIgnores(t, hazards, a);
        OutsideSize(t, hazards - {a});
      } else {
        OutsideSize(t, hazards);
      }
    }
  }

  /** The random draws of `reset_game`: one index per `random.choice`, two different ones per `random.sample(..., 2)`. */
  datatype Picks = Picks(wumpus: nat, pit1: nat, pit2: nat, bat1: nat, bat2: nat, player: nat)

  /** What the draws can be: positions in the lists of 20, 19, 17 and 15 free rooms. */
  predicate PicksOk(p: Picks) {
    && p.wumpus < 20
    && p.pit1 < 19 && p.pit2 < 19 && p.pit1 != p.pit2
    && p.bat1 < 17 && p.bat2 < 17 && p.bat1 != p.bat2
    && p.player < 15
  }

  /** The rooms are the numbers 1 to 20 in order. */
  lemma RoomsInOrder()
    ensures |Rooms| == 20 && forall k | 0 <= k < 20 :: Rooms[k] == k + 1
  {
  }

  /** The rooms not taken yet: one fewer per taken room, without repeats, all rooms of the cave. */
  lemma FreeRooms(taken: set<int>)
    requires forall r | r in taken :: IsRoom(r)
    ensures |Outside(Rooms, taken)| == 20 - |taken|
    ensures Distinct(Outside(Rooms, taken))
    ensures forall r :: r in Outside(Rooms, taken) <==> IsRoom(r) && r !in taken
  {
    RoomsInOrder();
    forall r | IsRoom(r) ensures r in Rooms {
      assert Rooms[r - 1] == r;
    }
    OutsideSize(Rooms, taken);
    OutsideDistinct(Rooms, taken);
    OutsideHas(Rooms, taken);
  }

  /** `random.sample(pool, 2)` drawing positions `i` and `j`. */
  function Pair(pool: seq<int>, i: nat, j: nat): set<int>
    requires i < |pool| && j < |pool|
  {
    {pool[i], pool[j]}
  }

  /** Two different draws among the free rooms give two rooms, neither of them taken before. */
  lemma DrawTwo(taken: set<int>, i: nat, j: nat)
    requires forall r | r in taken :: IsRoom(r)
    requires i < 20 - |taken| && j < 20 - |taken| && i != j
    ensures |Outside(Rooms, taken)| == 20 - |taken|
    ensures var two := Pair(Outside(Rooms, taken), i, j);
      && |two| == 2 && two !! taken && |taken + two| == |taken| + 2
      && forall r | r in two :: IsRoom(r)
  {
    FreeRooms(taken);
    var pool := Outside(Rooms, taken);
    assert pool[i] != pool[j];
    assert pool[i] in pool && pool[j] in pool;
  }

  /** One draw among the free rooms gives a room not taken before. */
  lemma DrawOne(taken: set<int>, k: nat)
    requires forall r | r in taken :: IsRoom(r)
    requires k < 20 - |taken|
    ensures |Outside(Rooms, taken)| == 20 - |taken|
    ensures IsRoom(Outside(Rooms, taken)[k]) && Outside(Rooms, taken)[k] !in taken
  {
    FreeRooms(taken);
    assert Outside(Rooms, taken)[k] in Outside(Rooms, taken);
  }

  /** The game `reset_game` sets up. */
  function Reset(p: Picks): World
    requires PicksOk(p)
  {
    RoomsInOrder();
    var wumpus := Rooms[p.wumpus];
    DrawTwo({wumpus}, p.pit1, p.pit2);
    var pits := Pair(Outside(Rooms, {wumpus}), p.pit1, p.pit2);
    DrawTwo({wumpus} + pits, p.bat1, p.bat2);
    var bats := Pair(Outside(Rooms, {wumpus} + pits), p.bat1, p.bat2);
    DrawOne({wumpus} + pits + bats, p.player);
    World(Outside(Rooms, {wumpus} + pits + bats)[p.player], wumpus, pits, bats, 5, false, false)
  }

  /** A reset puts the wumpus, two pits, two bats and the player in six different rooms, with five arrows. */
  lemma ResetApart(p: Picks)
    requires PicksOk(p)
    ensures var w := Reset(p);
      && WorldOk(w) && |w.pits| == 2 && |w.bats| == 2
      && w.wumpus !in w.pits && w.wumpus !in w.bats && w.pits !! w.bats
      && w.player != w.wumpus && w.player !in w.pits && w.player !in w.bats
      && w.arrows == 5 && !w.gameOver && !w.victory
  {
    RoomsInOrder();
    CaveRooms();
    var wumpus := Rooms[p.wumpus];
    DrawTwo({wumpus}, p.pit1, p.pit2);
    var pits := Pair(Outside(Rooms, {wumpus}), p.pit1, p.pit2);
    DrawTwo({wumpus} + pits, p.bat1, p.bat2);
    var bats := Pair(Outside(Rooms, {wumpus} + pits), p.bat1, p.bat2);
    DrawOne({wumpus} + pits + bats, p.player);
  }

  /** Any two free rooms are what some pair of different draws gives. */
  lemma CanDrawTwo(taken: set<int>, a: int, b: int) returns (i: nat, j: nat)
    requires forall r | r in taken :: IsRoom(r)
    requires IsRoom(a) && IsRoom(b) && a != b && a !in taken && b !in taken
    ensures |Outside(Rooms, taken)| == 20 - |taken|
    ensures i < 20 - |taken| && j < 20 - |taken| && i != j
    ensures Pair(Outside(Rooms, taken), i, j) == {a, b}
  {
    FreeRooms(taken);
    var pool := Outside(Rooms, taken);
    i :| 0 <= i < |pool| && pool[i] == a;
    j :| 0 <= j < |pool| && pool[j] == b;
  }

  /** Any free room is what some draw gives. */
  lemma CanDrawOne(taken: set<int>, r: int) returns (k: nat)
    requires forall h | h in taken :: IsRoom(h)
    requires IsRoom(r) && r !in taken
    ensures |Outside(Rooms, taken)| == 20 - |taken|
    ensures k < 20 - |taken| && Outside(Rooms, taken)[k] == r
  {
    FreeRooms(taken);
    k :| 0 <= k < |Outside(Rooms, taken)| && Outside(Rooms, taken)[k] == r;
  }

  /** Every placement of six different rooms is one some draw produces: a reset can start any game. */
  lemma ResetReachesEvery(wumpus: int, pit1: int, pit2: int, bat1: int, bat2: int, player: int)
    requires IsRoom(wumpus) && IsRoom(pit1) && IsRoom(pit2) && IsRoom(bat1) && IsRoom(bat2) && IsRoom(player)
    requires pit1 != pit2 && bat1 != bat2 && wumpus !in {pit1, pit2, bat1, bat2, player}
    requires {pit1, pit2} !! {bat1, bat2, player} && player !in {bat1, bat2}
    ensures exists p :: PicksOk(p) && Reset(p) == World(player, wumpus, {pit1, pit2}, {bat1, bat2}, 5, false, false)
  {
    RoomsInOrder();
    hide Outside, Pair, Tunnels;
    var pits, bats := {pit1, pit2}, {bat1, bat2};
    var i1, i2 := CanDrawTwo({wumpus}, pit1, pit2);
    var j1, j2 := CanDrawTwo({wumpus} + pits, bat1, bat2);
    var k := CanDrawOne({wumpus} + pits + bats, player);
    var p := Picks(wumpus - 1, i1, i2, j1, j2, k);
    assert Rooms[p.wumpus] == wumpus;
    assert PicksOk(p);
    assert Reset(p) == World(player, wumpus, pits, bats, 5, false, false);
  }

  // ----- adjacent_hazards -----

  /** The three warnings, one per kind of hazard. */
  datatype Warning = Stench | Breeze | Rustling

  /** The warnings one neighbouring room gives, in the order wumpus, pit, bat. */
  function WarningsAt(n: int, wumpus: int, pits: set<int>, bats: set<int>): seq<Warning> {
    (if n == wumpus then [Stench] else [])
    + (if n in pits then [Breeze] else [])
    + (if n in bats then [Rustling] else [])
  }

  /** The warnings of a list of neighbours, neighbour by neighbour. */
  function Warnings(tunnels: seq<int>, wumpus: int, pits: set<int>, bats: set<int>): seq<Warning> {
    if tunnels == [] then []
    else Warnings(tunnels[..|tunnels| - 1], wumpus, pits, bats) + WarningsAt(tunnels[|tunnels| - 1], wumpus, pits, bats)
  }

  /** How many entries of `s` lie in `set`. */
  function Hits(s: seq<int>, hazards: set<int>): (r: nat)
    ensures r <= |s|
  {
    if s == [] then 0 else Hits(s[..|s| - 1], hazards) + (if s[|s| - 1] in hazards then 1 else 0)
  }

  /** One warning of a kind per neighbour holding that hazard. */
  lemma {:induction false} WarningsCount(tunnels: seq<int>, wumpus: int, pits: set<int>, bats: set<int>)
    ensures var ws := multiset(Warnings(tunnels, wumpus, pits, bats));
      && ws[Stench] == Hits(tunnels, {wumpus})
      && ws[Breeze] == Hits(tunnels, pits)
      && ws[Rustling] == Hits(tunnels, bats)
      && |Warnings(tunnels, wumpus, pits, bats)| == Hits(tunnels, {wumpus}) + Hits(tunnels, pits) + Hits(tunnels, bats)
  {
    if tunnels != [] {
      var init, last := tunnels[..|tunnels| - 1], tunnels[|tunnels| - 1];
      WarningsCount(init, wumpus, pits, bats);
      WarningsAtCount(last, wumpus, pits, bats);
      assert multiset(Warnings(tunnels, wumpus, pits, bats))
          == multiset(Warnings(init, wumpus, pits, bats)) + multiset(WarningsAt(last, wumpus, pits, bats));
    }
  }

  /** The warnings of one room: one per hazard it holds. */
  lemma WarningsAtCount(n: int, wumpus: int, pits: set<int>, bats: set<int>)
    ensures var ws := multiset(WarningsAt(n, wumpus, pits, bats));
      && ws[Stench] == (if n == wumpus then 1 else 0)
      && ws[Breeze] == (if n in pits then 1 else 0)
      && ws[Rustling] == (if n in bats then 1 else 0)
      && |WarningsAt(n, wumpus, pits, bats)| == ws[Stench] + ws[Breeze] + ws[Rustling]
  {
  }

  /** Where the hazards are in different rooms, a room gives at most one warning. */
  lemma {:induction false} HitsDisjoint(tunnels: seq<int>, wumpus: int, pits: set<int>, bats: set<int>)
    requires wumpus !in pits && wumpus !in bats && pits !! bats
    ensures Hits(tunnels, {wumpus}) + Hits(tunnels, pits) + Hits(tunnels, bats) <= |tunnels|
  {
    if tunnels != [] {
      HitsDisjoint(tunnels[..|tunnels| - 1], wumpus, pits, bats);
    }
  }

  /** `Hits` is zero exactly when no entry lies in the set. */
  lemma {:induction false} HitsNone(s: seq<int>, hazards: set<int>)
    ensures Hits(s, hazards) == 0 <==> forall x | x in s :: x !in hazards
  {
    if s != [] {
      HitsNone(s[..|s| - 1], hazards);
      assert s == s[..|s| - 1] + [s[|s| - 1]];
      assert forall x :: x in s <==> x in s[..|s| - 1] || x == s[|s| - 1];
    }
  }

  /**
   * A warning of each kind exactly when a neighbour holds that hazard, and
   * with the hazards apart no more warnings than neighbours: three at most.
   */
  lemma WarningsSound(w: World)
    requires WorldOk(w)
    ensures var ws := Warnings(Cave[w.player], w.wumpus, w.pits, w.bats);
      && (Stench in ws <==> w.wumpus in Cave[w.player])
      && (Breeze in ws <==> exists n | n in Cave[w.player] :: n in w.pits)
      && (Rustling in ws <==> exists n | n in Cave[w.player] :: n in w.bats)
      && (w.wumpus !in w.pits && w.wumpus !in w.bats && w.pits !! w.bats ==> |ws| <= 3)
  {
    var t := Cave[w.player];
    CaveTunnels();
    WarningsCount(t, w.wumpus, w.pits, w.bats);
    HitsNone(t, {w.wumpus});
    HitsNone(t, w.pits);
    HitsNone(t, w.bats);
    if w.wumpus !in w.pits && w.wumpus !in w.bats && w.pits !! w.bats {
      HitsDisjoint(t, w.wumpus, w.pits, w.bats);
    }
  }

  // ----- move_player -----

  /** The player walks to `room`; `drop` is the draw of `random.choice(list(CAVE.keys()))` when a bat carries them off. */
  function Move(w: World, room: int, drop: nat): World
    requires w.player in Cave && drop < 20
  {
    if room !in Cave[w.player] then w
    else if room == w.wumpus || room in w.pits then w.(player := room, gameOver := true)
    else if room in w.bats then
      var dropped := Rooms[drop];
      if dropped == w.wumpus || dropped in w.pits then w.(player := dropped, gameOver := true)
      else w.(player := dropped)
    else w.(player := room)
  }

  /**
   * A room that is not a neighbour changes nothing. Otherwise the player
   * ends in that room, or where the bat drops them; the game ends exactly
   * when that last room holds the wumpus or a pit; nothing else changes and
   * a move never wins.
   */
  lemma MoveOutcome(w: World, room: int, drop: nat)
    requires WorldOk(w) && drop < 20
    ensures var w' := Move(w, room, drop);
      && (room !in Cave[w.player] ==> w' == w)
      && (room in Cave[w.player] ==>
            && w'.player == (if room in w.bats && room != w.wumpus && room !in w.pits then Rooms[drop] else room)
            && (w'.gameOver <==> w.gameOver || w'.player == w.wumpus || w'.player in w.pits))
      && w'.wumpus == w.wumpus && w'.pits == w.pits && w'.bats == w.bats
      && w'.arrows == w.arrows && w'.victory == w.victory
      && WorldOk(w')
  {
    CaveRooms();
    CaveTunnels();
  }

  // ----- move_wumpus -----

  /** The wumpus wakes and walks down tunnel `pick` (the draw of `random.choice(CAVE[wumpus])`). */
  function WumpusMove(w: World, pick: nat): World
    requires w.wumpus in Cave && pick < 3
  {
    CaveTunnels();
    var room := Cave[w.wumpus][pick];
    w.(wumpus := room, gameOver := if room == w.player then true else w.gameOver)
  }

  /** The wumpus moves to a neighbour of its room and ends the game when that is the player's room; each neighbour can be drawn. */
  lemma WumpusMoveOutcome(w: World, pick: nat)
    requires WorldOk(w) && pick < 3
    ensures var w' := WumpusMove(w, pick);
      && w'.wumpus in Cave[w.wumpus]
      && (w'.gameOver <==> w.gameOver || w'.wumpus == w.player)
      && w'.player == w.player && w'.pits == w.pits && w'.bats == w.bats
      && w'.arrows == w.arrows && w'.victory == w.victory
      && WorldOk(w')
    ensures forall n | n in Cave[w.wumpus] :: exists k | 0 <= k < 3 :: WumpusMove(w, k).wumpus == n
  {
    CaveTunnels();
    forall n | n in Cave[w.wumpus] ensures exists k | 0 <= k < 3 :: WumpusMove(w, k).wumpus == n {
      var k :| 0 <= k < 3 && Cave[w.wumpus][k] == n;
      assert WumpusMove(w, k).wumpus == n;
    }
  }

  // ----- shoot_arrow -----

  /** One leg of the arrow: the requested room when a tunnel leads there, else tunnel `pick` (a ricochet). */
  function Hop(from: int, to: int, pick: nat): int
    requires from in Cave && pick < 3
  {
    CaveTunnels();
    if to in Cave[from] then to else Cave[from][pick]
  }

  /** The ricochet draws, one per leg of the path. */
  predicate PicksFit(path: seq<int>, picks: seq<nat>) {
    |picks| == |path| && forall i | 0 <= i < |picks| :: picks[i] < 3
  }

  /**
   * The rooms the arrow passes through, leg by leg: as many as the path
   * names, each a neighbour of the one before, and the named room
   * wherever a tunnel leads there.
   */
  function Flight(from: int, path: seq<int>, picks: seq<nat>): (r: seq<int>)
    requires from in Cave && PicksFit(path, picks)
    ensures |r| == |path|
    ensures forall i | 0 <= i < |r| :: r[i] in Cave
    ensures |r| > 0 ==> r[0] in Cave[from]
    ensures forall i | 0 < i < |r| :: r[i] in Cave[r[i - 1]]
    ensures forall i | 0 <= i < |r| :: r[i] == Hop(if i == 0 then from else r[i - 1], path[i], picks[i])
    decreases |path|
  {
    CaveTunnels();
    if path == [] then []
    else
      var next := Hop(from, path[0], picks[0]);
      var rest := Flight(next, path[1..], picks[1..]);
      assert forall i | 0 < i < |path| :: path[1..][i - 1] == path[i] && picks[1..][i - 1] == picks[i];
      [next] + rest
  }

  /** How a shot ends. */
  datatype Shot = Hit | Backfire | Missed

  /** The arrow stops in the first room holding the wumpus (a hit) or the player (a backfire), and otherwise misses. */
  function Outcome(rooms: seq<int>, wumpus: int, player: int): Shot {
    if rooms == [] then Missed
    else if rooms[0] == wumpus then Hit
    else if rooms[0] == player then Backfire
    else Outcome(rooms[1..], wumpus, player)
  }

  /** Extending a flight that has not stopped: the new room decides. */
  lemma {:induction false} OutcomeSnoc(rooms: seq<int>, x: int, wumpus: int, player: int)
    requires Outcome(rooms, wumpus, player) == Missed
    ensures Outcome(rooms + [x], wumpus, player) == (if x == wumpus then Hit else if x == player then Backfire else Missed)
  {
    if rooms != [] {
      assert (rooms + [x])[1..] == rooms[1..] + [x];
      OutcomeSnoc(rooms[1..], x, wumpus, player);
    }
  }

  /** Once the arrow has stopped, the rest of the path does not matter. */
  lemma {:induction false} OutcomeStops(rooms: seq<int>, more: seq<int>, wumpus: int, player: int)
    requires Outcome(rooms, wumpus, player) != Missed
    ensures Outcome(rooms + more, wumpus, player) == Outcome(rooms, wumpus, player)
  {
    if rooms[0] != wumpus && rooms[0] != player {
      assert (rooms + more)[1..] == rooms[1..] + more;
      OutcomeStops(rooms[1..], more, wumpus, player);
    }
  }

  /**
   * The arrow kills the wumpus exactly when it reaches the wumpus's room
   * without passing the player's before, and misses exactly when it reaches
   * neither room.
   */
  lemma {:induction false} OutcomeMeaning(rooms: seq<int>, wumpus: int, player: int)
    ensures Outcome(rooms, wumpus, player) == Hit <==>
      exists i | 0 <= i < |rooms| :: rooms[i] == wumpus && forall j | 0 <= j < i :: rooms[j] != player
    ensures Outcome(rooms, wumpus, player) == Missed <==>
      forall i | 0 <= i < |rooms| :: rooms[i] != wumpus && rooms[i] != player
  {
    if rooms != [] {
      OutcomeMeaning(rooms[1..], wumpus, player);
      if rooms[0] != wumpus && rooms[0] != player {
        if Outcome(rooms, wumpus, player) == Hit {
          var i :| 0 <= i < |rooms| - 1 && rooms[1..][i] == wumpus && forall j | 0 <= j < i :: rooms[1..][j] != player;
          assert rooms[i + 1] == wumpus;
        }
        if exists i | 0 <= i < |rooms| :: rooms[i] == wumpus && forall j | 0 <= j < i :: rooms[j] != player {
          var i :| 0 <= i < |rooms| && rooms[i] == wumpus && forall j | 0 <= j < i :: rooms[j] != player;
          assert rooms[1..][i - 1] == wumpus;
        }
        assert forall i | 0 < i < |rooms| :: rooms[1..][i - 1] == rooms[i];
      } else if rooms[0] == player && rooms[0] != wumpus {
        assert forall i | 0 <= i < |rooms| :: rooms[i] == wumpus ==> i > 0;
      }
    }
  }

  /**
   * `shoot_arrow`: with no arrows nothing happens; otherwise one arrow is
   * spent and the arrow flies, and after a miss the wumpus wakes when
   * `wakes` (the draw `random.random() < 0.75`) and walks down tunnel `pick`.
   */
  function Shoot(w: World, path: seq<int>, picks: seq<nat>, wakes: bool, pick: nat): World
    requires w.player in Cave && w.wumpus in Cave && PicksFit(path, picks) && pick < 3
  {
    if w.arrows <= 0 then w
    else
      var spent := w.(arrows := w.arrows - 1);
      match Outcome(Flight(w.player, path, picks), w.wumpus, w.player)
      case Hit => spent.(victory := true, gameOver := true)
      case Backfire => spent.(gameOver := true)
      case Missed => if wakes then WumpusMove(spent, pick) else spent
  }

  /**
   * With no arrows a shot changes nothing; otherwise it spends exactly one,
   * wins exactly on a hit, ends the game on a hit, a backfire or a wumpus
   * walking into the player, and keeps every invariant of the game.
   */
  lemma ShootOutcome(w: World, path: seq<int>, picks: seq<nat>, wakes: bool, pick: nat)
    requires WorldOk(w) && PicksFit(path, picks) && pick < 3
    ensures var w' := Shoot(w, path, picks, wakes, pick);
      var o := Outcome(Flight(w.player, path, picks), w.wumpus, w.player);
      && (w.arrows <= 0 ==> w' == w)
      && (w.arrows > 0 ==>
            && w'.arrows == w.arrows - 1
            && (w'.victory <==> w.victory || o == Hit)
            && (o != Missed ==> w'.gameOver && w'.wumpus == w.wumpus)
            && (o == Missed && !wakes ==> w'.gameOver == w.gameOver && w'.wumpus == w.wumpus))
      && w'.player == w.player && w'.pits == w.pits && w'.bats == w.bats
      && WorldOk(w')
  {
    if w.arrows > 0 && wakes {
      WumpusMoveOutcome(w.(arrows := w.arrows - 1), pick);
    }
  }

  // ----- the game object -----

  /** A `WumpusGame`: the fields its methods update. */
  class Game {
    var player: int
    var wumpus: int
    var pits: set<int>
    var bats: set<int>
    var arrows: int
    var gameOver: bool
    var victory: bool

    /** The fields as a value. */
    function State(): World
      reads this
    {
      World(player, wumpus, pits, bats, arrows, gameOver, victory)
    }

    ghost predicate Valid()
      reads this
    {
      WorldOk(State())
    }

    /** `__init__`: a fresh game, set up by `reset_game`. */
    constructor (p: Picks)
      requires PicksOk(p)
      ensures Valid() && State() == Reset(p)
    {
      new;
      ResetGame(p);
    }

    /** Places the hazards and the player anew and restores the arrows and flags. */
    method ResetGame(p: Picks)
      requires PicksOk(p)
      modifies this
      ensures Valid() && State() == Reset(p)
    {
      RoomsInOrder();
      hide Outside, Pair, Tunnels;
      var rooms := Rooms;
      wumpus := rooms[p.wumpus];
      var hazards := {wumpus};
      DrawTwo(hazards, p.pit1, p.pit2);
      var pool := Outside(rooms, hazards);
      pits := Pair(pool, p.pit1, p.pit2);
      hazards := hazards + pits;
      DrawTwo(hazards, p.bat1, p.bat2);
      pool := Outside(rooms, hazards);
      bats := Pair(pool, p.bat1, p.bat2);
      hazards := hazards + bats;
      DrawOne(hazards, p.player);
      var available := Outside(rooms, hazards);
      player := available[p.player];
      arrows := 5;
      gameOver := false;
      victory := false;
      ResetApart(p);
    }

    /** The warnings for the player's neighbours, in the order of their tunnels. */
    method AdjacentHazards() returns (warnings: seq<Warning>)
      requires Valid()
      ensures warnings == Warnings(Cave[player], wumpus, pits, bats)
    {
      hide Tunnels;
      var tunnels := Cave[player];
      warnings := [];
      for i := 0 to |tunnels|
        invariant warnings == Warnings(tunnels[..i], wumpus, pits, bats)
      {
        var neighbor := tunnels[i];
        assert tunnels[..i + 1][..i] == tunnels[..i];
        assert Warnings(tunnels[..i + 1], wumpus, pits, bats) == Warnings(tunnels[..i], wumpus, pits, bats) + WarningsAt(neighbor, wumpus, pits, bats);
        ghost var before := warnings;
        if neighbor == wumpus {
          warnings := warnings + [Stench];
        }
        if neighbor in pits {
          warnings := warnings + [Breeze];
        }
        if neighbor in bats {
          warnings := warnings + [Rustling];
        }
        assert warnings == before + WarningsAt(neighbor, wumpus, pits, bats);
      }
      assert tunnels[..|tunnels|] == tunnels;
    }

    /** `move_player`. */
    method MovePlayer(room: int, drop: nat)
      requires Valid() && drop < 20
      modifies this
      ensures Valid() && State() == Move(old(State()), room, drop)
    {
      MoveOutcome(State(), room, drop);
      if room !in Cave[player] {
        return;
      }
      player := room;
      if player == wumpus {
        gameOver := true;
      } else if player in pits {
        gameOver := true;
      } else if player in bats {
        player := Rooms[drop];
        if player == wumpus {
          gameOver := true;
        } else if player in pits {
          gameOver := true;
        }
      }
    }

    /** `move_wumpus`. */
    method MoveWumpus(pick: nat)
      requires Valid() && pick < 3
      modifies this
      ensures Valid() && State() == WumpusMove(old(State()), pick)
    {
      WumpusMoveOutcome(State(), pick);
      CaveTunnels();
      wumpus := Cave[wumpus][pick];
      if wumpus == player {
        gameOver := true;
      }
    }

    /** `shoot_arrow`, following the path room by room until the arrow hits someone. */
    method ShootArrow(path: seq<int>, picks: seq<nat>, wakes: bool, pick: nat)
      requires Valid() && PicksFit(path, picks) && pick < 3
      modifies this
      ensures Valid() && State() == Shoot(old(State()), path, picks, wakes, pick)
    {
      ShootOutcome(State(), path, picks, wakes, pick);
      if arrows <= 0 {
        return;
      }
      arrows := arrows - 1;
      var stop := Fly(path, picks);
      if stop == Hit {
        victory := true;
        gameOver := true;
      } else if stop == Backfire {
        gameOver := true;
      } else if wakes {
        MoveWumpus(pick);
      }
    }

    /** The loop of `shoot_arrow`: the arrow goes room by room until it enters the wumpus's room or the player's. */
    method Fly(path: seq<int>, picks: seq<nat>) returns (stop: Shot)
      requires Valid() && PicksFit(path, picks)
      ensures stop == Outcome(Flight(player, path, picks), wumpus, player)
    {
      hide Tunnels;
      ghost var flight := Flight(player, path, picks);
      var room := player;
      for i := 0 to |path|
        invariant room == if i == 0 then player else flight[i - 1]
        invariant Outcome(flight[..i], wumpus, player) == Missed
      {
        CaveTunnels();
        var next := path[i];
        if next !in Cave[room] {
          next := Cave[room][picks[i]];
        }
        room := next;
        OutcomeSnoc(flight[..i], room, wumpus, player);
        assert flight[..i + 1] == flight[..i] + [room];
        if room == wumpus || room == player {
          OutcomeStops(flight[..i + 1], flight[i + 1..], wumpus, player);
          assert flight[..i + 1] + flight[i + 1..] == flight;
          return if room == wumpus then Hit else Backfire;
        }
      }
      assert flight[..|path|] == flight;
      return Missed;
    }
  }
}
