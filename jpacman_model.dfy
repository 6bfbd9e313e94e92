/**
 * The occupants ("guests") Player and Wall of the jpacman game model, together
 * with the minimal view of a move that their collision methods consult.
 *
 * The collision protocol is a double dispatch: the guest already standing on
 * the target cell is asked `MeetPlayer` or `MeetMonster`, according to who is
 * moving in, and answers whether the move may go ahead; it may also record a
 * side effect on the move under construction.
 */
module JPacmanModel {
  import opened JavaInt

  // One-character type codes a guest reports for rendering and level files.
  // The guest superclass that defines them is not part of this model; these
  // are the characters the game's level maps use, '0' marking an empty cell.
  const EMPTY_TYPE: char := '0'
  const FOOD_TYPE: char := 'F'
  const WALL_TYPE: char := 'W'
  const PLAYER_TYPE: char := 'P'
  const MONSTER_TYPE: char := 'M'

  /** Who is moving: the two subclasses of a move. */
  datatype MoverKind = PlayerMover | MonsterMover

  /**
   * A move while it is being resolved. A move consults the target cell's guest
   * before it is marked initialized; a monster move may then be marked as one
   * that kills the player.
   */
  class Move {
    const kind: MoverKind
    /** The moving player of a player move; null for a monster move. */
    const player: Player?
    var initialized: bool
    var playerDies: bool

    constructor (kind: MoverKind, player: Player?)
      requires kind == PlayerMover <==> player != null
      ensures this.kind == kind && this.player == player
      ensures !initialized && !playerDies
    {
      this.kind := kind;
      this.player := player;
      initialized := false;
      playerDies := false;
    }

    /** Record that carrying out this move kills the player. */
    method Die()
      modifies this`playerDies
      ensures playerDies
    {
      playerDies := true;
    }
  }

  /**
   * The player: walks around the board, eats food and dies when it meets a
   * monster.
   */
  class Player {
    /** Amount of food eaten so far. */
    var pointsEaten: Int32
    /** Whether the player is still alive. */
    var alive: bool
    /** Most recent movement in the x and y direction. */
    var lastDx: Int32
    var lastDy: Int32
    /**
     * Whether the invariant inherited from the guest superclass holds. That
     * superclass is not part of this model; no operation of the player touches
     * the state it is about.
     */
    ghost var guestOk: bool

    /** A player never holds a negative amount of food. */
    ghost predicate PlayerInvariant()
      reads this
      ensures PlayerInvariant() ==> pointsEaten >= 0
    {
      guestOk && pointsEaten >= 0
    }

    constructor ()
      ensures PlayerInvariant()
      ensures alive && pointsEaten == 0
      ensures lastDx == 0 && lastDy == 0
    {
      pointsEaten := 0;
      alive := true;
      lastDx, lastDy := 0, 0;
      guestOk := true;
    }

    /** Is the player still alive? */
    function Living(): (r: bool)
      reads this
      ensures r <==> alive
    {
      alive
    }

    /** The points collected so far: never negative while the invariant holds. */
    function GetPointsEaten(): (r: Int32)
      reads this
      ensures PlayerInvariant() ==> r >= 0
      ensures r == pointsEaten
    {
      pointsEaten
    }

    /**
     * Eat a meal worth `foodPoints`. The sum is Java's wrapping `int` addition;
     * the invariant checked afterwards requires it not to come out negative,
     * and since the old amount is not negative either, that rules out
     * wrap-around: the meal is added exactly.
     */
    method Eat(foodPoints: Int32)
      requires PlayerInvariant() && alive
      requires Wrap(pointsEaten + foodPoints) >= 0
      modifies this`pointsEaten
      ensures pointsEaten == old(pointsEaten) + foodPoints
      ensures PlayerInvariant() && alive
    {
      pointsEaten := Wrap(pointsEaten + foodPoints);
    }

    /** The player has been killed by a monster; it must not have died before. */
    method Die()
      requires PlayerInvariant() && alive
      modifies this`alive
      ensures !alive
      ensures pointsEaten == old(pointsEaten)
      ensures PlayerInvariant()
    {
      alive := false;
    }

    /**
     * Another player wants to occupy this player's cell. Only one player is
     * supported, so the mover must be this very player; the move is refused.
     */
    function MeetPlayer(theMove: Move): (possible: bool)
      reads this, theMove
      requires PlayerInvariant()
      requires theMove.kind == PlayerMover && !theMove.initialized
      requires theMove.player == this
      ensures !possible
    {
      false
    }

    /**
     * A monster bumps into this player: the monster cannot enter the cell, and
     * the move is marked as one that kills the player.
     */
    method MeetMonster(theMove: Move) returns (possible: bool)
      requires PlayerInvariant()
      requires theMove.kind == MonsterMover && !theMove.initialized
      modifies theMove`playerDies
      ensures !possible
      ensures theMove.playerDies
      ensures !theMove.initialized
    {
      theMove.Die();
      possible := false;
    }

    /** The character encoding of a player, unlike that of any other guest. */
    function GuestType(): (c: char)
      ensures c == PLAYER_TYPE
      ensures c != WALL_TYPE && c != FOOD_TYPE && c != MONSTER_TYPE && c != EMPTY_TYPE
    {
      PLAYER_TYPE
    }

    /** Remember the most recent advancement, for the benefit of rendering. */
    method SetLastDirection(dx: Int32, dy: Int32)
      modifies this`lastDx, this`lastDy
      ensures GetLastDx() == dx && GetLastDy() == dy
      ensures alive == old(alive) && pointsEaten == old(pointsEaten)
    {
      lastDx := dx;
      lastDy := dy;
    }

    function GetLastDx(): (r: Int32)
      reads this
      ensures r == lastDx
    {
      lastDx
    }

    function GetLastDy(): (r: Int32)
      reads this
      ensures r == lastDy
    {
      lastDy
    }
  }

  /** A wall has no state of its own: every move into it is refused. */
  datatype Wall = Wall {

    /** A player can never enter a wall's cell; the move is left untouched. */
    function MeetPlayer(aMove: Move): (possible: bool)
      reads aMove
      requires aMove.kind == PlayerMover && !aMove.initialized
      ensures !possible
    {
      false
    }

    /** Neither can a monster; in particular, a wall never kills the player. */
    function MeetMonster(aMove: Move): (possible: bool)
      reads aMove
      requires aMove.kind == MonsterMover && !aMove.initialized
      ensures !possible
    {
      false
    }

    /** The character encoding of a wall, unlike that of any other guest. */
    function GuestType(): (c: char)
      ensures c == WALL_TYPE
      ensures c != PLAYER_TYPE && c != FOOD_TYPE && c != MONSTER_TYPE && c != EMPTY_TYPE
    {
      WALL_TYPE
    }
  }

  /** A new player that eats one food item has exactly one point. */
  method EatOneFood() returns (points: int, living: bool)
    ensures points == 1 && living
  {
    var p := new Player();
    p.Eat(1);
    points := p.GetPointsEaten();
    living := p.Living();
  }

  /**
   * Dying keeps the points eaten, and a dead player can never satisfy the
   * precondition of `Die` again.
   */
  method EatThenDie(meal: Int32) returns (points: int, living: bool)
    requires meal >= 0
    ensures points == meal && !living
  {
    var p := new Player();
    p.Eat(meal);
    p.Die();
    points := p.GetPointsEaten();
    living := p.Living();
  }

  /**
   * A monster moving onto the player is refused and makes the player die,
   * while a player moving onto a wall is refused without killing anyone.
   */
  method BumpScenarios() returns (monsterOntoPlayer: bool, lethal: bool,
                                  playerOntoWall: bool, wallLethal: bool)
    ensures !monsterOntoPlayer && lethal
    ensures !playerOntoWall && !wallLethal
  {
    var p := new Player();
    var mm := new Move(MonsterMover, null);
    monsterOntoPlayer := p.MeetMonster(mm);
    lethal := mm.playerDies;
    var pm := new Move(PlayerMover, p);
    var w := Wall;
    playerOntoWall := w.MeetPlayer(pm);
    wallLethal := pm.playerDies;
  }
}
