/** The basic enemy (sprites/enemy.py): spawns above the screen and falls at a constant speed. */
module EnemySprite {
  import Config

  const Width: int := 50
  const Height: int := 50

  /** Spawn heights are drawn from this range. */
  const MinSpawnY: int := -100
  const MaxSpawnY: int := -40

  /** Largest spawn column: the whole enemy is on screen horizontally. */
  const MaxSpawnX: int := Config.ScreenWidth - Width

  datatype Enemy = Enemy(x: int, y: int, speedY: int)
  {
    function Left(): int { x }
    function Right(): int { x + Width }
    function Top(): int { y }
    function Bottom(): int { y + Height }

    /** The top edge has passed the bottom of the screen: the session is lost. */
    predicate Breached() { Top() > Config.ScreenHeight }
  }

  /** The values the three `random.randint` calls of the constructor can return. */
  predicate SpawnRange(x: int, y: int, speed: int) {
    0 <= x <= MaxSpawnX && MinSpawnY <= y <= MaxSpawnY && 1 <= speed <= 2
  }

  /** A new enemy from the random draws `x`, `y` and `speed`. */
  function Spawn(x: int, y: int, speed: int): (e: Enemy)
    requires SpawnRange(x, y, speed)
    ensures e.Left() == x && e.Top() == y && e.speedY == speed
    ensures 0 <= e.Left() && e.Right() <= Config.ScreenWidth
    ensures MinSpawnY <= e.Top() <= MaxSpawnY && e.Bottom() <= MaxSpawnY + Height
    ensures e.speedY == 1 || e.speedY == 2
    ensures !e.Breached()
  {
    Enemy(x, y, speed)
  }

  /** One frame of `Enemy.update`: fall by the enemy's speed. Enemies never remove themselves. */
  function Update(e: Enemy): (f: Enemy)
    ensures f.x == e.x && f.speedY == e.speedY
    ensures f.y - e.y == e.speedY
    ensures e.speedY > 0 ==> f.Top() > e.Top()
  {
    e.(y := e.y + e.speedY)
  }

  /** The enemy after `n` frames. */
  function Fall(e: Enemy, n: nat): Enemy
    decreases n
  {
    if n == 0 then e else Update(Fall(e, n - 1))
  }

  lemma {:induction false} FallDistance(e: Enemy, n: nat)
    ensures Fall(e, n).x == e.x && Fall(e, n).speedY == e.speedY
    ensures Fall(e, n).y == e.y + n * e.speedY
    decreases n
  {
    if n > 0 {
      FallDistance(e, n - 1);
    }
  }

  /**
   * An enemy nobody shoots breaches the bottom edge: a freshly spawned one has
   * not breached yet, and at the latest it has after 501 frames.
   */
  lemma LeftAloneBreaches(x: int, y: int, speed: int)
    requires SpawnRange(x, y, speed)
    ensures !Spawn(x, y, speed).Breached()
    ensures Fall(Spawn(x, y, speed), 501).Breached()
  {
    FallDistance(Spawn(x, y, speed), 501);
  }
}
