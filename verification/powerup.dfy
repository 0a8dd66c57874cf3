/** The triple-shot power-up (sprites/powerup.py): spawns above the screen, falls, and removes itself below it. */
module PowerUpSprite {
  import opened Wrappers
  import Config

  const Width: int := 30
  const Height: int := 30

  /** Fixed falling speed. */
  const Speed: int := 2

  const MinSpawnY: int := -100
  const MaxSpawnY: int := -40
  const MaxSpawnX: int := Config.ScreenWidth - Width

  datatype PowerUp = PowerUp(x: int, y: int)
  {
    function Left(): int { x }
    function Right(): int { x + Width }
    function Top(): int { y }
  }

  /** The values the two `random.randint` calls of the constructor can return. */
  predicate SpawnRange(x: int, y: int) {
    0 <= x <= MaxSpawnX && MinSpawnY <= y <= MaxSpawnY
  }

  /** A new power-up at the drawn column `x` and height `y`. */
  function Spawn(x: int, y: int): (p: PowerUp)
    requires SpawnRange(x, y)
    ensures p.Left() == x && p.Top() == y
    ensures 0 <= p.Left() && p.Right() <= Config.ScreenWidth
    ensures MinSpawnY <= p.Top() <= MaxSpawnY
  {
    PowerUp(x, y)
  }

  /** One frame of `PowerUp.update`: fall by 2, and `None` when the power-up has left the screen. */
  function Update(p: PowerUp): (r: Option<PowerUp>)
    ensures r.None? <==> p.Top() + Speed > Config.ScreenHeight
    ensures r.Some? ==> r.value.x == p.x && r.value.y == p.y + Speed
  {
    var q := p.(y := p.y + Speed);
    if q.Top() > Config.ScreenHeight then None else Some(q)
  }

  /** The power-up after `n` frames, if it is still on screen. */
  function Fall(p: PowerUp, n: nat): Option<PowerUp>
    decreases n
  {
    if n == 0 then Some(p)
    else
      match Fall(p, n - 1)
      case None => None
      case Some(q) => Update(q)
  }

  /** A power-up starting on screen survives exactly the frames after which its top is still at most 400. */
  lemma {:induction false} Lifetime(p: PowerUp, n: nat)
    requires p.Top() <= Config.ScreenHeight
    ensures Fall(p, n).Some? <==> p.y + Speed * n <= Config.ScreenHeight
    ensures Fall(p, n).Some? ==> Fall(p, n).value == PowerUp(p.x, p.y + Speed * n)
    decreases n
  {
    if n > 0 {
      Lifetime(p, n - 1);
    }
  }
}
