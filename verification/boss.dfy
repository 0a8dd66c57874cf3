/**
 * The boss and its bullets (sprites/boss.py). The boss descends into view
 * (entry phase) and then patrols left and right, turning round whenever it
 * has crossed a screen edge.
 */
module BossSprite {
  import opened Wrappers
  import Config

  const Width: int := 100
  const Height: int := 100
  const SpeedX: int := 3
  const SpeedY: int := 1
  const MaxHealth: int := 15

  /** Milliseconds that must pass (strictly) between two volleys. */
  const ShootDelay: int := 1200

  /** The entry phase ends once the top edge has reached this height. */
  const PatrolTop: int := 50

  /** `lastShot` is the clock reading of the last volley (or of the spawn). */
  datatype Boss = Boss(x: int, y: int, health: int, direction: int, entryPhase: bool, lastShot: int)
  {
    function Left(): int { x }
    function Right(): int { x + Width }
    function Top(): int { y }
    function Bottom(): int { y + Height }
    function CenterX(): int { x + Width / 2 }

    /** One of the edges is outside the screen. */
    predicate Outside() { Right() > Config.ScreenWidth || Left() < 0 }
  }

  /** A new boss facing the randomly chosen `direction`, spawned at clock reading `now`. */
  function New(direction: int, now: int): (b: Boss)
    requires direction == 1 || direction == -1
    ensures b.CenterX() == Config.ScreenWidth / 2 && b.Bottom() == 0
    ensures b.health == MaxHealth && b.entryPhase && b.lastShot == now
    ensures b.direction == direction
  {
    Boss(Config.ScreenWidth / 2 - Width / 2, -Height, MaxHealth, direction, true, now)
  }

  /** One frame of `Boss.update`. */
  function Update(b: Boss): (c: Boss)
    ensures c.health == b.health && c.lastShot == b.lastShot
    ensures b.entryPhase ==> c.x == b.x && c.y == b.y + SpeedY && c.direction == b.direction
    ensures b.entryPhase ==> (c.entryPhase <==> c.Top() < PatrolTop)
    ensures !b.entryPhase ==> !c.entryPhase && c.y == b.y && c.x == b.x + SpeedX * b.direction
    ensures !b.entryPhase ==> c.direction == b.direction || c.direction == -b.direction
    ensures !b.entryPhase && b.direction != 0 ==> (c.direction == -b.direction <==> c.Outside())
  {
    if b.entryPhase then
      var c := b.(y := b.y + SpeedY);
      c.(entryPhase := !(c.Top() >= PatrolTop))
    else
      var c := b.(x := b.x + SpeedX * b.direction);
      if c.Outside() then c.(direction := -c.direction) else c
  }

  /** The boss after `n` frames. */
  function Advance(b: Boss, n: nat): Boss
    decreases n
  {
    if n == 0 then b else Update(Advance(b, n - 1))
  }

  /** During the entry phase the boss moves straight down one pixel per frame and leaves the phase at top 50. */
  lemma {:induction false} Descent(b: Boss, n: nat)
    requires b.entryPhase && b.Top() < PatrolTop
    requires n <= PatrolTop - b.Top()
    ensures Advance(b, n).x == b.x && Advance(b, n).y == b.y + n
    ensures Advance(b, n).entryPhase <==> b.y + n < PatrolTop
    ensures Advance(b, n).direction == b.direction
    decreases n
  {
    if n > 0 {
      Descent(b, n - 1);
    }
  }

  /** A new boss is in its entry phase for exactly its first 150 frames. */
  lemma EntryTakes150Frames(direction: int, now: int, n: nat)
    requires direction == 1 || direction == -1
    ensures n < 150 ==> Advance(New(direction, now), n).entryPhase
    ensures n == 150 ==> !Advance(New(direction, now), n).entryPhase
    ensures n == 150 ==> Advance(New(direction, now), n).Top() == PatrolTop
  {
    if n <= 150 {
      Descent(New(direction, now), n);
    }
  }

  /** Once the entry phase is over it never comes back. */
  lemma {:induction false} PatrolIsFinal(b: Boss, n: nat)
    requires !b.entryPhase
    ensures !Advance(b, n).entryPhase
    decreases n
  {
    if n > 0 {
      PatrolIsFinal(b, n - 1);
    }
  }

  /**
   * The patrol envelope: the direction is a unit, the boss is never more than
   * one 3-pixel step beyond either screen edge, and when it is beyond an edge
   * it is already heading back.
   */
  predicate InBounds(b: Boss) {
    && (b.direction == 1 || b.direction == -1)
    && -SpeedX <= b.Left() && b.Right() <= Config.ScreenWidth + SpeedX
    && (b.Left() < 0 ==> b.direction == 1)
    && (b.Right() > Config.ScreenWidth ==> b.direction == -1)
  }

  lemma NewIsInBounds(direction: int, now: int)
    requires direction == 1 || direction == -1
    ensures InBounds(New(direction, now))
  {
  }

  /** Every frame keeps the boss inside its patrol envelope, so it never overshoots an edge by more than one step. */
  lemma {:induction false} StaysInBounds(b: Boss, n: nat)
    requires InBounds(b)
    ensures InBounds(Advance(b, n))
    ensures -SpeedX <= Advance(b, n).Left() && Advance(b, n).Right() <= Config.ScreenWidth + SpeedX
    decreases n
  {
    if n > 0 {
      StaysInBounds(b, n - 1);
    }
  }

  /** Width and height of a boss bullet. */
  const BulletWidth: int := 15
  const BulletHeight: int := 25
  const BulletSpeed: int := 7

  datatype BossBullet = BossBullet(x: int, y: int)
  {
    function CenterX(): int { x + BulletWidth / 2 }
    function Top(): int { y }
  }

  /** A bullet whose rectangle is centred on column `centerX` with its top edge at `top`. */
  function Fire(centerX: int, top: int): (b: BossBullet)
    ensures b.CenterX() == centerX && b.Top() == top
  {
    BossBullet(centerX - BulletWidth / 2, top)
  }

  /** One frame of `BossBullet.update`: fall by 7, and `None` when the bullet has left the screen. */
  function UpdateBullet(b: BossBullet): (r: Option<BossBullet>)
    ensures r.None? <==> b.Top() + BulletSpeed > Config.ScreenHeight
    ensures r.Some? ==> r.value.x == b.x && r.value.y == b.y + BulletSpeed
  {
    var c := b.(y := b.y + BulletSpeed);
    if c.Top() > Config.ScreenHeight then None else Some(c)
  }
}
