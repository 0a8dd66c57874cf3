/** The player's ship (sprites/player.py): horizontal movement clamped to the screen and the timed triple shot. */
module PlayerSprite {
  import Config

  const Width: int := 50
  const Height: int := 50

  /** Pixels moved per frame while an arrow key is held. */
  const Speed: int := 5

  /** Largest left edge that keeps the whole ship on screen. */
  const MaxLeft: int := Config.ScreenWidth - Width

  /** The ship's rectangle is `x, y, Width, Height`; the triple-shot timer is the clock reading at pickup. */
  datatype Player = Player(x: int, y: int, speedX: int, tripleShot: bool, tripleShotTimer: int)
  {
    function Left(): int { x }
    function Right(): int { x + Width }
    function Top(): int { y }
    function Bottom(): int { y + Height }
    function CenterX(): int { x + Width / 2 }

    /** The whole rectangle lies inside the horizontal extent of the playfield. */
    predicate OnScreen() { 0 <= Left() && Right() <= Config.ScreenWidth }
  }

  /** Distance between two pixel columns. */
  function Dist(a: int, b: int): nat { if a <= b then b - a else a - b }

  /** The ship as created by a game reset: centred, 10 pixels above the bottom edge, single shot. */
  function New(): (p: Player)
    ensures p.CenterX() == Config.ScreenWidth / 2 && p.Bottom() == Config.ScreenHeight - 10
    ensures p.speedX == 0 && !p.tripleShot && p.tripleShotTimer == 0
    ensures p.OnScreen()
  {
    Player(Config.ScreenWidth / 2 - Width / 2, Config.ScreenHeight - 10 - Height, 0, false, 0)
  }

  /** The horizontal speed for the held keys: reset to 0, then left, then right, each overriding the last. */
  function Steer(left: bool, right: bool): (s: int)
    ensures right ==> s == Speed
    ensures left && !right ==> s == -Speed
    ensures !left && !right ==> s == 0
  {
    var s0 := 0;
    var s1 := if left then -Speed else s0;
    if right then Speed else s1
  }

  /** Pushes a left edge back inside the screen: first the right edge, then the left edge. */
  function Clamp(x: int): (r: int)
    ensures 0 <= r <= MaxLeft
    ensures 0 <= x <= MaxLeft ==> r == x
    ensures forall z :: 0 <= z <= MaxLeft ==> Dist(r, x) <= Dist(z, x)
  {
    var x1 := if x + Width > Config.ScreenWidth then Config.ScreenWidth - Width else x;
    if x1 < 0 then 0 else x1
  }

  /** One frame of `Player.update` with the held keys and the clock reading `now`. */
  function Update(p: Player, left: bool, right: bool, now: int): (q: Player)
    ensures q.OnScreen()
    ensures q.speedX == Steer(left, right)
    ensures 0 <= p.x + q.speedX <= MaxLeft ==> q.x == p.x + q.speedX
    ensures q.x == Clamp(p.x + q.speedX)
    ensures q.y == p.y && q.tripleShotTimer == p.tripleShotTimer
    ensures q.tripleShot <==> p.tripleShot && now - p.tripleShotTimer <= Config.TripleShotDuration
  {
    var speed := Steer(left, right);
    var x := Clamp(p.x + speed);
    var expired := p.tripleShot && now - p.tripleShotTimer > Config.TripleShotDuration;
    p.(x := x, speedX := speed, tripleShot := p.tripleShot && !expired)
  }

  /** Picking up a power-up at clock reading `now`. */
  function ActivateTripleShot(p: Player, now: int): (q: Player)
    ensures q.tripleShot && q.tripleShotTimer == now
    ensures q.x == p.x && q.y == p.y && q.speedX == p.speedX
  {
    p.(tripleShot := true, tripleShotTimer := now)
  }

  /** Picking up a second power-up only moves the timer: the result is as if only the later pickup happened. */
  lemma ActivateAgain(p: Player, t1: int, t2: int)
    ensures ActivateTripleShot(ActivateTripleShot(p, t1), t2) == ActivateTripleShot(p, t2)
    ensures ActivateTripleShot(p, t1) == ActivateTripleShot(p, t2).(tripleShotTimer := t1)
  {
  }

  /** Keys held and clock reading for one frame. */
  datatype Controls = Controls(left: bool, right: bool, now: int)

  /** The ship after a run of frames. */
  function Run(p: Player, frames: seq<Controls>): Player
    decreases |frames|
  {
    if |frames| == 0 then p
    else
      var f := frames[|frames| - 1];
      Update(Run(p, frames[..|frames| - 1]), f.left, f.right, f.now)
  }

  /** Over any run of frames the ship keeps its height and its timer, and after at least one frame it is on screen. */
  lemma {:induction false} RunKeepsShip(p: Player, frames: seq<Controls>)
    ensures Run(p, frames).y == p.y && Run(p, frames).tripleShotTimer == p.tripleShotTimer
    ensures |frames| > 0 ==> Run(p, frames).OnScreen()
    decreases |frames|
  {
    if |frames| > 0 {
      RunKeepsShip(p, frames[..|frames| - 1]);
    }
  }

  /**
   * The triple shot granted at `t` survives every frame whose clock reading is
   * at most TripleShotDuration after `t`, and is gone after the first frame
   * that reads later than that; no frame ever turns it back on.
   */
  lemma {:induction false} TripleShotLifetime(p: Player, t: int, frames: seq<Controls>)
    ensures (forall k :: 0 <= k < |frames| ==> frames[k].now - t <= Config.TripleShotDuration)
      ==> Run(ActivateTripleShot(p, t), frames).tripleShot
    ensures (exists k :: 0 <= k < |frames| && frames[k].now - t > Config.TripleShotDuration)
      ==> !Run(ActivateTripleShot(p, t), frames).tripleShot
    decreases |frames|
  {
    if |frames| > 0 {
      var n := |frames| - 1;
      var init := frames[..n];
      TripleShotLifetime(p, t, init);
      RunKeepsShip(ActivateTripleShot(p, t), init);
      if exists k :: 0 <= k < |frames| && frames[k].now - t > Config.TripleShotDuration {
        var k :| 0 <= k < |frames| && frames[k].now - t > Config.TripleShotDuration;
        if k < n {
          assert init[k] == frames[k];
        }
      } else {
        forall k | 0 <= k < |init| ensures init[k].now - t <= Config.TripleShotDuration {
          assert init[k] == frames[k];
        }
      }
    }
  }
}
