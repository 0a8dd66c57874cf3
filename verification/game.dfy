/**
 * The per-frame session engine of main.py (`Game`): spawning, shooting, the
 * boss volley, the fixed-order collision resolution, game over, reset and the
 * high-score update.
 *
 * Nothing here reads a clock, a keyboard or a random generator: the clock
 * reading `now`, the held keys and the geometric overlaps of the frame are
 * parameters, and random spawn positions come from a stream `rng` whose
 * `k`-th draw feeds the `k`-th spawn of the session (`draws` counts them).
 */
module Game {
  import opened Wrappers
  import opened Indexed
  import Config
  import Text
  import P = PlayerSprite
  import E = EnemySprite
  import B = BossSprite
  import U = PowerUpSprite
  import S = ScoreManager

  /** A player bullet, recorded by the point and angle (degrees) it was fired at; its flight is not modelled. */
  datatype Bullet = Bullet(centerX: int, bottom: int, angle: int)

  /** One random draw: enemy spawns use `x`, `y`, `speed`; boss spawns use `direction`. */
  datatype Draw = Draw(x: int, y: int, speed: int, direction: int)

  /** A draw the source's `randint`/`choice` calls can produce. */
  predicate FairDraw(d: Draw) {
    E.SpawnRange(d.x, d.y, d.speed) && (d.direction == 1 || d.direction == -1)
  }

  ghost predicate Fair(rng: nat -> Draw) {
    forall k: nat :: FairDraw(rng(k))
  }

  /** The state of a `Game` object: flags, counters, sprite groups and the score table. */
  datatype Session = Session(
    gameActive: bool,
    gameOver: bool,
    score: int,
    enemiesDefeated: int,
    bossActive: bool,
    player: P.Player,
    enemies: seq<E.Enemy>,
    bullets: seq<Bullet>,
    bossBullets: seq<B.BossBullet>,
    powerUps: seq<U.PowerUp>,
    bosses: seq<B.Boss>,
    playerName: string,
    scores: S.Table,
    draws: nat)

  // ---------------------------------------------------------------- spawning

  /** `spawn_enemy`: one new enemy from the next random draw. */
  function SpawnEnemy(s: Session, rng: nat -> Draw): (r: Session)
    requires Fair(rng)
    ensures r == s.(enemies := r.enemies, draws := s.draws + 1)
    ensures |r.enemies| == |s.enemies| + 1 && r.enemies[..|s.enemies|] == s.enemies
    ensures var e := r.enemies[|s.enemies|];
            e.Left() == rng(s.draws).x && e.Top() == rng(s.draws).y && e.speedY == rng(s.draws).speed
    ensures !r.enemies[|s.enemies|].Breached()
  {
    var d := rng(s.draws);
    s.(enemies := s.enemies + [E.Spawn(d.x, d.y, d.speed)], draws := s.draws + 1)
  }

  /** `spawn_boss`: one new boss, and the boss flag raised. It does not look at the flag first. */
  function SpawnBoss(s: Session, rng: nat -> Draw, now: int): (r: Session)
    requires Fair(rng)
    ensures r == s.(bosses := r.bosses, bossActive := true, draws := s.draws + 1)
    ensures |r.bosses| == |s.bosses| + 1 && r.bosses[..|s.bosses|] == s.bosses
    ensures r.bosses[|s.bosses|].health == B.MaxHealth && r.bosses[|s.bosses|].entryPhase
    ensures r.bosses[|s.bosses|].direction == rng(s.draws).direction && r.bosses[|s.bosses|].lastShot == now
    ensures r.bosses[|s.bosses|] == B.New(rng(s.draws).direction, now)
  {
    var d := rng(s.draws);
    s.(bosses := s.bosses + [B.New(d.direction, now)], bossActive := true, draws := s.draws + 1)
  }

  // ------------------------------------------------------------ enemy kills

  /** The kill counter has reached a multiple of the boss interval. */
  predicate BossDue(defeated: int) {
    defeated % Config.BossSpawnInterval == 0
  }

  /** Only the score, the kill counter, the boss flag, the enemies, the bosses and the draw count differ. */
  predicate TallyOnly(s: Session, r: Session) {
    r == s.(score := r.score, enemiesDefeated := r.enemiesDefeated, bossActive := r.bossActive,
            enemies := r.enemies, bosses := r.bosses, draws := r.draws)
  }

  /** The effect of one bullet key of the enemy hits: 10 points, one kill, then a boss or a replacement enemy. */
  function Kill(s: Session, rng: nat -> Draw, now: int): (r: Session)
    requires Fair(rng)
    ensures TallyOnly(s, r)
    ensures r.score == s.score + 10 && r.enemiesDefeated == s.enemiesDefeated + 1
    ensures |r.bosses| == |s.bosses| + (if BossDue(r.enemiesDefeated) then 1 else 0)
    ensures |r.enemies| == |s.enemies| + (if !BossDue(r.enemiesDefeated) && !s.bossActive then 1 else 0)
    ensures r.bossActive <==> s.bossActive || BossDue(r.enemiesDefeated)
    ensures r.enemies[..|s.enemies|] == s.enemies && r.bosses[..|s.bosses|] == s.bosses
  {
    var s1 := s.(score := s.score + 10, enemiesDefeated := s.enemiesDefeated + 1);
    if BossDue(s1.enemiesDefeated) then SpawnBoss(s1, rng, now)
    else if !s1.bossActive then SpawnEnemy(s1, rng)
    else s1
  }

  /** How many multiples of the boss interval lie in `d+1 .. d+n`. */
  function Multiples(d: int, n: nat): nat
    decreases n
  {
    if n == 0 then 0 else Multiples(d, n - 1) + (if BossDue(d + n) then 1 else 0)
  }

  /** `n` kills in a row, as the loop over the enemy hits performs them. */
  function Kills(s: Session, n: nat, rng: nat -> Draw, now: int): (r: Session)
    requires Fair(rng)
    ensures TallyOnly(s, r)
    ensures r.score == s.score + 10 * n && r.enemiesDefeated == s.enemiesDefeated + n
    ensures |r.bosses| == |s.bosses| + Multiples(s.enemiesDefeated, n)
    ensures r.bossActive <==> s.bossActive || Multiples(s.enemiesDefeated, n) > 0
    ensures s.bossActive ==> |r.enemies| == |s.enemies|
    ensures !s.bossActive && Multiples(s.enemiesDefeated, n) == 0 ==> |r.enemies| == |s.enemies| + n
    ensures |s.enemies| <= |r.enemies| <= |s.enemies| + n
    ensures r.enemies[..|s.enemies|] == s.enemies && r.bosses[..|s.bosses|] == s.bosses
    decreases n
  {
    if n == 0 then s
    else
      var r0 := Kills(s, n - 1, rng, now);
      var r := Kill(r0, rng, now);
      assert r.enemies[..|s.enemies|] == r0.enemies[..|r0.enemies|][..|s.enemies|];
      assert r.bosses[..|s.bosses|] == r0.bosses[..|r0.bosses|][..|s.bosses|];
      r
  }

  /** A bullet key of `groupcollide`: the bullet and the enemies it took with it. */
  datatype Hit = Hit(bullet: nat, victims: set<nat>)

  /** The enemies overlapped by bullets `lo .. hi-1`. */
  function Reach(overlap: seq<set<nat>>, lo: nat, hi: nat): set<nat>
    requires hi <= |overlap|
    decreases hi - lo
  {
    if lo >= hi then {} else overlap[lo] + Reach(overlap, lo + 1, hi)
  }

  /** All enemies taken by the hits. */
  function Killed(hits: seq<Hit>): set<nat>
    decreases |hits|
  {
    if |hits| == 0 then {} else hits[0].victims + Killed(hits[1..])
  }

  /** The bullets that took at least one enemy. */
  function Shooters(hits: seq<Hit>): set<nat>
    decreases |hits|
  {
    if |hits| == 0 then {} else {hits[0].bullet} + Shooters(hits[1..])
  }

  /**
   * `groupcollide(bullets, enemies, True, True)` from bullet `i` on, with the
   * enemies in `taken` already gone: each bullet in group order takes every
   * remaining enemy it overlaps and is consumed if it took any.
   */
  function Collide(overlap: seq<set<nat>>, i: nat, taken: set<nat>): (hits: seq<Hit>)
    requires i <= |overlap|
    ensures forall h :: h in hits ==> i <= h.bullet < |overlap| && h.victims != {}
    ensures forall h :: h in hits ==> h.victims <= overlap[h.bullet] && h.victims !! taken
    decreases |overlap| - i
  {
    if i == |overlap| then []
    else
      var v := overlap[i] - taken;
      if v == {} then Collide(overlap, i + 1, taken)
      else [Hit(i, v)] + Collide(overlap, i + 1, taken + v)
  }

  /** The hits name each bullet once, in group order, and no enemy is taken by two bullets. */
  lemma {:induction false} CollideSeparate(overlap: seq<set<nat>>, i: nat, taken: set<nat>)
    requires i <= |overlap|
    ensures Separate(Collide(overlap, i, taken))
    decreases |overlap| - i
  {
    if i < |overlap| {
      var v := overlap[i] - taken;
      if v == {} {
        CollideSeparate(overlap, i + 1, taken);
      } else {
        CollideSeparate(overlap, i + 1, taken + v);
        HitFirst(Hit(i, v), Collide(overlap, i + 1, taken + v));
      }
    }
  }

  /** Later bullets, with victims of their own. */
  predicate Separate(hits: seq<Hit>) {
    forall a, b :: 0 <= a < b < |hits| ==> hits[a].bullet < hits[b].bullet && hits[a].victims !! hits[b].victims
  }

  /** A hit ahead of separate hits on later bullets and other enemies keeps them separate. */
  lemma HitFirst(h: Hit, rest: seq<Hit>)
    requires Separate(rest)
    requires forall x :: x in rest ==> h.bullet < x.bullet && h.victims !! x.victims
    ensures Separate([h] + rest)
  {
    var hits := [h] + rest;
    forall a, b | 0 <= a < b < |hits|
      ensures hits[a].bullet < hits[b].bullet && hits[a].victims !! hits[b].victims
    {
      assert hits[b] == rest[b - 1] && rest[b - 1] in rest;
      if a > 0 {
        assert hits[a] == rest[a - 1];
      }
    }
  }

  /** Hits listed in strictly increasing bullet order name as many bullets as there are hits. */
  lemma {:induction false} ShootersCount(hits: seq<Hit>)
    requires forall a, b :: 0 <= a < b < |hits| ==> hits[a].bullet < hits[b].bullet
    ensures |Shooters(hits)| == |hits|
    ensures |hits| > 0 ==> forall x :: x in Shooters(hits) ==> hits[0].bullet <= x
    decreases |hits|
  {
    if |hits| > 0 {
      var rest := hits[1..];
      assert forall a, b :: 0 <= a < b < |rest| ==> rest[a] == hits[a + 1] && rest[b] == hits[b + 1];
      ShootersCount(rest);
      if |rest| > 0 {
        assert rest[0] == hits[1];
      }
      assert hits[0].bullet !in Shooters(rest);
    }
  }

  /** Each bullet key of the enemy step is a distinct bullet: there are as many keys as consumed bullets. */
  lemma CollideKeys(overlap: seq<set<nat>>, i: nat, taken: set<nat>)
    requires i <= |overlap|
    ensures |Collide(overlap, i, taken)| == |Shooters(Collide(overlap, i, taken))|
  {
    CollideSeparate(overlap, i, taken);
    ShootersCount(Collide(overlap, i, taken));
  }

  /** The enemies removed are exactly those some bullet overlaps, apart from the ones already gone. */
  lemma {:induction false} CollideKilled(overlap: seq<set<nat>>, i: nat, taken: set<nat>)
    requires i <= |overlap|
    ensures Killed(Collide(overlap, i, taken)) == Reach(overlap, i, |overlap|) - taken
    decreases |overlap| - i
  {
    if i < |overlap| {
      var v := overlap[i] - taken;
      ReachStep(overlap, i, |overlap|);
      if v == {} {
        CollideKilled(overlap, i + 1, taken);
        assert forall x :: x in overlap[i] ==> x in v || x in taken;
      } else {
        CollideKilled(overlap, i + 1, taken + v);
        var hits := Collide(overlap, i, taken);
        assert hits[1..] == Collide(overlap, i + 1, taken + v);
      }
    }
  }

  /** A bullet is consumed by the enemy step iff it overlaps an enemy no earlier bullet took. */
  lemma {:induction false} CollideShooters(overlap: seq<set<nat>>, i: nat, taken: set<nat>, j: nat)
    requires i <= |overlap|
    ensures j in Shooters(Collide(overlap, i, taken)) <==> i <= j < |overlap| && !(overlap[j] <= taken + Reach(overlap, i, j))
    decreases |overlap| - i
  {
    if i < |overlap| {
      var v := overlap[i] - taken;
      if v == {} {
        CollideShooters(overlap, i + 1, taken, j);
        ShootersSkip(overlap, i, taken, j);
      } else {
        CollideShooters(overlap, i + 1, taken + v, j);
        ShootersTake(overlap, i, taken, j);
      }
    }
  }

  /** The induction step for a bullet that overlaps no remaining enemy. */
  lemma ShootersSkip(overlap: seq<set<nat>>, i: nat, taken: set<nat>, j: nat)
    requires i < |overlap| && overlap[i] - taken == {}
    requires j in Shooters(Collide(overlap, i + 1, taken)) <==> i + 1 <= j < |overlap| && !(overlap[j] <= taken + Reach(overlap, i + 1, j))
    ensures j in Shooters(Collide(overlap, i, taken)) <==> i <= j < |overlap| && !(overlap[j] <= taken + Reach(overlap, i, j))
  {
    assert Collide(overlap, i, taken) == Collide(overlap, i + 1, taken);
    assert forall x :: x in overlap[i] ==> x in overlap[i] - taken || x in taken;
    if j >= i + 1 && j < |overlap| {
      ReachStep(overlap, i, j);
      assert taken + Reach(overlap, i, j) == taken + Reach(overlap, i + 1, j);
    }
  }

  /** The induction step for a bullet that takes the enemies `overlap[i] - taken`. */
  lemma ShootersTake(overlap: seq<set<nat>>, i: nat, taken: set<nat>, j: nat)
    requires i < |overlap| && overlap[i] - taken != {}
    requires var v := overlap[i] - taken;
      j in Shooters(Collide(overlap, i + 1, taken + v)) <==> i + 1 <= j < |overlap| && !(overlap[j] <= taken + v + Reach(overlap, i + 1, j))
    ensures j in Shooters(Collide(overlap, i, taken)) <==> i <= j < |overlap| && !(overlap[j] <= taken + Reach(overlap, i, j))
  {
    var v := overlap[i] - taken;
    var hits := Collide(overlap, i, taken);
    assert hits == [Hit(i, v)] + Collide(overlap, i + 1, taken + v);
    assert hits[1..] == Collide(overlap, i + 1, taken + v);
    assert Shooters(hits) == {i} + Shooters(hits[1..]);
    if j >= i + 1 && j < |overlap| {
      ReachStep(overlap, i, j);
      assert taken + v + Reach(overlap, i + 1, j) == taken + Reach(overlap, i, j);
    }
  }

  /** Peeling the first bullet off a non-empty range. */
  lemma ReachStep(overlap: seq<set<nat>>, lo: nat, hi: nat)
    requires lo < hi <= |overlap|
    ensures Reach(overlap, lo, hi) == overlap[lo] + Reach(overlap, lo + 1, hi)
  {
  }

  /** Every bullet key took at least one enemy of its own, so there are no more keys than kills. */
  lemma {:induction false} CollideCount(overlap: seq<set<nat>>, i: nat, taken: set<nat>)
    requires i <= |overlap|
    ensures |Collide(overlap, i, taken)| <= |Killed(Collide(overlap, i, taken))|
    decreases |overlap| - i
  {
    if i < |overlap| {
      var v := overlap[i] - taken;
      if v == {} {
        CollideCount(overlap, i + 1, taken);
      } else {
        var rest := Collide(overlap, i + 1, taken + v);
        CollideCount(overlap, i + 1, taken + v);
        CollideKilled(overlap, i + 1, taken + v);
        var hits := Collide(overlap, i, taken);
        assert hits[1..] == rest;
        assert v !! Killed(rest);
        assert |v + Killed(rest)| == |v| + |Killed(rest)|;
      }
    }
  }

  // ------------------------------------------------------------- boss hits

  /** One boss hit by one bullet, as the boss-hits loop pairs them. */
  datatype Strike = Strike(bullet: nat, boss: nat)

  /**
   * `groupcollide(bullets, bosses, True, False)` over the bullets the enemy
   * step left (`spent` are gone): every remaining bullet with each boss it
   * overlaps, bullets in group order and, per bullet, bosses in group order.
   */
  function Strikes(overlap: seq<set<nat>>, spent: set<nat>, bosses: nat): (r: seq<Strike>)
    ensures forall x :: x in r ==> x.bullet < |overlap| && x.bullet !in spent && x.boss < bosses && x.boss in overlap[x.bullet]
    ensures forall i, j :: 0 <= i < |overlap| && i !in spent && j in overlap[i] && j < bosses ==> Strike(i, j) in r
    ensures Distinct(r)
    decreases |overlap|
  {
    if |overlap| == 0 then []
    else
      var n := |overlap| - 1;
      var before := Strikes(overlap[..n], spent, bosses);
      var m := if n in spent then [] else Members(overlap[n], bosses);
      assert forall i :: 0 <= i < n ==> overlap[..n][i] == overlap[i];
      var last := StrikesOf(n, m);
      DistinctJoin(before, last, n);
      before + last
  }

  /** No strike occurs twice: each overlapping bullet hits each boss once. */
  predicate Distinct(r: seq<Strike>) {
    forall a, b :: 0 <= a < b < |r| ==> r[a] != r[b]
  }

  /** The strikes of earlier bullets followed by those of bullet `n` repeat none. */
  lemma DistinctJoin(before: seq<Strike>, last: seq<Strike>, n: nat)
    requires Distinct(before) && Distinct(last)
    requires forall x :: x in before ==> x.bullet < n
    requires forall x :: x in last ==> x.bullet == n
    ensures Distinct(before + last)
  {
    var r := before + last;
    forall a, b | 0 <= a < b < |r| ensures r[a] != r[b] {
      if b < |before| {
        assert r[a] == before[a] && r[b] == before[b];
      } else if a >= |before| {
        assert r[a] == last[a - |before|] && r[b] == last[b - |before|];
      } else {
        assert r[a] in before && r[b] in last;
      }
    }
  }

  /** Bullet `i` striking each boss of `targets`, in order. */
  function StrikesOf(i: nat, targets: seq<nat>): (r: seq<Strike>)
    ensures forall x :: x in r <==> x.bullet == i && x.boss in targets
    ensures Ascending(targets) ==> Distinct(r)
    decreases |targets|
  {
    if |targets| == 0 then []
    else
      assert forall j :: j in targets <==> j == targets[0] || j in targets[1..];
      var rest := StrikesOf(i, targets[1..]);
      StrikeFirst(i, targets, rest);
      [Strike(i, targets[0])] + rest
  }

  /** Strictly increasing, so without repeats. */
  predicate Ascending(targets: seq<nat>) {
    forall a, b :: 0 <= a < b < |targets| ==> targets[a] < targets[b]
  }

  /** Striking the first of ascending targets repeats none of the strikes on the rest. */
  lemma StrikeFirst(i: nat, targets: seq<nat>, rest: seq<Strike>)
    requires |targets| > 0
    requires forall x :: x in rest ==> x.boss in targets[1..]
    requires Ascending(targets[1..]) ==> Distinct(rest)
    ensures Ascending(targets) ==> Distinct([Strike(i, targets[0])] + rest)
  {
    if Ascending(targets) {
      var tail := targets[1..];
      assert Ascending(tail) by {
        forall a, b | 0 <= a < b < |tail| ensures tail[a] < tail[b] {
          assert tail[a] == targets[a + 1] && tail[b] == targets[b + 1];
        }
      }
      forall x | x in rest ensures x.boss > targets[0] {
        var k :| 0 <= k < |tail| && tail[k] == x.boss;
        assert targets[k + 1] == x.boss;
      }
      var r := [Strike(i, targets[0])] + rest;
      forall a, b | 0 <= a < b < |r| ensures r[a] != r[b] {
        if a > 0 {
          assert r[a] == rest[a - 1] && r[b] == rest[b - 1];
        } else {
          assert r[b] in rest;
        }
      }
    }
  }

  /** The bullets that struck a boss. */
  function Strikers(strikes: seq<Strike>): (r: set<nat>)
    ensures forall i :: i in r <==> exists x :: x in strikes && x.bullet == i
  {
    set x | x in strikes :: x.bullet
  }

  /** The boss of each strike, in order. */
  function Targets(strikes: seq<Strike>): (r: seq<nat>)
    ensures |r| == |strikes| && forall k :: 0 <= k < |r| ==> r[k] == strikes[k].boss
  {
    seq(|strikes|, k requires 0 <= k < |strikes| => strikes[k].boss)
  }

  /** How often `j` occurs in `targets`. */
  function Occurrences(targets: seq<nat>, j: nat): nat
    decreases |targets|
  {
    if |targets| == 0 then 0
    else Occurrences(targets[..|targets| - 1], j) + (if targets[|targets| - 1] == j then 1 else 0)
  }

  /** How many of the hits left their boss at or below zero health. */
  function Deaths(bosses: seq<B.Boss>, targets: seq<nat>): nat
    requires forall k :: 0 <= k < |targets| ==> targets[k] < |bosses|
    decreases |targets|
  {
    if |targets| == 0 then 0
    else
      var j := targets[|targets| - 1];
      Deaths(bosses, targets[..|targets| - 1]) + (if bosses[j].health - Occurrences(targets, j) <= 0 then 1 else 0)
  }

  /** Every boss of `r` is the one of `s` after its hits in `targets`. */
  predicate Damaged(s: seq<B.Boss>, targets: seq<nat>, r: seq<B.Boss>) {
    && |r| == |s|
    && forall j :: 0 <= j < |s| ==> r[j] == s[j].(health := s[j].health - Occurrences(targets, j))
  }

  /**
   * One boss hit: one point of damage, and the death effects (flag cleared,
   * 100 points, two enemies) whenever the hit leaves the boss at or below
   * zero — even if an earlier hit of the same frame already did, since the
   * hits were paired before the loop began.
   */
  function HitBoss(s: Session, j: nat, rng: nat -> Draw): (r: Session)
    requires Fair(rng) && j < |s.bosses|
    ensures TallyOnly(s, r) && r.enemiesDefeated == s.enemiesDefeated
    ensures r.bosses == s.bosses[j := s.bosses[j].(health := s.bosses[j].health - 1)]
    ensures r.score == s.score + (if s.bosses[j].health <= 1 then 100 else 0)
    ensures |r.enemies| == |s.enemies| + (if s.bosses[j].health <= 1 then 2 else 0)
    ensures r.enemies[..|s.enemies|] == s.enemies
    ensures r.bossActive <==> s.bossActive && s.bosses[j].health > 1
  {
    var b := s.bosses[j].(health := s.bosses[j].health - 1);
    var s1 := s.(bosses := s.bosses[j := b]);
    if b.health <= 0 then
      var s2 := s1.(bossActive := false, score := s1.score + 100);
      SpawnEnemy(SpawnEnemy(s2, rng), rng)
    else s1
  }

  /** The boss-hits loop over the bosses struck, in order. */
  function HitBosses(s: Session, targets: seq<nat>, rng: nat -> Draw): (r: Session)
    requires Fair(rng)
    requires forall k :: 0 <= k < |targets| ==> targets[k] < |s.bosses|
    ensures TallyOnly(s, r) && r.enemiesDefeated == s.enemiesDefeated
    ensures |r.bosses| == |s.bosses| && |r.enemies| >= |s.enemies|
    ensures r.enemies[..|s.enemies|] == s.enemies
    decreases |targets|
  {
    if |targets| == 0 then s
    else
      var n := |targets| - 1;
      var r0 := HitBosses(s, targets[..n], rng);
      var r := HitBoss(r0, targets[n], rng);
      assert r.enemies[..|s.enemies|] == r0.enemies[..|r0.enemies|][..|s.enemies|];
      r
  }

  /** After the loop every boss has lost one point of health per hit it took. */
  lemma {:induction false} HitBossesDamage(s: Session, targets: seq<nat>, rng: nat -> Draw)
    requires Fair(rng)
    requires forall k :: 0 <= k < |targets| ==> targets[k] < |s.bosses|
    ensures Damaged(s.bosses, targets, HitBosses(s, targets, rng).bosses)
    decreases |targets|
  {
    if |targets| > 0 {
      var n := |targets| - 1;
      var before := targets[..n];
      HitBossesDamage(s, before, rng);
      var last := targets[n];
      assert forall j :: Occurrences(targets, j) == Occurrences(before, j) + (if last == j then 1 else 0);
    }
  }

  /** Each boss death of the loop is worth 100 points and two enemies, and clears the boss flag. */
  lemma {:induction false} HitBossesTally(s: Session, targets: seq<nat>, rng: nat -> Draw)
    requires Fair(rng)
    requires forall k :: 0 <= k < |targets| ==> targets[k] < |s.bosses|
    ensures HitBosses(s, targets, rng).score == s.score + 100 * Deaths(s.bosses, targets)
    ensures |HitBosses(s, targets, rng).enemies| == |s.enemies| + 2 * Deaths(s.bosses, targets)
    ensures HitBosses(s, targets, rng).bossActive <==> s.bossActive && Deaths(s.bosses, targets) == 0
    decreases |targets|
  {
    if |targets| > 0 {
      var n := |targets| - 1;
      var before := targets[..n];
      HitBossesTally(s, before, rng);
      HitBossesDamage(s, before, rng);
      var r0 := HitBosses(s, before, rng);
      var last := targets[n];
      assert Occurrences(targets, last) == Occurrences(before, last) + 1;
      var died := s.bosses[last].health - Occurrences(targets, last) <= 0;
      assert r0.bosses[last].health <= 1 <==> died;
    }
  }

  /**
   * The bosses `boss.kill()` removed: those struck whose health ended at or
   * below zero (health only falls, so the last hit on such a boss already
   * found it there).
   */
  function Fallen(bosses: seq<B.Boss>, targets: seq<nat>): (r: set<nat>)
    requires forall k :: 0 <= k < |targets| ==> targets[k] < |bosses|
    ensures forall j :: j in r ==> j < |bosses|
  {
    set j | j in targets && bosses[j].health - Occurrences(targets, j) <= 0
  }

  // ------------------------------------------------------------- collisions

  /**
   * The overlaps found in one frame (pygame's rectangle tests are not
   * modelled): boss bullets touching the player, for each bullet the enemies
   * and the bosses it overlaps, and the power-ups touching the player. Boss
   * positions refer to the boss group as the enemy step leaves it, so a boss
   * spawned in this frame can already be struck; other positions refer to
   * the groups when collision handling starts.
   */
  datatype Contacts = Contacts(
    bossBulletsOnPlayer: set<nat>,
    bulletEnemy: seq<set<nat>>,
    bulletBoss: seq<set<nat>>,
    powerUpsOnPlayer: set<nat>)

  /** The contacts name sprites that exist, and give one entry per bullet. */
  predicate Fits(s: Session, c: Contacts) {
    && c.bossBulletsOnPlayer <= Below(|s.bossBullets|)
    && |c.bulletEnemy| == |s.bullets|
    && (forall i :: 0 <= i < |c.bulletEnemy| ==> c.bulletEnemy[i] <= Below(|s.enemies|))
    && |c.bulletBoss| == |s.bullets|
    && c.powerUpsOnPlayer <= Below(|s.powerUps|)
  }

  /** The bullet keys of the enemy hits of a frame. */
  function EnemyHits(c: Contacts): seq<Hit> {
    Collide(c.bulletEnemy, 0, {})
  }

  /**
   * Bullets against enemies: every enemy some bullet overlaps is removed, the
   * others keep their order, then each bullet key counts one kill, whose
   * replacement enemy or boss is added at the end of its group.
   */
  function EnemyStage(s: Session, c: Contacts, rng: nat -> Draw, now: int): (r: Session)
    requires Fair(rng) && Fits(s, c)
    ensures TallyOnly(s, r)
    ensures r.score == s.score + 10 * |EnemyHits(c)| && r.enemiesDefeated == s.enemiesDefeated + |EnemyHits(c)|
    ensures |r.bosses| == |s.bosses| + Multiples(s.enemiesDefeated, |EnemyHits(c)|)
    ensures r.bossActive <==> s.bossActive || Multiples(s.enemiesDefeated, |EnemyHits(c)|) > 0
    ensures r.bosses[..|s.bosses|] == s.bosses
    ensures |EnemyHits(c)| <= |s.enemies|
    ensures Killed(EnemyHits(c)) == Reach(c.bulletEnemy, 0, |c.bulletEnemy|) && Killed(EnemyHits(c)) <= Below(|s.enemies|)
    ensures var gone := |Killed(EnemyHits(c))|;
      && gone <= |s.enemies| && |s.enemies| - gone <= |r.enemies|
      && r.enemies[..|s.enemies| - gone] == Without(s.enemies, Killed(EnemyHits(c)))
      && (s.bossActive ==> |r.enemies| == |s.enemies| - gone)
  {
    var hits := EnemyHits(c);
    var killed := Killed(hits);
    CollideCount(c.bulletEnemy, 0, {});
    CollideKilled(c.bulletEnemy, 0, {});
    ReachBelow(c.bulletEnemy, 0, |c.bulletEnemy|, |s.enemies|);
    BelowSubset(killed, |s.enemies|);
    var kept := Without(s.enemies, killed);
    var r := Kills(s.(enemies := kept), |hits|, rng, now);
    KeptFirst(s.enemies, killed, r.enemies);
    r
  }

  /** A group that starts with the survivors of a removal starts with all the survivors. */
  lemma KeptFirst<T>(xs: seq<T>, killed: set<nat>, ys: seq<T>)
    requires killed <= Below(|xs|)
    requires |Without(xs, killed)| <= |ys| && ys[..|Without(xs, killed)|] == Without(xs, killed)
    ensures |Without(xs, killed)| == |xs| - |killed|
    ensures |xs| - |killed| <= |ys| && ys[..|xs| - |killed|] == Without(xs, killed)
  {
    WithoutSize(xs, killed);
    assert killed * Below(|xs|) == killed;
  }

  /** The enemies overlapped by any range of bullets exist. */
  lemma {:induction false} ReachBelow(overlap: seq<set<nat>>, lo: nat, hi: nat, n: nat)
    requires hi <= |overlap|
    requires forall i :: 0 <= i < |overlap| ==> overlap[i] <= Below(n)
    ensures Reach(overlap, lo, hi) <= Below(n)
    decreases hi - lo
  {
    if lo < hi {
      ReachBelow(overlap, lo + 1, hi, n);
    }
  }

  /** A set of existing positions is no larger than the group. */
  lemma BelowSubset(S: set<nat>, n: nat)
    requires S <= Below(n)
    ensures |S| <= n
  {
    var rest := Below(n) - S;
    assert Below(n) == S + rest;
  }

  /** The bosses struck in one frame, one entry per (bullet, boss) pair, in the loop's order. */
  function BossTargets(overlap: seq<set<nat>>, spent: set<nat>, bosses: nat): (r: seq<nat>)
    ensures forall k :: 0 <= k < |r| ==> r[k] < bosses
  {
    var strikes := Strikes(overlap, spent, bosses);
    var r := Targets(strikes);
    assert forall k :: 0 <= k < |r| ==> strikes[k] in strikes;
    r
  }

  /** Every boss with the health it has left after its hits in `targets`. */
  function AfterHits(bosses: seq<B.Boss>, targets: seq<nat>): (r: seq<B.Boss>)
    ensures Damaged(bosses, targets, r)
  {
    seq(|bosses|, j requires 0 <= j < |bosses| => bosses[j].(health := bosses[j].health - Occurrences(targets, j)))
  }

  /**
   * Bullets against bosses, over the bullets the enemy step left (`spent`
   * are gone): every hit costs one health, every hit that leaves its boss at
   * or below zero pays 100 points and two enemies, the fallen bosses and the
   * bullets that struck are removed.
   */
  function BossStage(s: Session, overlap: seq<set<nat>>, spent: set<nat>, rng: nat -> Draw): (r: Session)
    requires Fair(rng) && |overlap| == |s.bullets|
    ensures r == s.(score := r.score, bossActive := r.bossActive, enemies := r.enemies,
                    bosses := r.bosses, bullets := r.bullets, draws := r.draws)
    ensures var targets := BossTargets(overlap, spent, |s.bosses|);
      && r.score == s.score + 100 * Deaths(s.bosses, targets)
      && |r.enemies| == |s.enemies| + 2 * Deaths(s.bosses, targets)
      && (r.bossActive <==> s.bossActive && Deaths(s.bosses, targets) == 0)
      && r.bosses == Without(AfterHits(s.bosses, targets), Fallen(s.bosses, targets))
    ensures r.enemies[..|s.enemies|] == s.enemies
    ensures r.bullets == Without(s.bullets, spent + Strikers(Strikes(overlap, spent, |s.bosses|)))
    ensures |r.bosses| <= |s.bosses|
  {
    var strikes := Strikes(overlap, spent, |s.bosses|);
    var targets := BossTargets(overlap, spent, |s.bosses|);
    var r := HitBosses(s, targets, rng);
    HitBossesTally(s, targets, rng);
    HitBossesDamage(s, targets, rng);
    var hurt := AfterHits(s.bosses, targets);
    assert r.bosses == hurt;
    r.(bosses := Without(hurt, Fallen(s.bosses, targets)), bullets := Without(s.bullets, spent + Strikers(strikes)))
  }

  /** The player collects the touching power-ups; any pickup (re)starts the triple shot at `now`. */
  function CollectPowerUps(s: Session, taken: set<nat>, now: int): (r: Session)
    requires taken <= Below(|s.powerUps|)
    ensures r == s.(powerUps := r.powerUps, player := r.player)
    ensures r.powerUps == Without(s.powerUps, taken) && |r.powerUps| == |s.powerUps| - |taken|
    ensures taken == {} ==> r == s
    ensures taken != {} ==> r.player.tripleShot && r.player.tripleShotTimer == now
    ensures r.player.x == s.player.x && r.player.y == s.player.y
  {
    WithoutSize(s.powerUps, taken);
    assert taken * Below(|s.powerUps|) == taken;
    var p := if taken == {} then s.player else P.ActivateTripleShot(s.player, now);
    s.(powerUps := Without(s.powerUps, taken), player := p)
  }

  /** Some enemy has passed the bottom edge. */
  predicate Breach(enemies: seq<E.Enemy>) {
    exists k :: 0 <= k < |enemies| && enemies[k].Breached()
  }

  /** The last collision step: an enemy past the bottom edge ends the session. */
  function CheckBreach(s: Session): (r: Session)
    ensures r == s.(gameActive := r.gameActive, gameOver := r.gameOver)
    ensures Breach(s.enemies) ==> !r.gameActive && r.gameOver
    ensures !Breach(s.enemies) ==> r == s
  {
    if Breach(s.enemies) then s.(gameActive := false, gameOver := true) else s
  }

  /** A boss bullet reached the player: the touching bullets vanish and the session ends. */
  function PlayerHit(s: Session, hitBy: set<nat>): (r: Session)
    requires hitBy <= Below(|s.bossBullets|)
    ensures r == s.(bossBullets := r.bossBullets, gameActive := false, gameOver := true)
    ensures r.bossBullets == Without(s.bossBullets, hitBy) && |r.bossBullets| == |s.bossBullets| - |hitBy|
    ensures forall k :: 0 <= k < |s.bossBullets| && k !in hitBy ==> s.bossBullets[k] in r.bossBullets
  {
    WithoutSize(s.bossBullets, hitBy);
    assert hitBy * Below(|s.bossBullets|) == hitBy;
    s.(bossBullets := Without(s.bossBullets, hitBy), gameActive := false, gameOver := true)
  }

  /** `handle_collisions`: the stages in the source's order, the first ending the frame early. */
  function Collisions(s: Session, c: Contacts, rng: nat -> Draw, now: int): (r: Session)
    requires Fair(rng) && Fits(s, c)
    ensures r.scores == s.scores && r.playerName == s.playerName
    ensures c.bossBulletsOnPlayer != {} ==> r == PlayerHit(s, c.bossBulletsOnPlayer)
    ensures c.bossBulletsOnPlayer == {} ==> r.enemiesDefeated == s.enemiesDefeated + |EnemyHits(c)|
    ensures c.bossBulletsOnPlayer == {} ==> r.bossBullets == s.bossBullets
    ensures c.bossBulletsOnPlayer == {} ==>
              var e := EnemyStage(s, c, rng, now).enemies; |e| <= |r.enemies| && r.enemies[..|e|] == e
    ensures c.bossBulletsOnPlayer == {} ==> r.score >= s.score + 10 * |EnemyHits(c)|
    ensures c.bossBulletsOnPlayer == {} ==> (r.gameOver <==> s.gameOver || Breach(r.enemies))
    ensures c.bossBulletsOnPlayer == {} ==> (r.gameActive <==> s.gameActive && !Breach(r.enemies))
  {
    if c.bossBulletsOnPlayer != {} then PlayerHit(s, c.bossBulletsOnPlayer)
    else
      var s1 := EnemyStage(s, c, rng, now);
      var s2 := BossStage(s1, c.bulletBoss, Shooters(EnemyHits(c)), rng);
      var s3 := CollectPowerUps(s2, c.powerUpsOnPlayer, now);
      CheckBreach(s3)
  }

  /**
   * When no boss bullet reaches the ship, the enemies the bullets overlapped
   * are gone at the end of the frame and the others keep their order, ahead
   * of any enemies the frame added.
   */
  lemma CollisionsRemoveStruck(s: Session, c: Contacts, rng: nat -> Draw, now: int)
    requires Fair(rng) && Fits(s, c) && c.bossBulletsOnPlayer == {}
    ensures var r := Collisions(s, c, rng, now);
            var gone := |Killed(EnemyHits(c))|;
            && gone <= |s.enemies| && |s.enemies| - gone <= |r.enemies|
            && r.enemies[..|s.enemies| - gone] == Without(s.enemies, Killed(EnemyHits(c)))
  {
    var s1 := EnemyStage(s, c, rng, now);
    var kept := Without(s.enemies, Killed(EnemyHits(c)));
    var n := |s.enemies| - |Killed(EnemyHits(c))|;
    assert s1.enemies[..n] == kept;
    assert |kept| == n;
    var r := Collisions(s, c, rng, now);
    PrefixOfPrefix(kept, s1.enemies, r.enemies);
  }

  /** A prefix of a prefix is a prefix. */
  lemma PrefixOfPrefix<T>(a: seq<T>, b: seq<T>, c: seq<T>)
    requires |a| <= |b| && b[..|a|] == a
    requires |b| <= |c| && c[..|b|] == b
    ensures c[..|a|] == a
  {
    assert c[..|a|] == c[..|b|][..|a|];
  }

  // ------------------------------------------------------------- shooting

  /** The angles of one shot: a fan of three under the triple shot, straight up otherwise. */
  function Spread(triple: bool): seq<int> {
    if triple then [-30, 0, 30] else [0]
  }

  /** `shoot`: the new bullets leave the ship's top centre. */
  function Shoot(s: Session): (r: Session)
    ensures r == s.(bullets := r.bullets)
    ensures |r.bullets| == |s.bullets| + (if s.player.tripleShot then 3 else 1)
    ensures r.bullets[..|s.bullets|] == s.bullets
    ensures forall k :: |s.bullets| <= k < |r.bullets| ==>
              r.bullets[k].centerX == s.player.CenterX() && r.bullets[k].bottom == s.player.Top()
    ensures s.player.tripleShot ==> r.bullets[|s.bullets|].angle == -30 && r.bullets[|s.bullets| + 1].angle == 0 && r.bullets[|s.bullets| + 2].angle == 30
    ensures !s.player.tripleShot ==> r.bullets[|s.bullets|].angle == 0
  {
    var angles := Spread(s.player.tripleShot);
    var shots := seq(|angles|, k requires 0 <= k < |angles| => Bullet(s.player.CenterX(), s.player.Top(), angles[k]));
    s.(bullets := s.bullets + shots)
  }

  // ------------------------------------------------------------ boss volley

  /** The horizontal offsets of the three bullets of a volley. */
  const VolleyOffsets: seq<int> := [-30, 0, 30]

  /** A boss that fires at clock reading `now`: done entering and its delay has passed. */
  predicate Ready(b: B.Boss, now: int) {
    !b.entryPhase && now - b.lastShot > B.ShootDelay
  }

  /** The three bullets of one volley, from the boss's bottom edge. */
  function Volley(b: B.Boss): (r: seq<B.BossBullet>)
    ensures |r| == |VolleyOffsets|
    ensures forall k :: 0 <= k < |r| ==> r[k].CenterX() == b.CenterX() + VolleyOffsets[k] && r[k].Top() == b.Bottom()
  {
    [B.Fire(b.CenterX() - 30, b.Bottom()), B.Fire(b.CenterX(), b.Bottom()), B.Fire(b.CenterX() + 30, b.Bottom())]
  }

  /** How many of the bosses are ready. */
  function ReadyCount(bosses: seq<B.Boss>, now: int): nat
    decreases |bosses|
  {
    if |bosses| == 0 then 0
    else ReadyCount(bosses[..|bosses| - 1], now) + (if Ready(bosses[|bosses| - 1], now) then 1 else 0)
  }

  /** The shooting loop over the bosses: every ready boss fires a volley and restarts its delay. */
  function Fire(bosses: seq<B.Boss>, now: int): (r: (seq<B.Boss>, seq<B.BossBullet>))
    ensures |r.0| == |bosses|
    ensures forall k :: 0 <= k < |bosses| ==> r.0[k] == if Ready(bosses[k], now) then bosses[k].(lastShot := now) else bosses[k]
    ensures |r.1| == 3 * ReadyCount(bosses, now)
    ensures VolleysAt(bosses, now, r.1)
    decreases |bosses|
  {
    if |bosses| == 0 then ([], [])
    else
      var n := |bosses| - 1;
      var before := Fire(bosses[..n], now);
      var b := bosses[n];
      var bullets := before.1 + (if Ready(b, now) then Volley(b) else []);
      VolleysExtend(bosses, now, before.1, bullets);
      if Ready(b, now) then (before.0 + [b.(lastShot := now)], bullets)
      else (before.0 + [b], bullets)
  }

  /** Each ready boss's volley sits in `bullets` after three bullets per ready boss before it. */
  predicate VolleysAt(bosses: seq<B.Boss>, now: int, bullets: seq<B.BossBullet>) {
    forall k :: 0 <= k < |bosses| && Ready(bosses[k], now) ==>
      && 3 * ReadyCount(bosses[..k], now) + 3 <= |bullets|
      && bullets[3 * ReadyCount(bosses[..k], now)..3 * ReadyCount(bosses[..k], now) + 3] == Volley(bosses[k])
  }

  /** Appending the last boss's volley, if it is ready, keeps the earlier volleys in place. */
  lemma VolleysExtend(bosses: seq<B.Boss>, now: int, before: seq<B.BossBullet>, bullets: seq<B.BossBullet>)
    requires |bosses| > 0
    requires |before| == 3 * ReadyCount(bosses[..|bosses| - 1], now)
    requires VolleysAt(bosses[..|bosses| - 1], now, before)
    requires bullets == before + (if Ready(bosses[|bosses| - 1], now) then Volley(bosses[|bosses| - 1]) else [])
    ensures VolleysAt(bosses, now, bullets)
  {
    var n := |bosses| - 1;
    var head := bosses[..n];
    forall k | 0 <= k < |bosses| && Ready(bosses[k], now)
      ensures && 3 * ReadyCount(bosses[..k], now) + 3 <= |bullets|
              && bullets[3 * ReadyCount(bosses[..k], now)..3 * ReadyCount(bosses[..k], now) + 3] == Volley(bosses[k])
    {
      if k < n {
        assert head[k] == bosses[k] && head[..k] == bosses[..k];
        var a := 3 * ReadyCount(bosses[..k], now);
        assert a + 3 <= |before|;
        assert bullets[a..a + 3] == before[a..a + 3];
      } else {
        assert bosses[..k] == head;
        assert bullets[|before|..|before| + 3] == Volley(bosses[n]);
      }
    }
  }

  /** `handle_boss_shooting`: only while the boss flag is up. */
  function BossShooting(s: Session, now: int): (r: Session)
    ensures r == s.(bosses := r.bosses, bossBullets := r.bossBullets)
    ensures !s.bossActive ==> r == s
    ensures s.bossActive ==> r.bosses == Fire(s.bosses, now).0
    ensures s.bossActive ==> r.bossBullets == s.bossBullets + Fire(s.bosses, now).1
  {
    if s.bossActive then
      var f := Fire(s.bosses, now);
      s.(bosses := f.0, bossBullets := s.bossBullets + f.1)
    else s
  }

  // ------------------------------------------------------------------ reset

  /** `reset_game`: a fresh round with a new ship and two enemies; the player and the score table stay. */
  function Reset(s: Session, rng: nat -> Draw): (r: Session)
    requires Fair(rng)
    ensures r.gameActive && !r.gameOver && !r.bossActive
    ensures r.score == 0 && r.enemiesDefeated == 0
    ensures r.player == P.New()
    ensures |r.enemies| == 2 && forall k :: 0 <= k < 2 ==> !r.enemies[k].Breached()
    ensures forall k :: 0 <= k < 2 ==>
              && r.enemies[k].Left() == rng(s.draws + k).x && r.enemies[k].Top() == rng(s.draws + k).y
              && r.enemies[k].speedY == rng(s.draws + k).speed
    ensures r.bullets == [] && r.bossBullets == [] && r.powerUps == [] && r.bosses == []
    ensures r.playerName == s.playerName && r.scores == s.scores && r.draws == s.draws + 2
  {
    var s2 := SpawnEnemy(Cleared(s), rng);
    var s3 := SpawnEnemy(s2, rng);
    assert s3.enemies[0] == s2.enemies[0] by { assert s3.enemies[..1] == s2.enemies; }
    s3
  }

  /** The state `reset_game` sets before its two spawns. */
  function Cleared(s: Session): (r: Session)
    ensures r.gameActive && !r.gameOver && !r.bossActive && r.score == 0 && r.enemiesDefeated == 0
    ensures r.player == P.New() && r.enemies == []
    ensures r.bullets == [] && r.bossBullets == [] && r.powerUps == [] && r.bosses == []
    ensures r.playerName == s.playerName && r.scores == s.scores && r.draws == s.draws
  {
    s.(gameActive := true, gameOver := false, score := 0, enemiesDefeated := 0, bossActive := false,
       enemies := [], bullets := [], bossBullets := [], powerUps := [], bosses := [],
       player := P.New())
  }

  /** The Space key: shoot during a round, start a new one otherwise. */
  function Space(s: Session, rng: nat -> Draw): (r: Session)
    requires Fair(rng)
    ensures s.gameActive ==> r == Shoot(s)
    ensures !s.gameActive ==> r == Reset(s, rng)
    ensures r.gameActive
  {
    if s.gameActive then Shoot(s) else Reset(s, rng)
  }

  /** `n` Space presses handled in order. */
  function Presses(s: Session, n: nat, rng: nat -> Draw): (r: Session)
    requires Fair(rng)
    ensures n == 0 ==> r == s
    ensures n > 0 ==> r.gameActive
    ensures r.scores == s.scores && r.playerName == s.playerName
    decreases n
  {
    if n == 0 then s else Space(Presses(s, n - 1, rng), rng)
  }

  // ------------------------------------------------------------- high score

  /** What an update leaves behind: the session and, when the high score was beaten, the text written to the score file. */
  datatype Outcome = Outcome(session: Session, saved: Option<string>)

  /** The player's stored high score, 0 when there is none. */
  function Best(t: S.Table, name: string): int {
    S.Get(t, name).GetOr(0)
  }

  /** The high-score block of `update`: a beaten record is stored and the whole table saved at once. */
  function RecordHighScore(s: Session): (r: Outcome)
    requires s.scores.Valid()
    ensures r.session == s.(scores := r.session.scores) && r.session.scores.Valid()
    ensures Best(r.session.scores, s.playerName) == if s.score > Best(s.scores, s.playerName) then s.score else Best(s.scores, s.playerName)
    ensures forall n :: n != s.playerName ==> S.Get(r.session.scores, n) == S.Get(s.scores, n)
    ensures r.saved.Some? <==> s.score > Best(s.scores, s.playerName)
    ensures r.saved.Some? ==> r.saved.value == S.Save(r.session.scores)
    ensures r.saved.None? ==> r.session == s
  {
    if s.score > Best(s.scores, s.playerName) then
      var t := S.Put(s.scores, s.playerName, s.score);
      Outcome(s.(scores := t), Some(S.Save(t)))
    else Outcome(s, None)
  }

  // ------------------------------------------------------------ movement

  /** A group after one frame of self-removing updates: the survivors, moved, in order. */
  function Survivors<T(!new)>(xs: seq<T>, step: T -> Option<T>): (r: seq<T>)
    ensures |r| <= |xs|
    ensures forall y :: y in r <==> exists k :: 0 <= k < |xs| && step(xs[k]) == Some(y)
    decreases |xs|
  {
    if |xs| == 0 then []
    else
      var rest := Survivors(xs[1..], step);
      assert forall k :: 1 <= k < |xs| ==> xs[1..][k - 1] == xs[k];
      match step(xs[0])
      case None => rest
      case Some(y) => [y] + rest
  }

  /** Boss bullets move down one step; those whose top passes the bottom edge are removed. */
  lemma BossBulletsFall(bs: seq<B.BossBullet>)
    ensures forall b :: b in Survivors(bs, B.UpdateBullet) ==> b.Top() <= Config.ScreenHeight
    ensures forall k :: 0 <= k < |bs| && bs[k].Top() + B.BulletSpeed <= Config.ScreenHeight ==>
              bs[k].(y := bs[k].y + B.BulletSpeed) in Survivors(bs, B.UpdateBullet)
  {
    var r := Survivors(bs, B.UpdateBullet);
    forall b | b in r ensures b.Top() <= Config.ScreenHeight {
      var k :| 0 <= k < |bs| && B.UpdateBullet(bs[k]) == Some(b);
    }
    forall k | 0 <= k < |bs| && bs[k].Top() + B.BulletSpeed <= Config.ScreenHeight
      ensures bs[k].(y := bs[k].y + B.BulletSpeed) in r
    {
      assert B.UpdateBullet(bs[k]) == Some(bs[k].(y := bs[k].y + B.BulletSpeed));
    }
  }

  /** Power-ups move down one step; those whose top passes the bottom edge are removed. */
  lemma PowerUpsFall(ps: seq<U.PowerUp>)
    ensures forall p :: p in Survivors(ps, U.Update) ==> p.Top() <= Config.ScreenHeight
    ensures forall k :: 0 <= k < |ps| && ps[k].Top() + U.Speed <= Config.ScreenHeight ==>
              ps[k].(y := ps[k].y + U.Speed) in Survivors(ps, U.Update)
  {
    var r := Survivors(ps, U.Update);
    forall p | p in r ensures p.Top() <= Config.ScreenHeight {
      var k :| 0 <= k < |ps| && U.Update(ps[k]) == Some(p);
    }
    forall k | 0 <= k < |ps| && ps[k].Top() + U.Speed <= Config.ScreenHeight
      ensures ps[k].(y := ps[k].y + U.Speed) in r
    {
      assert U.Update(ps[k]) == Some(ps[k].(y := ps[k].y + U.Speed));
    }
  }

  /** `all_sprites.update()`: every sprite moves once; bullets leaving the screen are the `exits`. */
  function MoveSprites(s: Session, left: bool, right: bool, now: int, exits: set<nat>): (r: Session)
    ensures r == s.(player := r.player, enemies := r.enemies, bullets := r.bullets,
                    bossBullets := r.bossBullets, powerUps := r.powerUps, bosses := r.bosses)
    ensures r.player == P.Update(s.player, left, right, now)
    ensures |r.enemies| == |s.enemies| && forall k :: 0 <= k < |s.enemies| ==> r.enemies[k] == E.Update(s.enemies[k])
    ensures r.bullets == Without(s.bullets, exits)
    ensures r.bossBullets == Survivors(s.bossBullets, B.UpdateBullet) && r.powerUps == Survivors(s.powerUps, U.Update)
    ensures forall b :: b in r.bossBullets ==> b.Top() <= Config.ScreenHeight
    ensures forall k :: 0 <= k < |s.bossBullets| && s.bossBullets[k].Top() + B.BulletSpeed <= Config.ScreenHeight ==>
              s.bossBullets[k].(y := s.bossBullets[k].y + B.BulletSpeed) in r.bossBullets
    ensures forall p :: p in r.powerUps ==> p.Top() <= Config.ScreenHeight
    ensures forall k :: 0 <= k < |s.powerUps| && s.powerUps[k].Top() + U.Speed <= Config.ScreenHeight ==>
              s.powerUps[k].(y := s.powerUps[k].y + U.Speed) in r.powerUps
    ensures |r.bosses| == |s.bosses| && forall k :: 0 <= k < |s.bosses| ==> r.bosses[k] == B.Update(s.bosses[k])
  {
    var bb := Survivors(s.bossBullets, B.UpdateBullet);
    var pu := Survivors(s.powerUps, U.Update);
    BossBulletsFall(s.bossBullets);
    PowerUpsFall(s.powerUps);
    s.(player := P.Update(s.player, left, right, now),
       enemies := seq(|s.enemies|, k requires 0 <= k < |s.enemies| => E.Update(s.enemies[k])),
       bullets := Without(s.bullets, exits),
       bossBullets := bb,
       powerUps := pu,
       bosses := seq(|s.bosses|, k requires 0 <= k < |s.bosses| => B.Update(s.bosses[k])))
  }

  // -------------------------------------------------------------- one frame

  /** What a frame brings from outside: the clock, the keys, the random power-up, and the geometry. */
  datatype Frame = Frame(
    now: int,
    left: bool,
    right: bool,
    spaces: nat,
    powerUp: Option<(int, int)>,
    bulletExits: set<nat>,
    contacts: Contacts)

  /** A power-up position the spawn can draw, if one spawns. */
  predicate PowerUpFits(drop: Option<(int, int)>) {
    drop.Some? ==> U.SpawnRange(drop.value.0, drop.value.1)
  }

  /** The sprites as collision handling finds them: a power-up perhaps added, everything moved, the volley fired. */
  function Advance(s: Session, f: Frame): (r: Session)
    requires PowerUpFits(f.powerUp)
    ensures r.score == s.score && r.enemiesDefeated == s.enemiesDefeated && r.bossActive == s.bossActive
    ensures r.gameActive == s.gameActive && r.gameOver == s.gameOver
    ensures r.scores == s.scores && r.playerName == s.playerName && r.draws == s.draws
    ensures |r.enemies| == |s.enemies| && |r.bosses| == |s.bosses|
  {
    var s1 := if f.powerUp.Some? then s.(powerUps := s.powerUps + [U.Spawn(f.powerUp.value.0, f.powerUp.value.1)]) else s;
    BossShooting(MoveSprites(s1, f.left, f.right, f.now, f.bulletExits), f.now)
  }

  /** `update`: one frame of play followed by the high-score check. */
  function Update(s: Session, f: Frame, rng: nat -> Draw): (r: Outcome)
    requires Fair(rng) && s.scores.Valid() && PowerUpFits(f.powerUp)
    requires Fits(Advance(s, f), f.contacts)
    ensures r.session.scores.Valid() && r.session.playerName == s.playerName
    ensures Best(r.session.scores, s.playerName) >= Best(s.scores, s.playerName)
    ensures Best(r.session.scores, s.playerName) >= r.session.score
    ensures forall n :: n != s.playerName ==> S.Get(r.session.scores, n) == S.Get(s.scores, n)
    ensures r.saved.Some? <==> r.session.score > Best(s.scores, s.playerName)
    ensures r.saved.Some? ==> r.saved.value == S.Save(r.session.scores)
  {
    var played := Collisions(Advance(s, f), f.contacts, rng, f.now);
    assert played.scores == s.scores && played.playerName == s.playerName;
    RecordHighScore(played)
  }

  /** One pass of the main loop: the Space presses, then an update if a round is on. */
  function Tick(s: Session, f: Frame, rng: nat -> Draw): (r: Outcome)
    requires Fair(rng) && s.scores.Valid() && PowerUpFits(f.powerUp)
    requires Presses(s, f.spaces, rng).gameActive ==> Fits(Advance(Presses(s, f.spaces, rng), f), f.contacts)
    ensures !Presses(s, f.spaces, rng).gameActive ==> r == Outcome(s, None)
    ensures r.session.scores.Valid() && Best(r.session.scores, s.playerName) >= Best(s.scores, s.playerName)
  {
    var s1 := Presses(s, f.spaces, rng);
    if s1.gameActive then Update(s1, f, rng) else Outcome(s1, None)
  }

  // ------------------------------------------------------- start and finish

  /** The longest name the prompt accepts. */
  const MaxNameLength: nat := 20

  /** How many answers the prompt reads at most. */
  const MaxAttempts: nat := 3

  /** An answer the prompt accepts once stripped. */
  predicate Acceptable(name: string) {
    0 < |name| <= MaxNameLength
  }

  /**
   * `get_player_name`: the first of at most three answers that is acceptable
   * once stripped. Running out of answers stands for end of input, which
   * ends the prompt at once.
   */
  method PromptName(answers: seq<string>) returns (name: Option<string>)
    ensures name.Some? ==> exists k :: 0 <= k < MaxAttempts && k < |answers| && name.value == Text.Strip(answers[k])
    ensures name.Some? ==> Acceptable(name.value)
    ensures name.Some? ==> exists k :: (0 <= k < MaxAttempts && k < |answers| && name.value == Text.Strip(answers[k]) &&
              forall j :: 0 <= j < k ==> !Acceptable(Text.Strip(answers[j])))
    ensures name.None? <==> forall k :: 0 <= k < MaxAttempts && k < |answers| ==> !Acceptable(Text.Strip(answers[k]))
  {
    var attempts := 0;
    while attempts < MaxAttempts
      invariant 0 <= attempts <= MaxAttempts
      invariant forall k :: 0 <= k < attempts && k < |answers| ==> !Acceptable(Text.Strip(answers[k]))
    {
      if attempts >= |answers| {
        return None;
      }
      var answer := Text.Strip(answers[attempts]);
      if Acceptable(answer) {
        return Some(answer);
      }
      attempts := attempts + 1;
    }
    return None;
  }

  /** The state `Game.__init__` builds: no round, no sprites, an empty table. */
  function Initial(): Session {
    Session(false, false, 0, 0, false, P.New(), [], [], [], [], [], "", S.Empty, 0)
  }

  /**
   * `run` up to the main loop. With a name, the table is loaded and the
   * player enrolled, and the ship and two enemies wait on the start screen.
   * Without one, the program ends — and its closing save writes the table
   * `__init__` left, which is empty.
   */
  function LaunchAsWritten(name: Option<string>, file: Option<string>, rng: nat -> Draw): (r: Outcome)
    requires Fair(rng)
    ensures name.None? ==> r.saved == Some(S.Save(S.Empty))
    ensures name.Some? ==> r.saved.None? && r.session == Launch(name, file, rng).session
  {
    if name.None? then Outcome(Initial(), Some(S.Save(S.Empty)))
    else Launch(name, file, rng)
  }

  /** `run` up to the main loop, writing nothing when no name was given. */
  function Launch(name: Option<string>, file: Option<string>, rng: nat -> Draw): (r: Outcome)
    requires Fair(rng)
    ensures r.saved.None?
    ensures name.None? ==> r.session == Initial()
    ensures name.Some? ==> r.session.playerName == name.value && r.session.scores == S.Enroll(S.Load(file), name.value)
    ensures name.Some? ==> !r.session.gameActive && !r.session.gameOver && r.session.score == 0
    ensures name.Some? ==> r.session.player == P.New() && |r.session.enemies| == 2 && r.session.draws == 2
    ensures r.session.scores.Valid()
  {
    if name.None? then Outcome(Initial(), None)
    else
      var s := Initial().(playerName := name.value, scores := S.Enroll(S.Load(file), name.value));
      Outcome(SpawnEnemy(SpawnEnemy(s, rng), rng), None)
  }

  /** The closing save of `run`: the whole table as text, which the next launch reads back unchanged. */
  function Close(s: Session): (text: string)
    requires s.scores.Valid()
    ensures (forall j :: 0 <= j < |s.scores.order| ==> S.Storable(s.scores.order[j])) ==> S.Load(Some(text)) == s.scores
  {
    if forall j :: 0 <= j < |s.scores.order| ==> S.Storable(s.scores.order[j]) then
      S.RoundTrip(s.scores);
      S.Save(s.scores)
    else S.Save(s.scores)
  }
}
