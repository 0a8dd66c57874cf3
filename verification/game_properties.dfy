/**
 * Properties of the session engine that relate several operations or
 * several frames: when bosses appear, what a boss death is worth, how often
 * a boss fires, and the one-boss discipline.
 */
module GameProperties {
  import opened Wrappers
  import opened Indexed
  import Config
  import B = BossSprite
  import opened Game
  import S = ScoreManager

  // ------------------------------------------------------------ kill counts

  /** The number of boss spawns over `n` kills, in closed form. */
  lemma {:induction false} MultiplesClosedForm(d: int, n: nat)
    ensures Multiples(d, n) == (d + n) / Config.BossSpawnInterval - d / Config.BossSpawnInterval
    decreases n
  {
    if n > 0 {
      MultiplesClosedForm(d, n - 1);
      var q := (d + n - 1) / 15;
      var m := (d + n - 1) % 15;
      assert d + n - 1 == 15 * q + m;
      if m == 14 {
        assert d + n == 15 * (q + 1);
      } else {
        assert d + n == 15 * q + (m + 1);
      }
    }
  }

  /** At most one boss per fifteen kills, and none before the counter crosses a multiple of fifteen. */
  lemma MultiplesBound(d: int, n: nat)
    ensures n <= Config.BossSpawnInterval ==> Multiples(d, n) <= 1
    ensures d % Config.BossSpawnInterval + n < Config.BossSpawnInterval ==> Multiples(d, n) == 0
    ensures n == Config.BossSpawnInterval ==> Multiples(d, n) == 1
  {
    MultiplesClosedForm(d, n);
    var q := d / 15;
    var m := d % 15;
    assert d == 15 * q + m;
    if n <= 15 {
      assert d + n == 15 * q + (m + n) && m + n < 30;
      if m + n < 15 {
        assert (d + n) / 15 == q;
      } else {
        assert (d + n) / 15 == q + 1;
      }
    }
  }

  /** The fifteenth kill of a round brings the first boss; the fourteen before it are each replaced. */
  lemma FirstBoss(s: Session, rng: nat -> Draw, now: int, n: nat)
    requires Fair(rng)
    requires s.enemiesDefeated == 0 && !s.bossActive && 0 < n <= Config.BossSpawnInterval
    ensures n < Config.BossSpawnInterval ==>
              var r := Kills(s, n, rng, now);
              |r.bosses| == |s.bosses| && |r.enemies| == |s.enemies| + n && !r.bossActive
    ensures n == Config.BossSpawnInterval ==>
              var r := Kills(s, n, rng, now);
              && |r.bosses| == |s.bosses| + 1 && r.bossActive
              && |r.enemies| == |s.enemies| + n - 1 && r.score == s.score + 10 * n
  {
    MultiplesBound(0, n);
    if n == Config.BossSpawnInterval {
      MultiplesBound(0, n - 1);
      var before := Kills(s, n - 1, rng, now);
      assert !before.bossActive && |before.enemies| == |s.enemies| + n - 1;
      assert before.enemiesDefeated == n - 1;
      var r := Kill(before, rng, now);
      assert BossDue(r.enemiesDefeated);
      assert Kills(s, n, rng, now) == r;
    }
  }

  /** While no boss is up and none is due, every kill is replaced: the enemy count falls only by the enemies a bullet took beyond its first. */
  lemma ReplacedKills(s: Session, c: Contacts, rng: nat -> Draw, now: int)
    requires Fair(rng) && Fits(s, c)
    requires !s.bossActive
    requires s.enemiesDefeated % Config.BossSpawnInterval + |s.enemies| < Config.BossSpawnInterval
    ensures |EnemyStage(s, c, rng, now).enemies| == |s.enemies| - |Killed(EnemyHits(c))| + |EnemyHits(c)|
    ensures !EnemyStage(s, c, rng, now).bossActive
  {
    var hits := EnemyHits(c);
    CollideKilled(c.bulletEnemy, 0, {});
    ReachBelow(c.bulletEnemy, 0, |c.bulletEnemy|, |s.enemies|);
    var killed := Killed(hits);
    assert killed * Below(|s.enemies|) == killed;
    WithoutSize(s.enemies, killed);
    MultiplesBound(s.enemiesDefeated, |hits|);
  }

  /** The bullets that took an enemy are bullets of the group. */
  lemma ShootersExist(c: Contacts)
    ensures Shooters(EnemyHits(c)) <= Below(|c.bulletEnemy|)
  {
    forall j | j in Shooters(EnemyHits(c)) ensures j in Below(|c.bulletEnemy|) {
      CollideShooters(c.bulletEnemy, 0, {}, j);
    }
  }

  /**
   * Bullet accounting of the boss step: a bullet spent on an enemy strikes no
   * boss, and every bullet that took an enemy or struck a boss is removed
   * exactly once.
   */
  lemma BulletsSpentOnce(s: Session, overlap: seq<set<nat>>, spent: set<nat>, rng: nat -> Draw)
    requires Fair(rng) && |overlap| == |s.bullets| && spent <= Below(|s.bullets|)
    ensures Strikers(Strikes(overlap, spent, |s.bosses|)) !! spent
    ensures |BossStage(s, overlap, spent, rng).bullets|
            == |s.bullets| - |spent| - |Strikers(Strikes(overlap, spent, |s.bosses|))|
  {
    var strikers := Strikers(Strikes(overlap, spent, |s.bosses|));
    var used := spent + strikers;
    assert strikers <= Below(|s.bullets|);
    assert used * Below(|s.bullets|) == used;
    WithoutSize(s.bullets, used);
  }

  // -------------------------------------------------------------- boss hits

  /** `m` hits, all on boss 0. */
  function Repeat(m: nat): (r: seq<nat>)
    ensures |r| == m && forall k :: 0 <= k < m ==> r[k] == 0
  {
    seq(m, k => 0)
  }

  lemma {:induction false} RepeatOccurrences(m: nat)
    ensures Occurrences(Repeat(m), 0) == m
    decreases m
  {
    if m > 0 {
      assert Repeat(m)[..m - 1] == Repeat(m - 1);
      RepeatOccurrences(m - 1);
    }
  }

  /**
   * Overkill: a boss with `h >= 1` health hit `m` times in one frame dies
   * once for every hit from the `h`-th on, and each of those deaths pays out.
   */
  lemma {:induction false} Overkill(b: B.Boss, m: nat)
    requires b.health >= 1
    ensures Deaths([b], Repeat(m)) == if m < b.health then 0 else m - b.health + 1
    decreases m
  {
    if m > 0 {
      assert Repeat(m)[..m - 1] == Repeat(m - 1);
      Overkill(b, m - 1);
      RepeatOccurrences(m);
    }
  }

  /** A full-health boss takes fifteen hits; a sixteenth in the same frame kills it a second time. */
  lemma FifteenHitsAndOneMore(s: Session, rng: nat -> Draw)
    requires Fair(rng) && |s.bosses| == 1 && s.bosses[0].health == B.MaxHealth && s.bossActive
    ensures HitBosses(s, Repeat(14), rng).bossActive
    ensures !HitBosses(s, Repeat(15), rng).bossActive
    ensures HitBosses(s, Repeat(15), rng).score == s.score + 100
    ensures |HitBosses(s, Repeat(15), rng).enemies| == |s.enemies| + 2
    ensures HitBosses(s, Repeat(16), rng).score == s.score + 200
    ensures |HitBosses(s, Repeat(16), rng).enemies| == |s.enemies| + 4
  {
    assert s.bosses == [s.bosses[0]];
    Overkill(s.bosses[0], 14);
    Overkill(s.bosses[0], 15);
    Overkill(s.bosses[0], 16);
    HitBossesTally(s, Repeat(14), rng);
    HitBossesTally(s, Repeat(15), rng);
    HitBossesTally(s, Repeat(16), rng);
  }

  /** The bosses removed at the end of the boss step are there iff some hit was a death. */
  lemma {:induction false} FallenDeaths(bosses: seq<B.Boss>, targets: seq<nat>)
    requires forall k :: 0 <= k < |targets| ==> targets[k] < |bosses|
    ensures Fallen(bosses, targets) == {} <==> Deaths(bosses, targets) == 0
    decreases |targets|
  {
    if |targets| > 0 {
      var n := |targets| - 1;
      var before := targets[..n];
      var last := targets[n];
      FallenDeaths(bosses, before);
      assert forall j :: Occurrences(targets, j) == Occurrences(before, j) + (if last == j then 1 else 0);
      assert forall j :: j in targets <==> j in before || j == last;
      if Deaths(bosses, before) > 0 {
        var j :| j in Fallen(bosses, before);
        assert j in Fallen(bosses, targets);
      }
      if bosses[last].health - Occurrences(targets, last) <= 0 {
        assert last in Fallen(bosses, targets);
      }
    }
  }

  // ---------------------------------------------------------------- volley

  /** A boss that fired waits out its whole delay before the next volley. */
  lemma NoRapidFire(bosses: seq<B.Boss>, now: int, later: int, k: nat)
    requires k < |bosses| && Ready(bosses[k], now)
    requires later - now <= B.ShootDelay
    ensures !Ready(Fire(bosses, now).0[k], later)
    ensures Ready(Fire(bosses, now).0[k], now + B.ShootDelay + 1)
  {
  }

  /** A single boss that is ready fires exactly its three bullets, and the flag must be up for it to fire. */
  lemma OneVolley(s: Session, now: int)
    requires |s.bosses| == 1
    ensures s.bossActive && Ready(s.bosses[0], now) ==> BossShooting(s, now).bossBullets == s.bossBullets + Volley(s.bosses[0])
    ensures !s.bossActive || !Ready(s.bosses[0], now) ==> BossShooting(s, now).bossBullets == s.bossBullets
  {
    assert s.bosses[..0] == [];
    assert Fire(s.bosses, now) == Fire(s.bosses[..1], now);
  }

  // ---------------------------------------------------------------- bosses

  /** At most one boss, and the flag says whether there is one. */
  predicate OneBossAtMost(s: Session) {
    |s.bosses| <= 1 && (s.bossActive <==> |s.bosses| == 1)
  }

  /**
   * Few enough enemies that this frame cannot bring a boss while one is up
   * (every kill is a bullet key, and no bullet key goes without a kill), nor
   * more than one when none is.
   */
  predicate EnemyBudget(s: Session) {
    if s.bossActive then s.enemiesDefeated % Config.BossSpawnInterval + |s.enemies| < Config.BossSpawnInterval
    else |s.enemies| <= Config.BossSpawnInterval
  }

  /** A fresh round has no boss and two enemies. */
  lemma ResetIsCalm(s: Session, rng: nat -> Draw)
    requires Fair(rng)
    ensures OneBossAtMost(Reset(s, rng)) && EnemyBudget(Reset(s, rng))
  {
  }

  /** The enemy step keeps the one-boss discipline within the budget. */
  lemma EnemyStageOneBoss(s: Session, c: Contacts, rng: nat -> Draw, now: int)
    requires Fair(rng) && Fits(s, c)
    requires OneBossAtMost(s) && EnemyBudget(s)
    ensures OneBossAtMost(EnemyStage(s, c, rng, now))
  {
    MultiplesBound(s.enemiesDefeated, |EnemyHits(c)|);
  }

  /** The boss step never adds a boss, and a death removes the only one and lowers the flag. */
  lemma BossStageOneBoss(s: Session, overlap: seq<set<nat>>, spent: set<nat>, rng: nat -> Draw)
    requires Fair(rng) && |overlap| == |s.bullets|
    requires OneBossAtMost(s)
    ensures OneBossAtMost(BossStage(s, overlap, spent, rng))
  {
    var strikes := Strikes(overlap, spent, |s.bosses|);
    var targets := Targets(strikes);
    var r := HitBosses(s, targets, rng);
    HitBossesTally(s, targets, rng);
    FallenDeaths(s.bosses, targets);
    var fallen := Fallen(s.bosses, targets);
    var deaths := Deaths(s.bosses, targets);
    RemovalKeepsOneBoss(s, r, fallen, deaths);
  }

  /** Removing the fallen bosses, given that the flag dropped exactly when some boss died. */
  lemma RemovalKeepsOneBoss(s: Session, r: Session, fallen: set<nat>, deaths: nat)
    requires OneBossAtMost(s) && |r.bosses| == |s.bosses|
    requires r.bossActive <==> s.bossActive && deaths == 0
    requires fallen == {} <==> deaths == 0
    requires forall j :: j in fallen ==> j < |s.bosses|
    ensures OneBossAtMost(r.(bosses := Without(r.bosses, fallen)))
  {
    WithoutSize(r.bosses, fallen);
    if |s.bosses| == 1 && fallen != {} {
      var j :| j in fallen;
      assert fallen == {0};
      assert fallen * Below(1) == {0};
    } else if |s.bosses| == 0 {
      assert fallen * Below(0) == {};
    } else {
      assert fallen * Below(|r.bosses|) == {};
    }
  }

  /**
   * One frame of collisions keeps at most one boss, with the flag in step,
   * provided the enemies on screen are within the budget. The budget is
   * needed: see `SecondBoss`.
   */
  lemma AtMostOneBoss(s: Session, c: Contacts, rng: nat -> Draw, now: int)
    requires Fair(rng) && Fits(s, c)
    requires OneBossAtMost(s) && EnemyBudget(s)
    ensures OneBossAtMost(Collisions(s, c, rng, now))
  {
    if c.bossBulletsOnPlayer == {} {
      var s1 := EnemyStage(s, c, rng, now);
      EnemyStageOneBoss(s, c, rng, now);
      BossStageOneBoss(s1, c.bulletBoss, Shooters(EnemyHits(c)), rng);
    }
  }

  /**
   * `spawn_boss` does not check the flag: with a boss up and the counter at
   * 29, one more kill brings a second boss.
   */
  lemma SecondBoss(s: Session, rng: nat -> Draw, now: int)
    requires Fair(rng)
    requires s.bossActive && |s.bosses| == 1 && s.enemiesDefeated == 29 && |s.bullets| == 1 && |s.enemies| == 1
    ensures var c := Contacts({}, [{0}], [{}], {});
      Fits(s, c) && |EnemyStage(s, c, rng, now).bosses| == 2
  {
    var c := Contacts({}, [{0}], [{}], {});
    assert Below(1) == {0};
    assert EnemyHits(c) == [Hit(0, {0})];
    assert Multiples(29, 1) == 1;
  }

  // ---------------------------------------------------------- start-up save

  /** The score file after start-up: what was written, if anything, else what was there. */
  function FileAfter(file: Option<string>, o: Outcome): Option<string> {
    if o.saved.Some? then o.saved else file
  }

  /**
   * As written, a failed name prompt erases a non-empty score file: the file
   * loaded to `t` before, and the next start-up loads the empty table.
   */
  lemma FailedPromptErasesScores(t: S.Table, rng: nat -> Draw)
    requires Fair(rng) && t.Valid() && |t.order| > 0
    requires forall j :: 0 <= j < |t.order| ==> S.Storable(t.order[j])
    ensures S.Load(Some(S.Save(t))) == t && t != S.Empty
    ensures S.Load(FileAfter(Some(S.Save(t)), LaunchAsWritten(None, Some(S.Save(t)), rng))) == S.Empty
  {
    S.RoundTrip(t);
    assert S.Empty.order == [];
    S.RoundTrip(S.Empty);
  }

  /** With the closing save skipped on a failed prompt, start-up never changes the table the file holds. */
  lemma FailedPromptKeepsScores(name: Option<string>, file: Option<string>, rng: nat -> Draw)
    requires Fair(rng)
    ensures S.Load(FileAfter(file, Launch(name, file, rng))) == S.Load(file)
  {
  }
}
