# Space shooter session engine in Dafny

A model of the game-state engine of a small pygame shooter: the player's
ship, falling enemies, a boss that descends and then patrols while firing
volleys, falling power-ups that grant a triple shot, and a high-score table
kept in a `name:score` text file. Each operation is a pure function over
immutable records. The modules follow the program's files:

- `config.dfy` (`Config`): the screen size, the boss spawn
  interval (15 kills) and the triple-shot lifetime (3600 ms).
- `player.dfy`, `enemy.dfy`, `powerup.dfy`, `boss.dfy`: the sprites' spawn
  ranges and per-frame `update`s.
- `text.dfy` (`Text`) and `score_manager.dfy` (`ScoreManager`): the score-file
  codec. Python's `str.strip`, `str.split(':')`, `int()`, `str()` and
  universal-newline `readlines` are written out.
- `indexed.dfy` (`Indexed`): removing sprites from a group by position.
- `game.dfy` (`Game`): the `Game` class. This covers spawning, shooting, the
  boss volley, collision handling in its fixed order, game over, reset, the
  high-score update, one frame of the main loop, the name prompt, start-up and
  the closing save.
- `game_properties.dfy` (`GameProperties`): properties that span several
  operations or frames.

What the engine would read from the outside world is passed in:

- **Clock.** A single clock reading `now` serves the whole frame.
- **Keys.** The held arrow keys and the number of Space presses.
- **Randomness.** Random spawns read an infinite stream `rng` of draws. The
  `k`-th enemy or boss spawn of a session uses draw `k`; the session counts
  draws in `draws`. `Fair(rng)` says every draw is one that `randint` and
  `choice` can return. Whether a power-up appears in a frame, and where, is a
  per-frame input.
- **Geometry.** Collision geometry arrives as `Contacts`:
  - for each player bullet, the enemies and the bosses it overlaps;
  - the boss bullets and the power-ups touching the ship.

  Which bullets leave the screen is also an input. `groupcollide` itself is
  modelled: bullets are taken in group order, and an enemy taken by an earlier
  bullet is not there for a later one. A bullet that took an enemy cannot
  strike a boss in the same frame.

## Model

| member | source | states |
|---|---|---|
| PlayerSprite.New | sprites/player.py:16-25 | a new ship is centred at x 300 with its bottom at 390, at rest, without triple shot, on screen |
| PlayerSprite.Steer | sprites/player.py:30-35 | left gives -5, right gives +5 and overrides left, neither gives 0 |
| PlayerSprite.Clamp | sprites/player.py:39-42 | the clamped position lies in [0, 550], is unchanged when already there, and is the nearest such position |
| PlayerSprite.Update | sprites/player.py:28-47 | after a frame the ship is on screen; it moves exactly by its speed unless that would leave the screen; y and the timer are untouched; triple shot survives iff it was on and at most 3600 ms have passed, and update never switches it on |
| PlayerSprite.ActivateTripleShot | sprites/player.py:50-53 | the power-up switches triple shot on and restarts its timer at `now`, leaving position and speed alone |
| PlayerSprite.ActivateAgain | sprites/player.py:50-53 | activating twice is the same as activating once at the later time; two activations differ only in the timer |
| PlayerSprite.RunKeepsShip | sprites/player.py:37-47 | over any number of frames the ship keeps its height and timer, and stays on screen |
| PlayerSprite.TripleShotLifetime | sprites/player.py:44-47 | a triple shot started at `t` lasts through every frame read at most 3600 ms later, and is gone once any frame reads later than that |
| EnemySprite.Spawn | sprites/enemy.py:17-23 | a new enemy stands at the drawn column and height and falls at the drawn speed (1 or 2); it is within the screen width, its top between -100 and -40, and it has not breached |
| EnemySprite.Update | sprites/enemy.py:26-28 | an enemy falls by its speed, strictly when the speed is positive, keeps x, and never removes itself |
| EnemySprite.FallDistance | sprites/enemy.py:26-28 | after n frames an enemy has fallen n times its speed |
| EnemySprite.LeftAloneBreaches | sprites/enemy.py:21-28 | a new enemy has not breached the bottom edge, but within 501 frames it has |
| PowerUpSprite.Spawn | sprites/powerup.py:17-23 | a new power-up stands at the drawn column and height, so it lies within the screen width and starts between 100 and 40 pixels above the top edge |
| PowerUpSprite.Update | sprites/powerup.py:26-30 | a power-up falls 2 pixels and keeps x; it removes itself iff its top passes 400 after the move |
| PowerUpSprite.Lifetime | sprites/powerup.py:26-30 | a power-up on screen survives n frames iff y + 2n stays within 400, and is then exactly 2n lower |
| BossSprite.New | sprites/boss.py:44-56 | a new boss is centred at x 300 just above the screen, with 15 health, in its entry phase, heading ±1, its last shot at `now` |
| BossSprite.Update | sprites/boss.py:59-68 | entering: one pixel down, x kept, entry ends iff the top reaches 50; patrolling: 3 pixels sideways, y kept, heading reversed iff the boss is past an edge; health and last shot are untouched |
| BossSprite.Descent | sprites/boss.py:61-64 | during its descent a boss moves straight down one pixel a frame |
| BossSprite.EntryTakes150Frames | sprites/boss.py:49-64 | a new boss is still entering after 149 frames and patrols at the top line 50 after exactly 150 |
| BossSprite.PatrolIsFinal | sprites/boss.py:61-68 | once patrolling, a boss never re-enters its entry phase |
| BossSprite.NewIsInBounds | sprites/boss.py:48-53 | a new boss satisfies the patrol bounds invariant |
| BossSprite.StaysInBounds | sprites/boss.py:53-68 | the heading stays ±1 and the boss never overshoots an edge by more than one 3-pixel step, over any number of frames |
| BossSprite.Fire | sprites/boss.py:18-30 | a boss bullet starts centred on the given x with its top at the given y |
| BossSprite.UpdateBullet | sprites/boss.py:33-37 | a boss bullet falls 7 pixels and removes itself iff its top passes 400 |
| Text.TrimStart | utils/score_manager.py:27 | leading characters of the given whitespace class are removed and nothing else (`strip()` uses the `str.isspace` class) |
| Text.TrimEnd | utils/score_manager.py:27 | trailing characters of the given whitespace class are removed and nothing else |
| Text.StripNewline | utils/score_manager.py:27 | stripping a written line `x\n` gives back `x` when `x` neither starts nor ends with whitespace |
| Text.SplitPair | utils/score_manager.py:27 | `split(':')` unpacks into two parts iff the text has exactly one colon, and the parts are what lies on either side of it |
| Text.SplitPairOf | utils/score_manager.py:27 | joining two colon-free parts with a colon splits back into them |
| Text.FormatInt | utils/score_manager.py:45 | `str(score)` is non-empty, has no colon or line break, does not start with whitespace and ends with a digit |
| Text.FormatNatValue | utils/score_manager.py:45 | the decimal digits of n denote n |
| Text.ParseFormat | utils/score_manager.py:28 | `int(str(n)) == n` for every integer n, leaving out CPython's limit on the digit count of conversions |
| Text.SeparatorRefused | utils/score_manager.py:28 | `int()` refuses text starting with a U+001C–U+001F separator, although `str.isspace` counts it as whitespace |
| Text.Translate | utils/score_manager.py:23 | reading in text mode leaves no carriage return |
| Text.TranslateCounts | utils/score_manager.py:23 | the text read has one line feed per line break (`\r\n`, a lone `\r` or `\n`) and keeps every other character in order |
| Text.TranslateAppend | utils/score_manager.py:23 | text is translated piece by piece when the first piece does not end in `\r` |
| Text.TranslateBreak | utils/score_manager.py:23 | each line break becomes one line feed in its own place: `a` + `\r\n` + `b`, `a` + `\n` + `b`, and `a` + `\r` + `b` with `b` not starting with `\n` all read as the reading of `a`, a line feed, and the reading of `b` |
| Text.TranslatePlain | utils/score_manager.py:23 | text without carriage returns is read unchanged |
| Text.ReadLinesCons | utils/score_manager.py:24 | `readlines` splits after each line feed and keeps it |
| ScoreManager.Put | utils/score_manager.py:28 | storing a score sets that name's entry, leaves every other name alone, keeps the insertion order or appends a new name, and keeps the table well formed |
| ScoreManager.ParseLine | utils/score_manager.py:27-30 | a line is accepted only when the stripped text has exactly one colon; the name is the part before it and the score the `int()` of the part after it |
| ScoreManager.ParseLineAccepts | utils/score_manager.py:27-28 | conversely, every stripped line of a colon-free name, one colon and text `int()` accepts is read as that name and number |
| ScoreManager.ParseLineRefuses | utils/score_manager.py:27-30 | a line with one colon whose score part `int()` refuses is skipped |
| ScoreManager.SeparatorLineSkipped | utils/score_manager.py:27-30 | a score behind a U+001C–U+001F separator survives `strip()` inside the line, is refused by `int()`, and the line is skipped |
| ScoreManager.LoadLines | utils/score_manager.py:25-30 | loading lines keeps the table well formed |
| ScoreManager.Load | utils/score_manager.py:20-33 | a missing file gives the empty table; every load gives a well-formed table |
| ScoreManager.LoadAppend | utils/score_manager.py:25-30 | loading is a left fold over the lines |
| ScoreManager.LoadSplit | utils/score_manager.py:25-30 | loading `a + b` is loading `b` on top of the table from `a` |
| ScoreManager.SkipMalformed | utils/score_manager.py:29-30 | a malformed line is skipped: the table is as if it were absent, and later lines still count |
| ScoreManager.LaterLineWins | utils/score_manager.py:28 | a later line for a name overwrites that name's earlier score |
| ScoreManager.ReadConcat | utils/score_manager.py:24 | reading back the concatenation of well-formed lines gives those lines |
| ScoreManager.ConcatPlain | utils/score_manager.py:44-45 | the saved text contains no carriage return |
| ScoreManager.ParseFormatLine | utils/score_manager.py:27-28 | a line written for a storable name parses back to that name and score |
| ScoreManager.Lines | utils/score_manager.py:44-45 | saving writes exactly one line per table entry |
| ScoreManager.LinesShape | utils/score_manager.py:44-45 | every saved line is one record ending in a line feed with no other line break, and it parses back to the name and score at its position in the table |
| ScoreManager.PrefixStep | utils/score_manager.py:28 | each loaded line adds the next entry of the table in order |
| ScoreManager.LoadPrefix | utils/score_manager.py:25-30 | loading the first k saved lines rebuilds the first k entries |
| ScoreManager.PrefixFull | utils/score_manager.py:44 | all the entries are the whole table |
| ScoreManager.LoadAll | utils/score_manager.py:25-30 | loading all saved lines rebuilds the table |
| ScoreManager.RoundTrip | utils/score_manager.py:20-45 | loading a saved table gives it back, entries and order, when no name has a colon or line break or starts with whitespace |
| ScoreManager.Enroll | main.py:84-86 | a player missing from the table is added at 0; a player already there leaves it unchanged; no other name is affected |
| Game.SpawnEnemy | main.py:104-111 | one enemy is appended at the column, height and speed of the next draw and has not breached; the draw counter advances and nothing else changes |
| Game.SpawnBoss | main.py:114-122 | one boss is appended and the boss flag raised, whatever the flag was; the new boss is the one `Boss()` builds for the next draw's direction and the clock: full health, entering, centred at x 300 with its bottom at y 0 |
| Game.Kill | main.py:153-160 | one bullet key adds 10 points and one kill; a boss appears iff the counter reaches a multiple of 15, otherwise a replacement enemy appears iff no boss is up |
| Game.Kills | main.py:151-160 | n bullet keys add 10n points and n kills, one boss per multiple of 15 crossed, and no replacement enemies while a boss is up |
| Game.Collide | main.py:151-152 | each bullet key took a non-empty set of enemies it overlaps, none of them taken before |
| Game.CollideSeparate | main.py:151-152 | the bullet keys are distinct and in group order, and no enemy is taken by two bullets |
| Game.CollideKeys | main.py:151-155 | there are as many bullet keys, each paying 10 points and one kill, as consumed bullets |
| Game.CollideKilled | main.py:151-152 | the enemies removed are exactly those some bullet overlaps |
| Game.CollideShooters | main.py:151-152 | a bullet is consumed iff it overlaps an enemy that no earlier bullet took |
| Game.CollideCount | main.py:151-153 | there are never more bullet keys than enemies killed |
| Game.Strikes | main.py:163-164 | every bullet left by the enemy step is paired with every existing boss it overlaps, and a spent bullet with none; no pair is listed twice |
| Game.HitBoss | main.py:166-173 | a hit costs one health; a hit leaving health at or below zero adds 100 points and two enemies and lowers the flag |
| Game.HitBosses | main.py:165-173 | the loop changes only the tally, enemies, bosses and draws, adds enemies only at the end of the group, and keeps the kill counter |
| Game.HitBossesDamage | main.py:165-167 | every boss ends with one health less per hit it took |
| Game.HitBossesTally | main.py:165-173 | every hit that leaves its boss at or below zero pays 100 points and two enemies, and the flag stays up iff there was none |
| Game.Fallen | main.py:168-169 | only existing bosses are removed |
| Game.EnemyStage | main.py:151-160 | the enemy step adds 10 points and one kill per bullet key, brings one boss per multiple of 15 crossed, and has no more keys than enemies; the enemies some bullet overlaps are removed, the rest keep their order ahead of any new spawns, and with a boss on the field none is spawned |
| Game.BossStage | main.py:163-173 | the boss step changes only the tally, enemies, bosses, bullets and draws; it adds 100 points and two enemies per boss brought to zero health, drops the flag exactly when one falls, keeps the damaged survivors, and removes the spent and striking bullets |
| Game.CollectPowerUps | main.py:176-179 | the touched power-ups are removed from the group and the others stay; any pickup starts the triple shot at `now`; no pickup changes nothing |
| Game.CheckBreach | main.py:182-186 | the session ends iff some enemy's top has passed 400; otherwise nothing changes |
| Game.PlayerHit | main.py:145-148 | exactly the touching boss bullets disappear, the others stay in order, and the session ends; nothing else changes |
| Game.Collisions | main.py:141-186 | the table and the player's name are never touched; a boss bullet on the ship ends the frame at once with nothing else resolved; otherwise the kill counter rises by the bullet keys, the score by at least 10 each, the later stages only append to the enemies the enemy step leaves, and the session ends iff an enemy has breached |
| Game.CollisionsRemoveStruck | main.py:151-160 | when no boss bullet reaches the ship, the enemies some bullet overlaps are gone at the end of the frame and the others keep their order ahead of the frame's new enemies |
| Game.Shoot | main.py:298-311 | triple shot adds three bullets at angles -30, 0 and 30, otherwise one at angle 0; all leave the ship's top centre and existing bullets are kept |
| Game.Volley | main.py:131-135 | a volley is three bullets at the boss's centre -30, 0 and +30, with their tops at the boss's bottom |
| Game.Fire | main.py:129-136 | exactly the ready bosses fire and restart their delay at `now`; each ready boss's volley follows those of the ready bosses before it, three bullets per boss |
| Game.BossShooting | main.py:125-138 | bosses fire only while the boss flag is up; only the bosses and boss bullets change |
| Game.Reset | main.py:342-362 | a reset gives an active round with score 0, no kills, no boss, a new ship, exactly two enemies and no other sprites, and keeps the player and table; the two enemies have not breached and stand at the column, height and speed of the next two draws, in order |
| Game.Space | main.py:289-293 | Space shoots during a round and starts one otherwise; either way a round is on afterwards |
| Game.Presses | main.py:396-400 | after at least one Space press a round is on; the player's name and the table are untouched |
| Game.RecordHighScore | main.py:332-336 | the stored best becomes the larger of the old best and the score; other names keep theirs; the table is saved iff the record was beaten, and then the saved text is the new table |
| Game.MoveSprites | main.py:328 | every sprite moves by its own update; boss bullets and power-ups are the in-order survivors of their updates, are on screen, and every one that stays on screen survives; bullets that left are gone |
| Game.Advance | main.py:319-329 | the spawn, movement and volley leave the tally, flags, table and enemy and boss counts alone |
| Game.Update | main.py:316-336 | after a frame the stored best never falls and is at least the current score; no other name changes; the table is saved iff the best was beaten |
| Game.Tick | main.py:396-403 | without a round on, a pass of the loop changes nothing; otherwise the stored best never falls |
| Game.PromptName | main.py:60-101 | the accepted name is the first of at most three answers whose stripped length is 1 to 20; no name iff none of them qualifies |
| Game.LaunchAsWritten | main.py:369-416 | when the prompt fails, the closing save still writes the empty table the constructor left |
| Game.Launch | main.py:369-388 | with a name, the table is loaded and the player enrolled, and an inactive session waits with a new ship and two enemies; without one nothing is written |
| Game.Close | main.py:413-416 | the closing save is text that the next start-up loads back to the same table, when every name is storable |
| GameProperties.MultiplesClosedForm | main.py:157-158 | n kills from counter d spawn (d+n)/15 - d/15 bosses |
| GameProperties.MultiplesBound | main.py:157-158 | at most one boss per 15 kills, exactly one in any 15 in a row, none before the counter crosses a multiple of 15 |
| GameProperties.FirstBoss | main.py:153-160 | in a fresh round each of the first fourteen kills is replaced by a new enemy and no boss appears; the fifteenth kill brings the boss, raises the flag, adds no replacement and leaves the score 150 higher |
| GameProperties.ReplacedKills | main.py:151-160 | with no boss up or due, the enemy count falls only by the enemies a bullet took beyond its first |
| GameProperties.ShootersExist | main.py:151-152 | only bullets of the group are consumed by enemies |
| GameProperties.BulletsSpentOnce | main.py:151-164 | a bullet spent on an enemy strikes no boss, and each bullet used on an enemy or a boss is removed exactly once |
| GameProperties.Overkill | main.py:165-173 | a boss with h health hit m times in one frame dies once for every hit from the h-th on |
| GameProperties.FifteenHitsAndOneMore | main.py:165-173 | a full-health boss survives fourteen hits and dies at fifteen for 100 points and two enemies; a sixteenth hit in the same frame pays 200 and four |
| GameProperties.FallenDeaths | main.py:168-169 | a boss is removed in the boss step iff some hit was a death |
| GameProperties.NoRapidFire | main.py:130-136 | a boss that fired cannot fire again until more than 1200 ms have passed, and can right after |
| GameProperties.OneVolley | main.py:127-136 | a single ready boss adds exactly its volley, and only while the flag is up |
| GameProperties.ResetIsCalm | main.py:342-362 | a fresh round has no boss, with the flag down, and is within the enemy budget |
| GameProperties.EnemyStageOneBoss | main.py:157-160 | within the enemy budget the enemy step keeps at most one boss, with the flag in step |
| GameProperties.BossStageOneBoss | main.py:165-173 | the boss step keeps at most one boss, with the flag in step |
| GameProperties.AtMostOneBoss | main.py:141-186 | within the enemy budget a whole frame of collisions keeps at most one boss, with the flag in step |
| GameProperties.FailedPromptErasesScores | main.py:369-416 | a non-empty table saved by a previous run is lost when the name prompt fails: the next start-up loads the empty table |
| GameProperties.FailedPromptKeepsScores | main.py:369-388 | without the closing save on a failed prompt, start-up leaves the table the score file holds unchanged |
| GameProperties.SecondBoss | main.py:114-120 | `spawn_boss` has no guard: with a boss up and the counter at 29, one kill brings a second boss |

"At most one boss, and the boss flag is up iff one exists" is described as an
invariant of the game. The code does not enforce it: `spawn_boss` does not
look at the flag. `AtMostOneBoss` proves the property for one frame. Its
hypothesis is an enemy budget: with a boss up, the enemies on screen must be
too few to carry the kill counter to the next multiple of 15. `SecondBoss`
shows that without the budget a second boss does appear.

The round trip in `ScoreManager.RoundTrip` needs less than "no colon, no line
break, no leading or trailing whitespace in a name". Trailing whitespace is
harmless, because it sits before the colon and `strip()` never reaches it.

## Left out

- Player bullets' flight (sprites/bullet.py) uses `sin`, `cos` and float positions. Bullets are recorded by where and at which angle they were fired. Which bullets leave the screen in a frame is an input.
- Rectangle overlap tests and pygame's sprite groups are not modelled. Overlaps are inputs (`Contacts`); the order in which `groupcollide` visits them is modelled.
- Randomness: the `randint`/`choice` draws come from the `rng` stream. The `random() < ENEMY_SPAWN_RATE` power-up decision (0.0004 per frame) and its position are a frame input.
- Real time: `get_ticks()` is one `now` per frame. Within one frame the source may read the clock more than once. `clock.tick(FPS)` pacing is not modelled.
- Drawing, fonts, the HUD, the display and the Q key are not modelled. Q posts a quit event that ends the loop in a later pass.
- File access: the score file is an optional string, with `None` for a missing file. Writing is the text `Save` returns.
- The logging and exception-swallowing decorators of utils/error_handler.py, and the `except` branches they make reachable, are not modelled: the modelled operations do not fail, apart from the digit limit under `Text.ParseFormat` below.
- Text.ParseFormat: CPython refuses to convert integers of more than 4300 decimal digits. `int()` then raises `ValueError`, so `load_scores` skips such a line (utils/score_manager.py:28-30). `str()` raises in `save_scores`, and the handler at utils/score_manager.py:46 leaves the file cut off before that entry. The model has no digit limit; a score that large would need far more kills than a session can hold.
- `int()` accepts non-ASCII decimal digits. The model accepts only `0`–`9`, with sign, surrounding `int()` whitespace (tab to carriage return, space, and the non-ASCII `str.isspace` characters) and single underscores between digits.
- Console I/O of `get_player_name`: answers are a sequence of strings, and running out of answers stands for end of input. `KeyboardInterrupt` is not modelled.
- `SAVE_FILE` in config.py names a JSON file that nothing reads. The score manager uses its own file name, and the name does not matter here.
- The frame rate (`FPS`) and colour constants of config.py are not used by any rule, so `Config` leaves them out.
- Game.Collisions: its contract bounds the score from below. The exact boss reward is stated by `Game.BossStage`, and the enemies removed by `Game.CollisionsRemoveStruck`.
- Game.Tick: the per-frame contacts are supplied for the sprites after the Space presses. The loop's own structure beyond one pass is not modelled.

## Findings

| source | as written | input that shows it | evidently intended | confidence | as-written member | corrected member |
|---|---|---|---|---|---|---|
| main.py:373-375, 413-416 | when the name prompt fails, `run` returns, and its `finally` block still calls `save_scores(self.scores)`, where `self.scores` is still the empty dict from `__init__` | three empty answers (or end of input) with an existing score file: the file is rewritten as empty text | a start-up that never loaded the table writes nothing | not executed; high | Game.LaunchAsWritten, GameProperties.FailedPromptErasesScores | Game.Launch, GameProperties.FailedPromptKeepsScores |
