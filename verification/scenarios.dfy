/**
 * Concrete situations from the game's rules, stated about the model: a
 * formation turning at the left edge, the two-shot cap, a hit turning a shot
 * into an explosion, and the win and loss queries on an emptied army.
 */
module Scenarios {
  import opened Timing
  import opened Formation
  import Players

  /** A lone invader at (0, 5) heading left turns right and descends to (0, 6) on its next due tick. */
  lemma LoneInvaderTurnsAtLeftEdge(period: nat, tick: Tick)
    requires period >= PeriodStep && tick.ready
    ensures var s := Invaders([Invader(0, 5)], FromMillis(period), Left);
      var r := Update(s, tick);
      && r.1
      && r.0.army == [Invader(0, 6)]
      && r.0.direction == Right
  {
    var s := Invaders([Invader(0, 5)], FromMillis(period), Left);
    assert s.army[0].x == 0;
    var r := Update(s, tick);
    assert r.0.army[0] == Invader(0, 6);
  }

  /** From a new ship, two shots succeed and a third, while both are held, is refused. */
  lemma ThirdShotRefused()
    ensures var p0 := Players.New();
      var s1 := Players.Shoot(p0);
      var s2 := Players.Shoot(s1.0);
      var s3 := Players.Shoot(s2.0);
      && s1.1 && s2.1 && !s3.1
      && s2.0.shots == [Players.NewShot(20, 18), Players.NewShot(20, 18)]
      && s3.0 == s2.0
  {
  }

  /** A flying shot on an invader's cell kills it and starts exploding rather than vanishing. */
  method ShotOnInvaderExplodes(t: Timer, d: Direction) returns (r: Players.HitReport)
    ensures r.hit
    ensures r.invaders.army == []
    ensures r.player.shots == [Players.Shot(10, 10, true)]
  {
    var p := Players.Player(20, 19, [Players.NewShot(10, 10)]);
    var inv := Invaders([Invader(10, 10)], t, d);
    r := Players.DetectHits(p, inv);
    assert Invader(10, 10) in inv.army;
    assert r.outcomes[0] != Players.Skipped;
  }

  /** Once the army is empty the game is won and, checked afterwards, not lost. */
  lemma EmptyArmyWinsWithoutLosing(t: Timer, d: Direction)
    ensures AllKilled(Invaders([], t, d))
    ensures !ReachedBottom(Invaders([], t, d))
  {
  }

  /** Of two flying shots on a lone invader's cell, the earlier one kills it; the later one misses. */
  method EarlierShotKills(t: Timer, d: Direction) returns (r: Players.HitReport)
    ensures r.outcomes == [Players.Killed, Players.Missed]
    ensures r.player.shots == [Players.Shot(10, 10, true), Players.Shot(10, 10, false)]
    ensures r.invaders.army == []
  {
    var p := Players.Player(20, 19, [Players.NewShot(10, 10), Players.NewShot(10, 10)]);
    var inv := Invaders([Invader(10, 10)], t, d);
    r := Players.DetectHits(p, inv);
    assert r.outcomes[0] != Players.Skipped && r.outcomes[1] != Players.Skipped;
    // the first shot's turn: the whole army is there
    assert Players.ArmyAtTurn(inv.army, p.shots, r.outcomes, 0) == multiset{Invader(10, 10)};
    Players.KilledOnlyOnce(inv.army, p.shots, r.outcomes, 0, 1);
  }
}
