/**
 * The player's ship (src/player.rs): a column on the bottom row, moved one
 * column at a time, holding at most two shots, and scoring hits against the
 * invader formation.
 *
 * A shot's own behaviour (src/shot.rs) is not part of this model: a shot is
 * its position and whether it is exploding, `Shot::update(delta)` and
 * `Shot::dead` are supplied as function parameters, a new shot is assumed
 * not to be exploding, and `Shot::explode` is assumed to set `exploding`.
 */
module Players {
  import opened Config
  import Formation
  import opened Sequences

  datatype Shot = Shot(x: nat, y: nat, exploding: bool)

  /** `Shot::new`. */
  function NewShot(x: nat, y: nat): Shot {
    Shot(x, y, false)
  }

  /** `Shot::explode`. */
  function Explode(s: Shot): Shot {
    s.(exploding := true)
  }

  /** The most shots the player may hold at once. */
  const MaxShots: nat := 2

  datatype Player = Player(x: nat, y: nat, shots: seq<Shot>)

  /** What every reachable player satisfies. */
  predicate ValidPlayer(p: Player) {
    p.x < NumCols && p.y == NumRows - 1 && |p.shots| <= MaxShots
  }

  /** `Player::new`: centre column, bottom row, no shots. */
  function New(): (p: Player)
    ensures ValidPlayer(p)
    ensures p.x == 20 && p.y == 19 && p.shots == []
  {
    Player(NumCols / 2, NumRows - 1, [])
  }

  /** `Player::move_left`: one column left, unless already in column 0. */
  function MoveLeft(p: Player): (r: Player)
    ensures r.y == p.y && r.shots == p.shots
    ensures p.x == 0 ==> r == p
    ensures p.x > 0 ==> r.x + 1 == p.x
    ensures ValidPlayer(p) ==> ValidPlayer(r)
  {
    if p.x > 0 then p.(x := p.x - 1) else p
  }

  /** `Player::move_right`: one column right, unless already in the last column. */
  function MoveRight(p: Player): (r: Player)
    ensures r.y == p.y && r.shots == p.shots
    ensures p.x >= NumCols - 1 ==> r == p
    ensures p.x < NumCols - 1 ==> r.x == p.x + 1
    ensures ValidPlayer(p) ==> ValidPlayer(r)
  {
    if p.x < NumCols - 1 then p.(x := p.x + 1) else p
  }

  /** Away from the edges, the two moves undo each other. */
  lemma MovesUndoEachOther(p: Player)
    requires p.x < NumCols - 1
    ensures MoveLeft(MoveRight(p)) == p
    ensures p.x > 0 ==> MoveRight(MoveLeft(p)) == p
  {
  }

  /**
   * `Player::shoot`: add a shot one row above the ship if fewer than two are
   * held, exploding ones included. The source computes `y - 1` on unsigned
   * integers, so the ship must not be on row 0.
   */
  function Shoot(p: Player): (r: (Player, bool))
    requires p.y > 0
    ensures r.1 <==> |p.shots| < MaxShots
    ensures r.1 ==> r.0.x == p.x && r.0.y == p.y && r.0.shots == p.shots + [NewShot(p.x, p.y - 1)]
    ensures !r.1 ==> r.0 == p
    ensures ValidPlayer(p) ==> ValidPlayer(r.0)
  {
    if |p.shots| < MaxShots then
      (p.(shots := p.shots + [NewShot(p.x, p.y - 1)]), true)
    else
      (p, false)
  }

  /** `Vec::retain` keeping the shots that are not dead: each survivor as often as before. */
  function Retain(shots: seq<Shot>, dead: Shot -> bool): (r: seq<Shot>)
    ensures forall i :: 0 <= i < |r| ==> !dead(r[i])
    ensures forall v :: multiset(r)[v] == if dead(v) then 0 else multiset(shots)[v]
    ensures |r| <= |shots|
  {
    if shots == [] then []
    else
      var rest := Retain(shots[1..], dead);
      assert multiset(shots) == multiset{shots[0]} + multiset(shots[1..]) by {
        assert shots == [shots[0]] + shots[1..];
      }
      if dead(shots[0]) then rest else [shots[0]] + rest
  }

  /** `Vec::retain` keeps the surviving shots in their original order. */
  lemma {:induction false} RetainKeepsOrder(shots: seq<Shot>, dead: Shot -> bool)
    ensures IsSubsequence(Retain(shots, dead), shots)
    decreases |shots|
  {
    if shots != [] {
      RetainKeepsOrder(shots[1..], dead);
      var rest := Retain(shots[1..], dead);
      if dead(shots[0]) {
        assert Retain(shots, dead) == rest;
      } else {
        assert Retain(shots, dead) == [shots[0]] + rest;
        assert ([shots[0]] + rest)[1..] == rest;
      }
    }
  }

  /** Every shot after `Shot::update(delta)`. */
  function Advanced(shots: seq<Shot>, advance: Shot -> Shot): (r: seq<Shot>)
    ensures |r| == |shots|
    ensures forall i :: 0 <= i < |shots| ==> r[i] == advance(shots[i])
  {
    seq(|shots|, i requires 0 <= i < |shots| => advance(shots[i]))
  }

  /**
   * `Player::update(delta)`: advance every shot with `advance` (standing for
   * `Shot::update(delta)`), then drop the shots that are `dead`.
   */
  function Update(p: Player, advance: Shot -> Shot, dead: Shot -> bool): (r: Player)
    ensures r.x == p.x && r.y == p.y
    ensures forall i :: 0 <= i < |r.shots| ==> !dead(r.shots[i])
    ensures forall i :: 0 <= i < |p.shots| && !dead(advance(p.shots[i])) ==> advance(p.shots[i]) in r.shots
    ensures forall v :: multiset(r.shots)[v] == if dead(v) then 0 else multiset(Advanced(p.shots, advance))[v]
    ensures IsSubsequence(r.shots, Advanced(p.shots, advance))
    ensures |r.shots| <= |p.shots|
    ensures ValidPlayer(p) ==> ValidPlayer(r)
  {
    var moved := Advanced(p.shots, advance);
    RetainKeepsOrder(moved, dead);
    var kept := Retain(moved, dead);
    assert forall i :: 0 <= i < |moved| && !dead(moved[i]) ==> moved[i] in kept by {
      forall i | 0 <= i < |moved| && !dead(moved[i]) ensures moved[i] in kept {
        assert moved[i] in multiset(moved);
      }
    }
    p.(shots := kept)
  }

  /** What `detect_hits` did with one shot. */
  datatype Outcome =
    | Skipped   // already exploding: `kill_invader_at` was not called
    | Missed    // `kill_invader_at` was called and found no invader
    | Killed    // `kill_invader_at` removed an invader and the shot exploded

  /** The result of `detect_hits`, with the outcome of each shot in order. */
  datatype HitReport = HitReport(player: Player, invaders: Formation.Invaders, hit: bool, outcomes: seq<Outcome>)

  /** An army that is a sub-multiset of another holds only invaders of the other. */
  lemma SubArmyMembers(a: seq<Formation.Invader>, b: seq<Formation.Invader>)
    requires multiset(a) <= multiset(b)
    ensures forall v :: v in a ==> v in b
  {
    forall v | v in a ensures v in b {
      assert v in multiset(a);
    }
  }

  /** The invader at a shot's position. */
  function Target(s: Shot): Formation.Invader {
    Formation.Invader(s.x, s.y)
  }

  /** The targets of the first `n` shots whose outcome was a kill, each counted once per kill. */
  function KilledAt(shots: seq<Shot>, outcomes: seq<Outcome>, n: nat): multiset<Formation.Invader>
    requires n <= |shots| && n <= |outcomes|
  {
    if n == 0 then multiset{}
    else KilledAt(shots, outcomes, n - 1) + if outcomes[n - 1] == Killed then multiset{Target(shots[n - 1])} else multiset{}
  }

  /**
   * One iteration of the loop of `detect_hits`: an exploding shot is skipped;
   * any other shot asks the formation to kill the invader at its position
   * and explodes if that succeeded.
   */
  method DetectOne(s: Shot, inv: Formation.Invaders) returns (s': Shot, inv': Formation.Invaders, o: Outcome)
    ensures o == Skipped <==> s.exploding
    ensures s' == if o == Killed then Explode(s) else s
    ensures o == Killed ==> Target(s) in inv.army && inv' == Formation.KillInvaderAt(inv, s.x, s.y).0
    ensures o == Killed ==> multiset(inv'.army) + multiset{Target(s)} == multiset(inv.army)
    ensures o == Missed ==> Target(s) !in inv.army
    ensures o != Killed ==> inv' == inv
    ensures multiset(inv'.army) <= multiset(inv.army)
    ensures IsSubsequence(inv'.army, inv.army)
    ensures inv'.moveTimer == inv.moveTimer && inv'.direction == inv.direction
  {
    s', inv', o := s, inv, Skipped;
    if !s.exploding {
      var k := Formation.KillInvaderAt(inv, s.x, s.y);
      Formation.KillKeepsOrder(inv, s.x, s.y);
      if k.1 {
        s', inv', o := Explode(s), k.0, Killed;
      } else {
        o := Missed;
      }
    }
    if o != Killed {
      SubsequenceOfSelf(inv.army);
    }
  }

  /** The kills among the first `n` shots depend only on the first `n` outcomes. */
  lemma {:induction false} KilledAtPrefix(shots: seq<Shot>, a: seq<Outcome>, b: seq<Outcome>, n: nat)
    requires n <= |shots| && n <= |a| && n <= |b|
    requires forall k :: 0 <= k < n ==> a[k] == b[k]
    ensures KilledAt(shots, a, n) == KilledAt(shots, b, n)
  {
    if n > 0 {
      KilledAtPrefix(shots, a, b, n - 1);
    }
  }

  /**
   * The shots after `detect_hits` has handled the first `i` of `before`: those
   * are skipped exactly when exploding and explode exactly when they killed;
   * the rest are untouched.
   */
  predicate ShotsDone(before: seq<Shot>, shots: seq<Shot>, outcomes: seq<Outcome>, i: nat) {
    && |shots| == |before| && |outcomes| == i <= |before|
    && (forall k :: i <= k < |shots| ==> shots[k] == before[k])
    && (forall k :: 0 <= k < i ==> (outcomes[k] == Skipped <==> before[k].exploding))
    && (forall k :: 0 <= k < i ==> shots[k] == if outcomes[k] == Killed then Explode(before[k]) else before[k])
  }

  /**
   * The army after `detect_hits` has handled the first `i` shots: exactly the
   * targets of the killing shots left `start`, each was there to begin with,
   * no missed target is left, and the survivors keep their order.
   */
  ghost predicate KillsDone(shots: seq<Shot>, start: seq<Formation.Invader>, army: seq<Formation.Invader>,
                            outcomes: seq<Outcome>, i: nat)
  {
    && |outcomes| == i <= |shots|
    && (forall k :: 0 <= k < i && outcomes[k] == Killed ==> Target(shots[k]) in start)
    && (forall k :: 0 <= k < i && outcomes[k] == Missed ==> Target(shots[k]) !in army)
    && multiset(army) + KilledAt(shots, outcomes, i) == multiset(start)
    && |army| + multiset(outcomes)[Killed] == |start|
    && multiset(army) <= multiset(start)
    && IsSubsequence(army, start)
  }

  /**
   * The turns of the first `i` shots: a shot that is not exploding kills
   * exactly when its target is still in the army when its turn comes, that
   * is, in `start` less what the earlier shots killed.
   */
  /** The army as shot `k`'s turn comes: `start` less what the earlier killing shots took. */
  function ArmyAtTurn(start: seq<Formation.Invader>, shots: seq<Shot>, outcomes: seq<Outcome>, k: nat): multiset<Formation.Invader>
    requires k <= |shots| && k <= |outcomes|
  {
    multiset(start) - KilledAt(shots, outcomes, k)
  }

  predicate TurnsDone(shots: seq<Shot>, start: seq<Formation.Invader>, outcomes: seq<Outcome>, i: nat) {
    && |outcomes| == i <= |shots|
    && forall k {:trigger ArmyAtTurn(start, shots, outcomes, k)} :: 0 <= k < i && outcomes[k] != Skipped ==>
         (outcomes[k] == Killed <==> Target(shots[k]) in ArmyAtTurn(start, shots, outcomes, k))
  }

  /** When `army` plus the kills make up `start`, what `start` has beyond the kills is `army`. */
  lemma RemainingIsArmy(army: seq<Formation.Invader>, killed: multiset<Formation.Invader>, start: seq<Formation.Invader>)
    requires multiset(army) + killed == multiset(start)
    ensures multiset(start) - killed == multiset(army)
  {
    forall v ensures (multiset(start) - killed)[v] == multiset(army)[v] {
      assert multiset(start)[v] == multiset(army)[v] + killed[v];
    }
  }

  /** Handling shot `i` as `DetectOne` does keeps `TurnsDone`. */
  lemma TurnsStep(shots: seq<Shot>, start: seq<Formation.Invader>, army: seq<Formation.Invader>,
                  outcomes: seq<Outcome>, i: nat, o: Outcome)
    requires TurnsDone(shots, start, outcomes, i) && i < |shots|
    requires multiset(army) + KilledAt(shots, outcomes, i) == multiset(start)
    requires o == Killed ==> Target(shots[i]) in army
    requires o == Missed ==> Target(shots[i]) !in army
    ensures TurnsDone(shots, start, outcomes + [o], i + 1)
  {
    var outcomes' := outcomes + [o];
    RemainingIsArmy(army, KilledAt(shots, outcomes, i), start);
    forall k | 0 <= k < i + 1 && outcomes'[k] != Skipped
      ensures outcomes'[k] == Killed <==> Target(shots[k]) in ArmyAtTurn(start, shots, outcomes', k)
    {
      KilledAtPrefix(shots, outcomes, outcomes', k);
      if k < i {
        assert outcomes'[k] == outcomes[k];
        assert ArmyAtTurn(start, shots, outcomes', k) == ArmyAtTurn(start, shots, outcomes, k);
      } else {
        assert ArmyAtTurn(start, shots, outcomes', k) == multiset(army);
      }
    }
  }

  /** Handling shot `i` as `DetectOne` does keeps `ShotsDone`. */
  lemma ShotsStep(before: seq<Shot>, shots: seq<Shot>, outcomes: seq<Outcome>, i: nat, s: Shot, o: Outcome)
    requires ShotsDone(before, shots, outcomes, i) && i < |before|
    requires o == Skipped <==> before[i].exploding
    requires s == if o == Killed then Explode(before[i]) else before[i]
    ensures ShotsDone(before, shots[i := s], outcomes + [o], i + 1)
  {
    var shots', outcomes' := shots[i := s], outcomes + [o];
    forall k | 0 <= k < i
      ensures outcomes'[k] == outcomes[k] && shots'[k] == shots[k]
    {
    }
  }

  /** Shot `i`'s outcome keeps every kill's target from `start` and every miss's target out of the army. */
  lemma MembersStep(shots: seq<Shot>, start: seq<Formation.Invader>, army: seq<Formation.Invader>,
                    next: seq<Formation.Invader>, outcomes: seq<Outcome>, i: nat, o: Outcome)
    requires |outcomes| == i < |shots|
    requires forall k :: 0 <= k < i && outcomes[k] == Killed ==> Target(shots[k]) in start
    requires forall k :: 0 <= k < i && outcomes[k] == Missed ==> Target(shots[k]) !in army
    requires o == Killed ==> Target(shots[i]) in army
    requires o == Missed ==> Target(shots[i]) !in army
    requires multiset(next) <= multiset(army) <= multiset(start)
    ensures forall k :: 0 <= k < i + 1 && (outcomes + [o])[k] == Killed ==> Target(shots[k]) in start
    ensures forall k :: 0 <= k < i + 1 && (outcomes + [o])[k] == Missed ==> Target(shots[k]) !in next
  {
    SubArmyMembers(next, army);
    SubArmyMembers(army, start);
    var outcomes' := outcomes + [o];
    forall k | 0 <= k < i
      ensures outcomes'[k] == outcomes[k]
    {
    }
  }

  /** Shot `i`'s outcome keeps the targets of the kills accounting for what left `start`. */
  lemma CountStep(shots: seq<Shot>, start: seq<Formation.Invader>, army: seq<Formation.Invader>,
                  next: seq<Formation.Invader>, outcomes: seq<Outcome>, i: nat, o: Outcome)
    requires |outcomes| == i < |shots|
    requires multiset(army) + KilledAt(shots, outcomes, i) == multiset(start)
    requires |army| + multiset(outcomes)[Killed] == |start|
    requires o == Killed ==> multiset(next) + multiset{Target(shots[i])} == multiset(army)
    requires o != Killed ==> next == army
    ensures multiset(next) + KilledAt(shots, outcomes + [o], i + 1) == multiset(start)
    ensures |next| + multiset(outcomes + [o])[Killed] == |start|
  {
    KilledAtPrefix(shots, outcomes, outcomes + [o], i);
    assert multiset(outcomes + [o]) == multiset(outcomes) + multiset{o};
    if o == Killed {
      assert |multiset(next)| + 1 == |multiset(army)|;
    }
  }

  /** Handling shot `i` as `DetectOne` does keeps `KillsDone`. */
  lemma KillsStep(shots: seq<Shot>, start: seq<Formation.Invader>, army: seq<Formation.Invader>,
                  next: seq<Formation.Invader>, outcomes: seq<Outcome>, i: nat, o: Outcome)
    requires KillsDone(shots, start, army, outcomes, i) && i < |shots|
    requires o == Killed ==> Target(shots[i]) in army
    requires o == Killed ==> multiset(next) + multiset{Target(shots[i])} == multiset(army)
    requires o == Missed ==> Target(shots[i]) !in army
    requires o != Killed ==> next == army
    requires multiset(next) <= multiset(army)
    requires IsSubsequence(next, army)
    ensures KillsDone(shots, start, next, outcomes + [o], i + 1)
  {
    MembersStep(shots, start, army, next, outcomes, i, o);
    CountStep(shots, start, army, next, outcomes, i, o);
    SubsequenceTrans(next, army, start);
  }

  /** Before `detect_hits` handles any shot, nothing is done and the army is whole. */
  lemma DetectStart(shots: seq<Shot>, start: seq<Formation.Invader>)
    ensures ShotsDone(shots, shots, [], 0)
    ensures KillsDone(shots, start, start, [], 0)
    ensures TurnsDone(shots, start, [], 0)
  {
    SubsequenceOfSelf(start);
  }

  /** Once `detect_hits` has handled every shot, the bookkeeping gives its results. */
  lemma DetectDone(before: seq<Shot>, shots: seq<Shot>, start: seq<Formation.Invader>, army: seq<Formation.Invader>,
                   outcomes: seq<Outcome>, hit: bool)
    requires ShotsDone(before, shots, outcomes, |before|)
    requires KillsDone(before, start, army, outcomes, |before|)
    requires TurnsDone(before, start, outcomes, |before|)
    requires hit <==> Killed in outcomes
    ensures hit <==> |army| < |start|
    ensures |outcomes| == |before| && |shots| == |before|
    ensures multiset(army) + KilledAt(before, outcomes, |before|) == multiset(start)
    ensures |army| == |start| - multiset(outcomes)[Killed]
    ensures IsSubsequence(army, start)
    ensures forall i :: 0 <= i < |before| ==> (outcomes[i] == Skipped <==> before[i].exploding)
    ensures forall i :: 0 <= i < |before| ==>
      shots[i] == if outcomes[i] == Killed then Explode(before[i]) else before[i]
    ensures forall i :: 0 <= i < |before| && outcomes[i] == Killed ==> Target(before[i]) in start
    ensures forall i :: 0 <= i < |before| && outcomes[i] == Missed ==> Target(before[i]) !in army
    ensures forall i {:trigger ArmyAtTurn(start, before, outcomes, i)} :: 0 <= i < |before| && outcomes[i] != Skipped ==>
      (outcomes[i] == Killed <==> Target(before[i]) in ArmyAtTurn(start, before, outcomes, i))
  {
  }

  /** One turn of `detect_hits`: shot `i` of `before` asks for its kill, keeping the bookkeeping. */
  method DetectStep(before: seq<Shot>, start: seq<Formation.Invader>, shots: seq<Shot>,
                    invaders: Formation.Invaders, outcomes: seq<Outcome>, i: nat)
    returns (shots': seq<Shot>, invaders': Formation.Invaders, o: Outcome)
    requires i < |before|
    requires ShotsDone(before, shots, outcomes, i)
    requires KillsDone(before, start, invaders.army, outcomes, i)
    requires TurnsDone(before, start, outcomes, i)
    ensures ShotsDone(before, shots', outcomes + [o], i + 1)
    ensures KillsDone(before, start, invaders'.army, outcomes + [o], i + 1)
    ensures TurnsDone(before, start, outcomes + [o], i + 1)
    ensures invaders'.moveTimer == invaders.moveTimer && invaders'.direction == invaders.direction
  {
    var s;
    s, invaders', o := DetectOne(shots[i], invaders);
    ShotsStep(before, shots, outcomes, i, s, o);
    TurnsStep(before, start, invaders.army, outcomes, i, o);
    KillsStep(before, start, invaders.army, invaders'.army, outcomes, i, o);
    shots' := shots[i := s];
  }

  /** The loop of `detect_hits`: every shot of `before` takes its turn, in order. */
  method DetectAll(before: seq<Shot>, inv: Formation.Invaders)
    returns (shots: seq<Shot>, invaders: Formation.Invaders, outcomes: seq<Outcome>, hit: bool)
    ensures ShotsDone(before, shots, outcomes, |before|)
    ensures KillsDone(before, inv.army, invaders.army, outcomes, |before|)
    ensures TurnsDone(before, inv.army, outcomes, |before|)
    ensures hit <==> Killed in outcomes
    ensures invaders.moveTimer == inv.moveTimer && invaders.direction == inv.direction
  {
    shots := before;
    invaders := inv;
    outcomes := [];
    hit := false;
    DetectStart(before, inv.army);
    for i := 0 to |before|
      invariant ShotsDone(before, shots, outcomes, i)
      invariant KillsDone(before, inv.army, invaders.army, outcomes, i)
      invariant TurnsDone(before, inv.army, outcomes, i)
      invariant hit <==> Killed in outcomes
      invariant invaders.moveTimer == inv.moveTimer && invaders.direction == inv.direction
    {
      var o;
      shots, invaders, o := DetectStep(before, inv.army, shots, invaders, outcomes, i);
      outcomes := outcomes + [o];
      hit := hit || o == Killed;
    }
  }

  /**
   * `Player::detect_hits`: every shot that is not exploding asks the formation
   * to kill the invader at its position; a shot whose kill succeeded
   * explodes. Reports whether any kill succeeded.
   */
  method DetectHits(p: Player, inv: Formation.Invaders) returns (r: HitReport)
    ensures r.hit <==> Killed in r.outcomes
    ensures r.hit <==> |r.invaders.army| < |inv.army|
    ensures |r.outcomes| == |p.shots| && |r.player.shots| == |p.shots|
    // exactly the invaders at the killing shots' positions leave, and the survivors keep their order
    ensures multiset(r.invaders.army) + KilledAt(p.shots, r.outcomes, |p.shots|) == multiset(inv.army)
    ensures |r.invaders.army| == |inv.army| - multiset(r.outcomes)[Killed]
    ensures IsSubsequence(r.invaders.army, inv.army)
    ensures forall i :: 0 <= i < |p.shots| ==> (r.outcomes[i] == Skipped <==> p.shots[i].exploding)
    ensures forall i :: 0 <= i < |p.shots| ==>
      r.player.shots[i] == if r.outcomes[i] == Killed then Explode(p.shots[i]) else p.shots[i]
    ensures forall i :: 0 <= i < |p.shots| && r.outcomes[i] == Killed ==> Target(p.shots[i]) in inv.army
    ensures forall i :: 0 <= i < |p.shots| && r.outcomes[i] == Missed ==> Target(p.shots[i]) !in r.invaders.army
    // shots take their turns in order: a shot kills exactly when its target survived the earlier shots
    ensures forall i {:trigger ArmyAtTurn(inv.army, p.shots, r.outcomes, i)} :: 0 <= i < |p.shots| && r.outcomes[i] != Skipped ==>
      (r.outcomes[i] == Killed <==> Target(p.shots[i]) in ArmyAtTurn(inv.army, p.shots, r.outcomes, i))
    ensures r.player.x == p.x && r.player.y == p.y
    ensures r.invaders.moveTimer == inv.moveTimer && r.invaders.direction == inv.direction
    ensures ValidPlayer(p) ==> ValidPlayer(r.player)
  {
    var shots, invaders, outcomes, hit := DetectAll(p.shots, inv);
    DetectDone(p.shots, shots, inv.army, invaders.army, outcomes, hit);
    r := HitReport(p.(shots := shots), invaders, hit, outcomes);
  }

  /** A kill among the first `n` shots leaves its target in the kills of the first `n`. */
  lemma {:induction false} KillCounted(shots: seq<Shot>, outcomes: seq<Outcome>, i: nat, n: nat)
    requires i < n <= |shots| && n <= |outcomes| && outcomes[i] == Killed
    ensures Target(shots[i]) in KilledAt(shots, outcomes, n)
  {
    if i < n - 1 {
      KillCounted(shots, outcomes, i, n - 1);
    }
  }

  /**
   * Taking turns in order, an invader that appears once in the army is killed
   * at most once: after one shot killed it, any later shot that is not
   * exploding and aims at the same cell misses.
   */
  lemma {:induction false} KilledOnlyOnce(start: seq<Formation.Invader>, shots: seq<Shot>, outcomes: seq<Outcome>, i: nat, j: nat)
    requires TurnsDone(shots, start, outcomes, |shots|)
    requires i < j < |shots| && Target(shots[i]) == Target(shots[j])
    requires multiset(start)[Target(shots[i])] == 1
    requires outcomes[i] == Killed && outcomes[j] != Skipped
    ensures outcomes[j] == Missed
  {
    KillCounted(shots, outcomes, i, j);
    assert Target(shots[j]) !in ArmyAtTurn(start, shots, outcomes, j);
  }
}
