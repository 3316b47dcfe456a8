/** The isometric scene's movement sequencer: the player's logical cell, the queue
    of committed steps, the moving flag and the handle of the current movement
    tween, driven by cursor keys, clicks, the escape key and tween completions. */
module Scene {
  import opened Grid
  import opened Isometric
  import opened PathFinding

  datatype Option<T> = None | Some(value: T)

  /** A running movement tween: the engine moves the player's sprite to `to` over
      `duration` milliseconds and then calls back OnTweenComplete. */
  datatype Tween = Tween(id: nat, to: Point, duration: real)

  /** Which cursor keys went down this frame (the engine's edge-triggered JustDown). */
  datatype CursorKeys = CursorKeys(left: bool, right: bool, up: bool, down: bool)

  /** The grid step of the first key that went down, tested left, right, up, down. */
  function KeyDelta(keys: CursorKeys): Option<Cell> {
    if keys.left then Some(Cell(-1, 1))
    else if keys.right then Some(Cell(1, -1))
    else if keys.up then Some(Cell(-1, -1))
    else if keys.down then Some(Cell(1, 1))
    else None
  }

  /** The grid steps are diagonal so that each key moves the player's diamond
      straight along the screen: left and right by a whole tile across, up and down
      by half the tile size (one diamond height), in the direction of the key. */
  lemma KeyDeltaMovesAlongScreen(keys: CursorKeys, c: Cell)
    requires KeyDelta(keys).Some?
    ensures var d := KeyDelta(keys).value;
            var p, q := GetIsoPosition(c.x, c.y), GetIsoPosition(c.x + d.x, c.y + d.y);
            (keys.left ==> q.x == p.x - TileSize && q.y == p.y) &&
            (!keys.left && keys.right ==> q.x == p.x + TileSize && q.y == p.y) &&
            (!keys.left && !keys.right && keys.up ==> q.x == p.x && q.y == p.y - TileSize * 0.5) &&
            (!keys.left && !keys.right && !keys.up ==> q.x == p.x && q.y == p.y + TileSize * 0.5)
  {
  }

  /** ids increase from the oldest running tween to the newest. */
  ghost predicate IdsIncreasing(ts: seq<Tween>) {
    forall i, j :: 0 <= i < j < |ts| ==> ts[i].id < ts[j].id
  }

  /** ids increase along ts, and all are below n, the id the next tween gets. */
  ghost predicate TweensOrdered(ts: seq<Tween>, n: nat) {
    IdsIncreasing(ts) && forall t :: t in ts ==> t.id < n
  }

  /** The running tweens after the tween with the given id is stopped. */
  function StopTween(ts: seq<Tween>, id: nat): (r: seq<Tween>)
    ensures forall t :: t in r <==> t in ts && t.id != id
  {
    if ts == [] then []
    else if ts[0].id == id then StopTween(ts[1..], id)
    else [ts[0]] + StopTween(ts[1..], id)
  }

  /** A tween started before every tween of an ordered list can go in front of it. */
  lemma PrependIncreasing(t: Tween, rest: seq<Tween>)
    requires IdsIncreasing(rest) && forall u :: u in rest ==> t.id < u.id
    ensures IdsIncreasing([t] + rest)
  {
    var r := [t] + rest;
    forall i, j | 0 <= i < j < |r| ensures r[i].id < r[j].id {
      assert r[j] == rest[j - 1] && r[j] in rest;
      if i > 0 {
        assert r[i] == rest[i - 1];
      }
    }
  }

  /** Stopping a tween keeps the running ones in start order. */
  lemma {:induction false} StopTweenKeepsOrder(ts: seq<Tween>, id: nat)
    requires IdsIncreasing(ts)
    ensures IdsIncreasing(StopTween(ts, id))
  {
    if ts != [] {
      assert IdsIncreasing(ts[1..]);
      StopTweenKeepsOrder(ts[1..], id);
      if ts[0].id != id {
        var rest := StopTween(ts[1..], id);
        forall t | t in rest ensures ts[0].id < t.id {
          var k :| 0 <= k < |ts[1..]| && ts[1..][k] == t;
          assert ts[k + 1] == t;
        }
        PrependIncreasing(ts[0], rest);
      }
    }
  }

  /** The running tweens after cancelMovement: the current one, if any, is stopped. */
  function StopCurrent(ts: seq<Tween>, current: Option<Tween>): seq<Tween> {
    if current.Some? then StopTween(ts, current.value.id) else ts
  }

  /** The tween that carries the player to a dequeued cell. */
  function StepTween(id: nat, cell: Cell, duration: real): Tween {
    Tween(id, GetIsoPosition(cell.x, cell.y), duration)
  }

  class MainScene {
    const obstacles: seq<seq<bool>>
    var playerPosition: Cell
    var moveQueue: seq<Cell>
    var isMoving: bool
    var currentMoveTween: Option<Tween>
    /** The engine's running tweens started by this scene, oldest first. */
    var tweens: seq<Tween>
    /** How many tweens the scene has started; the id of the next one. */
    var tweensStarted: nat
    var arrowKeyMoveSpeed: real
    var clickMoveSpeed: real

    /** The player stands on a walkable cell, every queued step is walkable, the
        moving flag is set exactly when a current tween is held, and that tween is
        still running. */
    ghost predicate Valid()
      reads this
    {
      ObstacleGrid(obstacles) &&
      IsValidTarget(obstacles, playerPosition) &&
      (forall i :: 0 <= i < |moveQueue| ==> IsValidTarget(obstacles, moveQueue[i])) &&
      (isMoving <==> currentMoveTween.Some?) &&
      (currentMoveTween.Some? ==> currentMoveTween.value in tweens) &&
      TweensOrdered(tweens, tweensStarted)
    }

    /** No steps queued, not moving, no current tween. */
    ghost predicate Idle()
      reads this
    {
      moveQueue == [] && !isMoving && currentMoveTween == None
    }

    /** The state right after the head of queue q was dequeued, with ts running and
        n tweens started before: the player is logically on the head already, the
        rest is queued, and a new tween towards the head runs, fast if steps remain
        and slow if it was the last one. */
    ghost predicate DequeuedFrom(q: seq<Cell>, ts: seq<Tween>, n: nat)
      reads this
      requires q != []
    {
      var t := StepTween(n, q[0], if |q| > 1 then clickMoveSpeed else arrowKeyMoveSpeed);
      playerPosition == q[0] && moveQueue == q[1..] && isMoving &&
      currentMoveTween == Some(t) && tweens == ts + [t] && tweensStarted == n + 1
    }

    /** The state after the step (deltaX, deltaY) from the old position was offered
        to the queue `base`: if the target cell is walkable it is appended and the
        queue is processed, otherwise the queue is `base` and nothing else changed. */
    twostate predicate StepOffered(base: seq<Cell>, deltaX: int, deltaY: int)
      reads this
      requires Shaped(obstacles)
    {
      var newX, newY := old(playerPosition).x + deltaX, old(playerPosition).y + deltaY;
      if IsValidMove(obstacles, newX, newY) then
        DequeuedFrom(base + [Cell(newX, newY)], old(tweens), old(tweensStarted))
      else
        moveQueue == base && playerPosition == old(playerPosition) && isMoving == old(isMoving) &&
        currentMoveTween == old(currentMoveTween) && tweens == old(tweens) &&
        tweensStarted == old(tweensStarted)
    }

    /** The scene as create() leaves it: the player on (0, 0), nothing queued. */
    constructor (obstacles: seq<seq<bool>>)
      requires ObstacleGrid(obstacles)
      ensures Valid() && Idle()
      ensures this.obstacles == obstacles && playerPosition == Cell(0, 0)
      ensures tweens == [] && tweensStarted == 0
      ensures arrowKeyMoveSpeed == 300.0 && clickMoveSpeed == 150.0
    {
      this.obstacles := obstacles;
      playerPosition := Cell(0, 0);
      moveQueue := [];
      isMoving := false;
      currentMoveTween := None;
      tweens := [];
      tweensStarted := 0;
      arrowKeyMoveSpeed := 300.0;
      clickMoveSpeed := 150.0;
    }

    /** Takes the next queued step: the position moves the moment the step is
        dequeued, and a tween animates the sprite after it. */
    method ProcessMoveQueue()
      requires Valid()
      modifies this`playerPosition, this`moveQueue, this`isMoving, this`currentMoveTween,
               this`tweens, this`tweensStarted
      ensures Valid()
      ensures old(moveQueue) == [] ==> unchanged(this)
      ensures old(moveQueue) != [] ==> DequeuedFrom(old(moveQueue), old(tweens), old(tweensStarted))
    {
      if |moveQueue| == 0 {
        return;
      }
      var nextPos := moveQueue[0];
      moveQueue := moveQueue[1..];
      playerPosition := nextPos;
      var target := GetIsoPosition(nextPos.x, nextPos.y);
      isMoving := true;
      var movementSpeed := if |moveQueue| > 0 then clickMoveSpeed else arrowKeyMoveSpeed;
      var tween := Tween(tweensStarted, target, movementSpeed);
      tweens := tweens + [tween];
      tweensStarted := tweensStarted + 1;
      currentMoveTween := Some(tween);
    }

    /** The tween's onComplete callback, for any running tween (the current one or
        one left running by ClearQueueAndMove): it ends, the moving flag and the
        handle are reset, and the next queued step is taken. */
    method OnTweenComplete(i: nat)
      requires Valid() && i < |tweens|
      modifies this`playerPosition, this`moveQueue, this`isMoving, this`currentMoveTween,
               this`tweens, this`tweensStarted
      ensures Valid()
      ensures var remaining := old(tweens[..i] + tweens[i + 1..]);
              if old(moveQueue) == [] then
                Idle() && playerPosition == old(playerPosition) && tweens == remaining &&
                tweensStarted == old(tweensStarted)
              else
                DequeuedFrom(old(moveQueue), remaining, old(tweensStarted))
    {
      ghost var ts := tweens;
      tweens := tweens[..i] + tweens[i + 1..];
      assert forall k :: 0 <= k < |tweens| ==> tweens[k] == if k < i then ts[k] else ts[k + 1];
      isMoving := false;
      currentMoveTween := None;
      ProcessMoveQueue();
    }

    /** Offers the step (deltaX, deltaY) from the current position to the queue. */
    method QueueMove(deltaX: int, deltaY: int)
      requires Valid()
      modifies this`playerPosition, this`moveQueue, this`isMoving, this`currentMoveTween,
               this`tweens, this`tweensStarted
      ensures Valid()
      ensures StepOffered(old(moveQueue), deltaX, deltaY)
    {
      var newX := playerPosition.x + deltaX;
      var newY := playerPosition.y + deltaY;
      if IsValidMove(obstacles, newX, newY) {
        moveQueue := moveQueue + [Cell(newX, newY)];
        ProcessMoveQueue();
      }
    }

    /** Drops the queued steps and offers the single step (deltaX, deltaY). The
        tween in flight, if any, is not stopped. */
    method ClearQueueAndMove(deltaX: int, deltaY: int)
      requires Valid()
      modifies this`playerPosition, this`moveQueue, this`isMoving, this`currentMoveTween,
               this`tweens, this`tweensStarted
      ensures Valid()
      ensures StepOffered([], deltaX, deltaY)
      ensures old(tweens) <= tweens
    {
      moveQueue := [];
      QueueMove(deltaX, deltaY);
    }

    /** Keys while a path is draining or a tween runs: a key replaces the queue. */
    method HandleQueueMovement(keys: CursorKeys)
      requires Valid()
      modifies this`playerPosition, this`moveQueue, this`isMoving, this`currentMoveTween,
               this`tweens, this`tweensStarted
      ensures Valid()
      ensures KeyDelta(keys).None? ==> unchanged(this)
      ensures KeyDelta(keys).Some? ==> StepOffered([], KeyDelta(keys).value.x, KeyDelta(keys).value.y)
    {
      var delta := KeyDelta(keys);
      if delta.Some? {
        ClearQueueAndMove(delta.value.x, delta.value.y);
      }
    }

    /** Keys while idle: a key queues one step. */
    method HandleKeyboardMovement(keys: CursorKeys)
      requires Valid()
      modifies this`playerPosition, this`moveQueue, this`isMoving, this`currentMoveTween,
               this`tweens, this`tweensStarted
      ensures Valid()
      ensures KeyDelta(keys).None? ==> unchanged(this)
      ensures KeyDelta(keys).Some? ==>
                StepOffered(old(moveQueue), KeyDelta(keys).value.x, KeyDelta(keys).value.y)
    {
      var delta := KeyDelta(keys);
      if delta.Some? {
        QueueMove(delta.value.x, delta.value.y);
      }
    }

    /** The per-frame update: keys go to the queue handler while anything is queued
        or moving, and to the keyboard handler otherwise. Either way a key that went
        down leaves the queue empty, because the idle queue was empty already. */
    method Update(keys: CursorKeys)
      requires Valid()
      modifies this`playerPosition, this`moveQueue, this`isMoving, this`currentMoveTween,
               this`tweens, this`tweensStarted
      ensures Valid()
      ensures KeyDelta(keys).None? ==> unchanged(this)
      ensures KeyDelta(keys).Some? ==> StepOffered([], KeyDelta(keys).value.x, KeyDelta(keys).value.y)
      ensures KeyDelta(keys).Some? ==> moveQueue == []
    {
      if isMoving || |moveQueue| > 0 {
        HandleQueueMovement(keys);
      } else {
        HandleKeyboardMovement(keys);
      }
    }

    /** The escape key, and the first thing a click does: stop the current tween,
        drop the queue, clear the moving flag. The position stays where it is. */
    method CancelMovement()
      requires Valid()
      modifies this`moveQueue, this`isMoving, this`currentMoveTween, this`tweens
      ensures Valid() && Idle()
      ensures tweens == StopCurrent(old(tweens), old(currentMoveTween))
      ensures old(Idle()) ==> unchanged(this)
    {
      if currentMoveTween.Some? {
        StopTweenKeepsOrder(tweens, currentMoveTween.value.id);
        tweens := StopTween(tweens, currentMoveTween.value.id);
        currentMoveTween := None;
      }
      moveQueue := [];
      isMoving := false;
    }

    /** A click at viewport point (pointerX, pointerY) under camera scroll
        (scrollX, scrollY): cancel, find the clicked cell, and if it is walkable
        plan a path (with at most fuel steps of search) and start walking it. The
        ghost result is the planned path, [] when there is none. */
    method HandleClick(pointerX: real, pointerY: real, scrollX: real, scrollY: real, fuel: nat)
      returns (ghost path: seq<Cell>)
      requires Valid()
      modifies this`playerPosition, this`moveQueue, this`isMoving, this`currentMoveTween,
               this`tweens, this`tweensStarted
      ensures Valid()
      ensures var target := ScreenToGrid(pointerX, pointerY, scrollX, scrollY);
              (!IsValidTarget(obstacles, target) ==> path == []) &&
              (target == old(playerPosition) && fuel > 0 ==> path == [target]) &&
              (path != [] ==> FoundPath(obstacles, old(playerPosition), target, path))
      ensures path == [] ==>
                Idle() && playerPosition == old(playerPosition) &&
                tweens == StopCurrent(old(tweens), old(currentMoveTween)) &&
                tweensStarted == old(tweensStarted)
      ensures path != [] ==>
                DequeuedFrom(path, StopCurrent(old(tweens), old(currentMoveTween)), old(tweensStarted)) &&
                playerPosition == old(playerPosition) && moveQueue == path[1..]
    {
      CancelMovement();
      var targetPos := ScreenToGrid(pointerX, pointerY, scrollX, scrollY);
      path := [];
      if IsValidTarget(obstacles, targetPos) {
        moveQueue := FindPath(obstacles, playerPosition, targetPos, fuel);
        path := moveQueue;
        ProcessMoveQueue();
      }
    }

    /** Replaces both step durations. */
    method SetMovementSpeeds(arrowKeySpeed: real, clickMoveSpeed: real)
      requires Valid()
      modifies this`arrowKeyMoveSpeed, this`clickMoveSpeed
      ensures Valid()
      ensures this.arrowKeyMoveSpeed == arrowKeySpeed && this.clickMoveSpeed == clickMoveSpeed
    {
      this.arrowKeyMoveSpeed := arrowKeySpeed;
      this.clickMoveSpeed := clickMoveSpeed;
    }
  }

  /** Two down-arrow presses from the spawn cell, the second while the first step
      is still animating: the first tween is not stopped, so two run at once; when
      the older one completes first the scene reports that it is not moving while
      the newer tween is still running, and has dropped its handle. */
  method KeyDuringMoveLeavesTweenRunning() returns (running: nat, moving: bool, position: Cell)
    ensures position == Cell(2, 2) && running == 1 && !moving
  {
    var obstacles := seq(GridHeight, y => seq(GridWidth, x => false));
    var scene := new MainScene(obstacles);
    var down := CursorKeys(false, false, false, true);
    scene.Update(down);
    assert scene.playerPosition == Cell(1, 1) && scene.isMoving && |scene.tweens| == 1;
    scene.Update(down);
    assert |scene.tweens| == 2 && scene.currentMoveTween == Some(scene.tweens[1]);
    scene.OnTweenComplete(0);
    running, moving, position := |scene.tweens|, scene.isMoving, scene.playerPosition;
  }
}
