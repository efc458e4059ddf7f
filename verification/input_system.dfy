/**
 * The input system of src/systems/input_system.c in its single-threaded form:
 * each frame a snapshot of the keys is taken, stamped with the next sequence
 * number, and translated straight into commands on the queue; the game then
 * pops them without blocking.
 */
module Input {
  import opened MachineInt
  import opened Commands
  import opened InputQueue

  /** InputSnapshot: one frame of input. */
  datatype Snapshot = Snapshot(
    seqNo: U32,
    moveX: int,
    moveY: int,
    toggleDebug: bool,
    mouseLeftPressed: bool,
    wheelDelta: real,
    mousePos: Vec2)

  /** The all-zero snapshot `memset` produces. */
  const ZERO_SNAPSHOT: Snapshot := Snapshot(0, 0, 0, false, false, 0.0, ORIGIN)

  /**
   * What the rendering library reports for one frame: which keys were pressed
   * (IsKeyPressed), the left button (IsMouseButtonPressed), the wheel
   * (GetMouseWheelMove) and the cursor (GetMousePosition).
   */
  datatype KeyState = KeyState(
    w: bool, up: bool, s: bool, down: bool,
    a: bool, left: bool, d: bool, right: bool,
    f3: bool, mouseLeft: bool, wheel: real, mouse: Vec2)

  /**
   * poll_snapshot_mainthread: at most one step per axis, with up (W or Up)
   * taking priority over down (S or Down) and left (A or Left) over right
   * (D or Right). The cursor is only read on a left press; otherwise it stays
   * zero. The sequence number is left at zero for the caller to stamp.
   */
  function PollSnapshot(k: KeyState): (s: Snapshot)
    ensures s.seqNo == 0
    ensures -1 <= s.moveX <= 1 && -1 <= s.moveY <= 1
    ensures s.moveY == -1 <==> k.w || k.up
    ensures s.moveY == 1 <==> !(k.w || k.up) && (k.s || k.down)
    ensures s.moveX == -1 <==> k.a || k.left
    ensures s.moveX == 1 <==> !(k.a || k.left) && (k.d || k.right)
    ensures s.toggleDebug == k.f3 && s.mouseLeftPressed == k.mouseLeft && s.wheelDelta == k.wheel
    ensures s.mousePos == if k.mouseLeft then k.mouse else ORIGIN
  {
    var moveY := if k.w || k.up then -1 else if k.s || k.down then 1 else 0;
    var moveX := if k.a || k.left then -1 else if k.d || k.right then 1 else 0;
    var mousePos := if k.mouseLeft then k.mouse else ORIGIN;
    ZERO_SNAPSHOT.(moveX := moveX, moveY := moveY, toggleDebug := k.f3,
                   wheelDelta := k.wheel, mouseLeftPressed := k.mouseLeft, mousePos := mousePos)
  }

  /** Position of a command kind in the fixed translation order. */
  function Rank(c: Command): nat
  {
    match c
    case ToggleDebug => 0
    case Zoom(_) => 1
    case Move(_, _) => 2
    case PlaceTile(_) => 3
    case NoCommand => 4
  }

  /** Command kinds appear in strictly increasing rank. */
  predicate InRankOrder(cs: seq<Command>)
  {
    forall i, j :: 0 <= i < j < |cs| ==> Rank(cs[i]) < Rank(cs[j])
  }

  /** Put `c` in front of `rest` when `b` holds; `c` ranks below everything in `rest`. */
  function PrependIf(b: bool, c: Command, rest: seq<Command>): (cs: seq<Command>)
    requires InRankOrder(rest)
    requires forall x :: x in rest ==> Rank(c) < Rank(x)
    ensures InRankOrder(cs)
    ensures forall x :: x in cs <==> (b && x == c) || x in rest
    ensures |cs| == |rest| + (if b then 1 else 0)
  {
    if b then [c] + rest else rest
  }

  /**
   * The commands one snapshot stands for, in the fixed order ToggleDebug,
   * Zoom, Move, PlaceTile; each is present exactly when its trigger is set.
   */
  function CommandsFor(s: Snapshot): (cs: seq<Command>)
    ensures |cs| <= 4
    ensures InRankOrder(cs)
    ensures ToggleDebug in cs <==> s.toggleDebug
    ensures Zoom(s.wheelDelta) in cs <==> s.wheelDelta != 0.0
    ensures Move(s.moveX, s.moveY) in cs <==> s.moveX != 0 || s.moveY != 0
    ensures PlaceTile(s.mousePos) in cs <==> s.mouseLeftPressed
    ensures forall c :: c in cs ==>
              c == ToggleDebug || c == Zoom(s.wheelDelta) || c == Move(s.moveX, s.moveY) || c == PlaceTile(s.mousePos)
  {
    var place := PrependIf(s.mouseLeftPressed, PlaceTile(s.mousePos), []);
    var move := PrependIf(s.moveX != 0 || s.moveY != 0, Move(s.moveX, s.moveY), place);
    var zoom := PrependIf(s.wheelDelta != 0.0, Zoom(s.wheelDelta), move);
    PrependIf(s.toggleDebug, ToggleDebug, zoom)
  }

  /**
   * The input system. `lastSeq` is the sequence number of the last snapshot
   * translated; in the C code it is a function-local static of
   * process_snapshot, starting at zero.
   */
  datatype InputSystem = InputSystem(running: bool, snapshot: Snapshot, queue: Queue, lastSeq: U32)

  predicate Valid(sys: InputSystem)
  {
    InputQueue.Valid(sys.queue)
  }

  /** InputSystem_create: running, zeroed snapshot, empty queue (slots uncleared). */
  function Create(slots: seq<Command>): (sys: InputSystem)
    requires |slots| == CAP
    ensures Valid(sys) && sys.running
    ensures sys.snapshot == ZERO_SNAPSHOT && sys.lastSeq == 0
    ensures Contents(sys.queue) == []
  {
    InputSystem(true, ZERO_SNAPSHOT, Init(slots), 0)
  }

  /** InputSystem_destroy: only clears the running flag. */
  function Destroy(sys: InputSystem): (sys': InputSystem)
    ensures !sys'.running
    ensures sys'.snapshot == sys.snapshot && sys'.queue == sys.queue && sys'.lastSeq == sys.lastSeq
  {
    sys.(running := false)
  }

  /**
   * process_snapshot: a snapshot carrying the last translated sequence number
   * is ignored; any other is remembered and its commands are pushed in the
   * fixed order (each push may drop the oldest queued command).
   */
  function ProcessSnapshot(sys: InputSystem, s: Snapshot): (sys': InputSystem)
    requires Valid(sys)
    ensures Valid(sys')
    ensures s.seqNo == sys.lastSeq ==> sys' == sys
    ensures s.seqNo != sys.lastSeq ==>
              && sys'.lastSeq == s.seqNo
              && Contents(sys'.queue) == Keep(Contents(sys.queue) + CommandsFor(s), MAX_LEN)
              && sys'.snapshot == sys.snapshot && sys'.running == sys.running
  {
    if s.seqNo == sys.lastSeq then sys
    else
      PushAllContents(sys.queue, CommandsFor(s));
      sys.(queue := PushAll(sys.queue, CommandsFor(s)), lastSeq := s.seqNo)
  }

  /**
   * InputSystem_poll_and_publish: the new snapshot's sequence number is the
   * previous one plus one (as an `unsigned`), and it is translated at once.
   */
  function PollAndPublish(sys: InputSystem, keys: KeyState): (sys': InputSystem)
    requires Valid(sys)
    ensures Valid(sys')
    ensures sys'.snapshot.seqNo == Wrap32(sys.snapshot.seqNo + 1)
    ensures sys'.snapshot == PollSnapshot(keys).(seqNo := sys'.snapshot.seqNo)
    ensures sys'.running == sys.running
  {
    var s := PollSnapshot(keys).(seqNo := Wrap32(sys.snapshot.seqNo + 1));
    ProcessSnapshot(sys.(snapshot := s), s)
  }

  /**
   * Published snapshots are never mistaken for repeats: as long as the last
   * translated number is the published one (true from creation on), every
   * publish is translated and the two numbers stay in step.
   */
  lemma PublishAlwaysTranslated(sys: InputSystem, keys: KeyState)
    requires Valid(sys) && sys.lastSeq == sys.snapshot.seqNo
    ensures PollAndPublish(sys, keys).lastSeq == PollAndPublish(sys, keys).snapshot.seqNo
    ensures Contents(PollAndPublish(sys, keys).queue)
            == Keep(Contents(sys.queue) + CommandsFor(PollAndPublish(sys, keys).snapshot), MAX_LEN)
  {
    var prev: int := sys.snapshot.seqNo;
    if prev + 1 == TWO_32 {
      assert Wrap32(prev + 1) == 0;
    } else {
      assert Wrap32(prev + 1) == prev + 1;
    }
  }

  /** The outcome of InputSystem_pop: the flag, the `*outCmd` cell, and the system. */
  datatype SystemPopped = SystemPopped(ok: bool, out: Command, sys: InputSystem)

  /** InputSystem_pop: a non-blocking pop of the oldest command. */
  function Pop(sys: InputSystem, out: Command): (p: SystemPopped)
    requires Valid(sys)
    ensures Valid(p.sys)
    ensures p.ok <==> Contents(sys.queue) != []
    ensures !p.ok ==> p.out == out && p.sys == sys
    ensures p.ok ==> p.out == Contents(sys.queue)[0] && Contents(p.sys.queue) == Contents(sys.queue)[1..]
    ensures p.sys.lastSeq == sys.lastSeq && p.sys.snapshot == sys.snapshot && p.sys.running == sys.running
  {
    var r := PopTry(sys.queue, out);
    SystemPopped(r.ok, r.out, sys.(queue := r.queue))
  }
}
