/**
  The cursor image trail of the home page (src/app/page.tsx): every pointer
  move updates the cursor; a move far enough from the last spawn point and
  late enough after the last spawn appends an image, and a timer later
  removes it. The clock reading is a parameter of each move.
 */
module Trail {

  datatype Point = Point(x: int, y: int)

  /** `ImageTrail`: the spawn time doubles as the id. */
  datatype TrailImage = TrailImage(id: int, x: int, y: int)

  /**
    The rendered images, the custom cursor position, the last-spawn
    trackers, and the ids whose 1500 ms removal timers are pending, oldest first.
   */
  datatype Trail = Trail(
    images: seq<TrailImage>,
    cursor: Point,
    lastPosition: Point,
    lastSpawn: int,
    pending: seq<int>)

  const DistanceThreshold := 140
  const TimeThreshold := 150

  const InitialTrail := Trail([], Point(0, 0), Point(0, 0), 0, [])

  /** `Math.sqrt(dx * dx + dy * dy) > DISTANCE_THRESHOLD`, compared on squares. */
  predicate FarEnough(from: Point, to: Point) {
    var dx := to.x - from.x;
    var dy := to.y - from.y;
    dx * dx + dy * dy > DistanceThreshold * DistanceThreshold
  }

  predicate ShouldSpawn(t: Trail, p: Point, now: int) {
    FarEnough(t.lastPosition, p) && now - t.lastSpawn > TimeThreshold
  }

  /**
    `handleMouseMove`: the cursor always follows the pointer; when the gate
    opens, one image is appended at the pointer with the current time as id,
    the trackers move to the pointer and the time, and a removal is scheduled;
    otherwise nothing else changes.
   */
  function MouseMove(t: Trail, p: Point, now: int): (r: Trail)
    ensures r.cursor == p
    ensures ShouldSpawn(t, p, now) ==>
      && r.images == t.images + [TrailImage(now, p.x, p.y)]
      && r.lastPosition == p && r.lastSpawn == now
      && r.pending == t.pending + [now]
    ensures !ShouldSpawn(t, p, now) ==> r == t.(cursor := p)
  {
    if ShouldSpawn(t, p, now) then
      Trail(t.images + [TrailImage(now, p.x, p.y)], p, p, now, t.pending + [now])
    else t.(cursor := p)
  }

  /** The removal callback's `filter`: drops exactly the images with that id, keeping the order of the rest. */
  function RemoveImage(images: seq<TrailImage>, id: int): (r: seq<TrailImage>)
    ensures |r| <= |images|
    ensures forall m :: m in r <==> m in images && m.id != id
    ensures (forall m :: m in images ==> m.id != id) ==> r == images
  {
    if images == [] then []
    else if images[0].id != id then [images[0]] + RemoveImage(images[1..], id)
    else RemoveImage(images[1..], id)
  }

  /** The oldest pending removal timer fires; with none pending nothing happens. */
  function RemovalFires(t: Trail): (r: Trail)
    ensures t.pending == [] ==> r == t
    ensures t.pending != [] ==>
      r.pending == t.pending[1..] && r.images == RemoveImage(t.images, t.pending[0])
      && r.cursor == t.cursor && r.lastPosition == t.lastPosition && r.lastSpawn == t.lastSpawn
  {
    if t.pending == [] then t
    else t.(images := RemoveImage(t.images, t.pending[0]), pending := t.pending[1..])
  }

  datatype TrailEvent = Moved(p: Point, now: int) | RemovalTimer

  function TrailStep(t: Trail, e: TrailEvent): Trail {
    match e
    case Moved(p, now) => MouseMove(t, p, now)
    case RemovalTimer => RemovalFires(t)
  }

  function TrailRun(t: Trail, events: seq<TrailEvent>): Trail
    decreases |events|
  {
    if events == [] then t else TrailRun(TrailStep(t, events[0]), events[1..])
  }

  // ---------------------------------------------------------------------------
  // Invariant

  function Ids(images: seq<TrailImage>): (r: seq<int>)
    ensures |r| == |images|
    ensures forall i :: 0 <= i < |images| ==> r[i] == images[i].id
  {
    seq(|images|, i requires 0 <= i < |images| => images[i].id)
  }

  /** Any two pending spawn times are more than the time threshold apart, in order. */
  predicate Spaced(ids: seq<int>) {
    forall i, j :: 0 <= i < j < |ids| ==> ids[j] - ids[i] > TimeThreshold
  }

  /**
    The rendered images are exactly those with a pending removal, in spawn
    order; spawn times are spaced and none is later than the last spawn.
   */
  predicate Valid(t: Trail) {
    && Ids(t.images) == t.pending
    && Spaced(t.pending)
    && (forall i :: 0 <= i < |t.pending| ==> t.pending[i] <= t.lastSpawn)
  }

  /** With ids in increasing order, removing the first id drops exactly the first image. */
  lemma RemoveOldest(images: seq<TrailImage>)
    requires images != [] && Spaced(Ids(images))
    ensures RemoveImage(images, images[0].id) == images[1..]
  {
    var rest := images[1..];
    assert forall m :: m in rest ==> m.id != images[0].id by {
      forall m | m in rest ensures m.id != images[0].id {
        var k :| 0 <= k < |rest| && rest[k] == m;
        assert Ids(images)[k + 1] - Ids(images)[0] > TimeThreshold;
      }
    }
  }

  lemma MouseMoveValid(t: Trail, p: Point, now: int)
    requires Valid(t)
    ensures Valid(MouseMove(t, p, now))
  {
  }

  lemma RemovalFiresValid(t: Trail)
    requires Valid(t)
    ensures Valid(RemovalFires(t))
  {
    if t.pending != [] {
      RemoveOldest(t.images);
    }
  }

  /** Every run from a valid state (the initial one included) stays valid. */
  lemma {:induction false} RunValid(t: Trail, events: seq<TrailEvent>)
    requires Valid(t)
    ensures Valid(TrailRun(t, events))
    decreases |events|
  {
    if events != [] {
      match events[0] {
        case Moved(p, now) => MouseMoveValid(t, p, now);
        case RemovalTimer => RemovalFiresValid(t);
      }
      RunValid(TrailStep(t, events[0]), events[1..]);
    }
  }

  lemma InitialValid()
    ensures Valid(InitialTrail)
  {
  }

  /** The images on screen at any time have pairwise distinct ids. */
  lemma DistinctIds(t: Trail)
    requires Valid(t)
    ensures forall i, j :: 0 <= i < j < |t.images| ==> t.images[i].id < t.images[j].id
  {
  }

  /** Once every pending removal has fired, no image is left. */
  lemma {:induction false} DrainEmpties(t: Trail)
    requires Valid(t)
    ensures TrailRun(t, seq(|t.pending|, _ => RemovalTimer)).images == []
    decreases |t.pending|
  {
    var evs := seq(|t.pending|, _ => RemovalTimer);
    if t.pending == [] {
      assert |Ids(t.images)| == 0;
    } else {
      RemovalFiresValid(t);
      var t' := RemovalFires(t);
      assert evs[1..] == seq(|t'.pending|, _ => RemovalTimer);
      DrainEmpties(t');
    }
  }

  /** A move from the origin to (200, 0) after the time threshold spawns one image there. */
  lemma SpawnFromOrigin(now: int)
    requires now > TimeThreshold
    ensures MouseMove(InitialTrail, Point(200, 0), now).images == [TrailImage(now, 200, 0)]
  {
  }

  /** A move of 60 pixels is too short to spawn, whatever the time. */
  lemma ShortMoveSuppressed(now: int)
    ensures MouseMove(InitialTrail, Point(60, 0), now).images == []
  {
  }
}
