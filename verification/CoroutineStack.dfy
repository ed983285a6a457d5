/**
 The segmented coroutine stack: a bump allocator over linked segments. Every push reserves a header
 and an aligned payload in the top segment, growing by one segment when it does not fit; every pop
 reads the header back and rewinds, freeing a segment it empties unless it is the first.
 */
module CoroutineStack {
  import opened Words
  import opened Wrappers

  const SEGMENT_HEADER: Word := 24
  const FRAME_HEADER: Word := 16
  const WORD_BYTES: Word := 8
  const MINIMUM_CAPACITY: Word := 65536

  /** A segment at `address`: its own header, then `capacity` bytes of which `used` are taken. */
  datatype Segment = Segment(address: Word, capacity: Word, used: Word)

  datatype Header = Header(segment: Word, previousUsed: Word)

  /** The segments from bottom to top, the byte counter, and the frame headers readable in memory. */
  datatype Stack = Stack(segments: seq<Segment>, bytes: Word, headers: map<Word, Header>)

  const EMPTY := Stack([], 0, map[])

  function Top(s: Stack): Segment
    requires s.segments != []
  {
    s.segments[|s.segments| - 1]
  }

  function Effective(alignment: Word): Word {
    if alignment < WORD_BYTES then WORD_BYTES else alignment
  }

  function Overhead(alignment: Word): Word {
    Sub(Add(FRAME_HEADER, alignment), 1)
  }

  /** Where the payload goes in the top segment. */
  function Payload(t: Segment, alignment: Word): Word {
    BitAnd(Sub(Add(Add(Add(Add(t.address, SEGMENT_HEADER), t.used), FRAME_HEADER), alignment), 1), Complement(Sub(alignment, 1)))
  }

  /** Writing `size` bytes from `at` destroys whatever headers were readable there. */
  function Overwrite(headers: map<Word, Header>, at: int, size: int): map<Word, Header> {
    map h | h in headers && (h + FRAME_HEADER <= at || at + size <= h) :: headers[h]
  }

  /** Reserves a frame in the top segment; its owner may fill the payload with anything. */
  function Place(s: Stack, size: Word, alignment: Word): (Stack, Word)
    requires s.segments != []
  {
    var t := Top(s);
    var payload := Payload(t, alignment);
    var header := Sub(payload, FRAME_HEADER);
    var used := Add(Sub(payload, Add(t.address, SEGMENT_HEADER)), size);
    (Stack(s.segments[|s.segments| - 1 := t.(used := used)], s.bytes,
           Overwrite(s.headers, header, payload + size - header)[header := Header(t.address, t.used)]),
     payload)
  }

  /** Links a new empty segment at the address the allocator returned. */
  function Grown(s: Stack, block: Word, capacity: Word): Stack {
    Stack(s.segments + [Segment(block, capacity, 0)], Add(s.bytes, capacity), s.headers)
  }

  predicate Fits(s: Stack, required: Word) {
    s.segments != [] && required <= Sub(Top(s).capacity, Top(s).used)
  }

  function CapacityFor(required: Word): Word {
    if required > MINIMUM_CAPACITY then required else MINIMUM_CAPACITY
  }

  /** What a push does: nothing, use the top segment, or first ask the allocator for a new one. */
  datatype Plan = Fail | Fit | Grow(capacity: Word)

  function PlanFor(s: Stack, size: Word, alignment: Word, limit: Word): (plan: Plan)
    ensures plan.Fit? ==> s.segments != []
  {
    if BitAnd(alignment, Sub(alignment, 1)) != 0 then Fail
    else if size > Sub(SIZE_MAX, Overhead(alignment)) then Fail
    else
      var required := Add(size, Overhead(alignment));
      if Fits(s, required) then Fit
      else
        var capacity := CapacityFor(required);
        if s.bytes > limit || capacity > Sub(limit, s.bytes) then Fail
        else if capacity > Sub(SIZE_MAX, SEGMENT_HEADER) then Fail
        else Grow(capacity)
  }

  /** Pushes a frame; the second result is null when it fails. `block` is the allocator's answer, if asked. */
  function Push(s: Stack, size: Word, requested: Word, limit: Word, block: Word): (Stack, Word) {
    var alignment := Effective(requested);
    match PlanFor(s, size, alignment, limit)
    case Fail => (s, 0)
    case Fit => Place(s, size, alignment)
    case Grow(capacity) => if block == 0 then (s, 0) else Place(Grown(s, block, capacity), size, alignment)
  }

  /** Pops a frame; no result is an abort. */
  function Pop(s: Stack, frame: Word): Option<Stack>
    requires frame != 0 ==> Sub(frame, FRAME_HEADER) in s.headers
  {
    if frame == 0 then Some(s)
    else
      var header := s.headers[Sub(frame, FRAME_HEADER)];
      if header.segment == 0 || s.segments == [] || header.segment != Top(s).address then None
      else
        var n := |s.segments| - 1;
        if header.previousUsed == 0 && n > 0 then
          Some(Stack(s.segments[..n], Sub(s.bytes, Top(s).capacity),
                     Overwrite(s.headers, Top(s).address, SEGMENT_HEADER + Top(s).capacity)))
        else Some(s.(segments := s.segments[n := Top(s).(used := header.previousUsed)]))
  }

  // ---------------------------------------------------------------------------
  // What holds of every reachable stack
  // ---------------------------------------------------------------------------

  /** A live frame: its payload, the size and alignment that were asked for, and what its header records. */
  datatype Frame = Frame(payload: Word, size: Word, alignment: Word, segment: Word, previousUsed: Word)

  ghost predicate Fenced(t: Segment) {
    && t.address > 0 && t.used <= t.capacity
    && t.address + SEGMENT_HEADER + t.capacity <= SIZE_MAX
  }

  predicate Apart(x: Segment, y: Segment) {
    || x.address + SEGMENT_HEADER + x.capacity <= y.address
    || y.address + SEGMENT_HEADER + y.capacity <= x.address
  }

  /** Segments lie in memory without wrapping and without overlapping. */
  ghost predicate Separate(segments: seq<Segment>) {
    && (forall i :: 0 <= i < |segments| ==> Fenced(segments[i]))
    && (forall i, j :: 0 <= i < j < |segments| ==> Apart(segments[i], segments[j]))
  }

  /** The payload is aligned as was asked, and at least as a machine word. */
  ghost predicate IsAligned(payload: Word, requested: Word) {
    payload % 8 == 0 && (requested > 8 ==> PowerOfTwo(requested) && payload % requested == 0)
  }

  /** The frame, header included, lies within what its segment has in use, and is aligned. */
  ghost predicate Inside(t: Segment, f: Frame) {
    && f.segment == t.address
    && t.address + SEGMENT_HEADER + f.previousUsed + FRAME_HEADER <= f.payload
    && f.payload + f.size <= t.address + SEGMENT_HEADER + t.used
    && IsAligned(f.payload, f.alignment)
  }

  /** What remains of the segments once the latest frame is gone. */
  function Rewound(segments: seq<Segment>, f: Frame): seq<Segment>
    requires segments != []
  {
    var n := |segments| - 1;
    if f.previousUsed == 0 && n > 0 then segments[..n] else segments[n := segments[n].(used := f.previousUsed)]
  }

  /** The live frames, oldest first, are stacked through the segments. */
  ghost predicate Stacked(segments: seq<Segment>, frames: seq<Frame>)
    decreases |frames|
  {
    if frames == [] then |segments| <= 1 && forall i :: 0 <= i < |segments| ==> segments[i].used == 0
    else
      var f := frames[|frames| - 1];
      && segments != [] && Inside(segments[|segments| - 1], f)
      && f.payload + f.size == segments[|segments| - 1].address + SEGMENT_HEADER + segments[|segments| - 1].used
      && Stacked(Rewound(segments, f), frames[..|frames| - 1])
  }

  function Capacity(segments: seq<Segment>): nat {
    if segments == [] then 0 else Capacity(segments[..|segments| - 1]) + segments[|segments| - 1].capacity
  }

  ghost predicate HeaderHolds(headers: map<Word, Header>, f: Frame) {
    && f.payload >= FRAME_HEADER && f.payload - FRAME_HEADER in headers
    && headers[f.payload - FRAME_HEADER] == Header(f.segment, f.previousUsed)
  }

  ghost predicate Inv(s: Stack, frames: seq<Frame>) {
    && Separate(s.segments) && Stacked(s.segments, frames) && s.bytes == Capacity(s.segments)
    && forall i :: 0 <= i < |frames| ==> HeaderHolds(s.headers, frames[i])
  }

  /** Asked for a segment, the allocator returns null or a block in bounds that overlaps nothing allocated. */
  ghost predicate Allocates(s: Stack, plan: Plan, block: Word) {
    plan.Grow? && block != 0 ==>
      && Fenced(Segment(block, plan.capacity, 0))
      && forall i :: 0 <= i < |s.segments| ==> Apart(s.segments[i], Segment(block, plan.capacity, 0))
  }
}
