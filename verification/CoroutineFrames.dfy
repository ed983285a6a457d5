/**
 Over every sequence of pushes and latest-frame pops the live frames are aligned, in bounds and
 disjoint, the byte counter is exact and limited, and a pop undoes the push it matches.
 */
module CoroutineFrames {
  import opened Words
  import opened Wrappers
  import opened CoroutineStack

  // ---------------------------------------------------------------------------
  // Arithmetic does not wrap
  // ---------------------------------------------------------------------------

  lemma PowerOf64()
    ensures Power(64) == MODULUS
  {
    assert Power(2) == 4;
    PowerSum(2, 2);
    PowerSum(4, 4);
    PowerSum(8, 8);
    PowerSum(16, 16);
    PowerSum(32, 32);
  }

  /** A power of two that fits a word is the power of an exponent below 64. */
  lemma WordPower(a: Word) returns (k: nat)
    requires PowerOfTwo(a)
    ensures k < 64 && Power(k) == a && a <= 0x8000_0000_0000_0000
  {
    k :| Power(k) == a;
    PowerOf64();
    if k >= 64 { PowerMonotone(64, k); }
    PowerMonotone(k, 63);
  }

  lemma OverheadExact(alignment: Word)
    requires PowerOfTwo(alignment)
    ensures Overhead(alignment) == FRAME_HEADER + alignment - 1
  {
    var _ := WordPower(alignment);
  }

  lemma AddExact(x: Word, y: Word)
    requires x + y <= SIZE_MAX
    ensures Add(x, y) == x + y
  {
  }

  lemma SubExact(x: Word, y: Word)
    requires y <= x
    ensures Sub(x, y) == x - y
  {
  }

  /** The sum may wrap to zero before the one is taken away. */
  lemma AddThenLess(x: Word, y: Word)
    requires 0 < y && x + y - 1 <= SIZE_MAX
    ensures Sub(Add(x, y), 1) == x + y - 1
  {
  }

  lemma RoundedDown(x: nat, a: nat)
    requires a > 0
    ensures x - a < x - x % a <= x && (x - x % a) % a == 0
  {
    QuotientUnique(x - x % a, a, x / a, 0);
  }

  /** Masking rounds the first possible payload address up to the alignment. */
  lemma PayloadRounds(t: Segment, alignment: Word)
    requires PowerOfTwo(alignment)
    requires t.address + SEGMENT_HEADER + t.used + FRAME_HEADER + alignment - 1 <= SIZE_MAX
    ensures var x := t.address + SEGMENT_HEADER + t.used + FRAME_HEADER + alignment - 1;
            Payload(t, alignment) == x - x % alignment
  {
    hide Payload, Power, PowerOfTwo, BitAnd;
    var k := WordPower(alignment);
    PayloadMasks(t, alignment);
    PowerOf64();
    MaskRoundsDown(t.address + SEGMENT_HEADER + t.used + FRAME_HEADER + alignment - 1, k, 64);
  }

  /** No sum in the payload's address wraps. */
  lemma PayloadMasks(t: Segment, alignment: Word)
    requires 0 < alignment && t.address + SEGMENT_HEADER + t.used + FRAME_HEADER + alignment - 1 <= SIZE_MAX
    ensures Payload(t, alignment)
         == BitAnd(t.address + SEGMENT_HEADER + t.used + FRAME_HEADER + alignment - 1, Complement(alignment - 1))
  {
    hide Add, Sub, BitAnd, Complement;
    AddExact(t.address, SEGMENT_HEADER);
    AddExact(t.address + SEGMENT_HEADER, t.used);
    AddExact(t.address + SEGMENT_HEADER + t.used, FRAME_HEADER);
    AddThenLess(t.address + SEGMENT_HEADER + t.used + FRAME_HEADER, alignment);
    SubExact(alignment, 1);
  }

  /** When the request fits, the payload is the first aligned address past the header, and ends in bounds. */
  lemma PayloadFits(t: Segment, alignment: Word, size: Word)
    requires Fenced(t) && PowerOfTwo(alignment) && WORD_BYTES <= alignment
    requires size + FRAME_HEADER + alignment - 1 <= t.capacity - t.used
    ensures var base, payload := t.address + SEGMENT_HEADER, Payload(t, alignment);
            && base + t.used + FRAME_HEADER <= payload < base + t.used + FRAME_HEADER + alignment
            && payload % alignment == 0
            && payload + size <= base + t.capacity
  {
    hide Payload, PowerOfTwo;
    PayloadRounds(t, alignment);
    RoundedDown(t.address + SEGMENT_HEADER + t.used + FRAME_HEADER + alignment - 1, alignment);
  }

  // ---------------------------------------------------------------------------
  // Where the live frames lie
  // ---------------------------------------------------------------------------

  lemma RewoundSeparate(segments: seq<Segment>, f: Frame)
    requires segments != [] && Separate(segments) && Inside(segments[|segments| - 1], f)
    ensures Separate(Rewound(segments, f))
  {
  }

  /** Every live frame lies inside one of the segments. */
  lemma {:induction false} Located(segments: seq<Segment>, frames: seq<Frame>, i: nat) returns (k: nat)
    requires Stacked(segments, frames) && i < |frames|
    ensures k < |segments| && Inside(segments[k], frames[i])
    decreases |frames|
  {
    k := |segments| - 1;
    if i < |frames| - 1 {
      k := Located(Rewound(segments, frames[|frames| - 1]), frames[..|frames| - 1], i);
    }
  }

  ghost predicate Disjoint(f: Frame, g: Frame) {
    f.payload + f.size <= g.payload - FRAME_HEADER || g.payload + g.size <= f.payload - FRAME_HEADER
  }

  /** No two live frames overlap, headers included. */
  lemma {:induction false} LiveFramesDisjoint(segments: seq<Segment>, frames: seq<Frame>, i: nat, j: nat)
    requires Separate(segments) && Stacked(segments, frames) && i < j < |frames|
    ensures Disjoint(frames[i], frames[j])
    decreases |frames|
  {
    var n, f := |frames| - 1, frames[|frames| - 1];
    var below := Rewound(segments, f);
    RewoundSeparate(segments, f);
    if j < n {
      LiveFramesDisjoint(below, frames[..n], i, j);
    } else {
      var k := Located(below, frames[..n], i);
      if k < |segments| - 1 { assert Apart(segments[k], segments[|segments| - 1]); }
    }
  }

  /** Only the bottom segment can be empty. */
  lemma {:induction false} SegmentsHoldFrames(segments: seq<Segment>, frames: seq<Frame>, k: nat) returns (i: nat)
    requires Stacked(segments, frames) && 0 < k < |segments|
    ensures i < |frames| && Inside(segments[k], frames[i])
    decreases |frames|
  {
    i := |frames| - 1;
    if k < |segments| - 1 {
      i := SegmentsHoldFrames(Rewound(segments, frames[i]), frames[..i], k);
    }
  }

  // ---------------------------------------------------------------------------
  // Pushing
  // ---------------------------------------------------------------------------

  lemma {:induction false} CapacityUpdate(segments: seq<Segment>, t: Segment)
    requires segments != [] && t.capacity == segments[|segments| - 1].capacity
    ensures Capacity(segments[|segments| - 1 := t]) == Capacity(segments)
  {
  }

  /** The segments that stay once the next frame placed in the top segment is gone again. */
  function Beneath(s: Stack): seq<Segment>
    requires s.segments != []
  {
    if Top(s).used == 0 && |s.segments| > 1 then s.segments[..|s.segments| - 1] else s.segments
  }

  ghost predicate Poised(s: Stack, frames: seq<Frame>) {
    && s.segments != [] && Separate(s.segments) && s.bytes == Capacity(s.segments) && Stacked(Beneath(s), frames)
    && forall i :: 0 <= i < |frames| ==> HeaderHolds(s.headers, frames[i])
  }

  function NewFrame(s: Stack, size: Word, alignment: Word, requested: Word): Frame
    requires s.segments != []
  {
    Frame(Payload(Top(s), alignment), size, requested, Top(s).address, Top(s).used)
  }

  /** An alignment at which frames can be laid out, as strict as the one asked for. */
  ghost predicate Serves(alignment: Word, requested: Word) {
    PowerOfTwo(alignment) && 8 <= alignment && (requested > 8 ==> alignment == requested)
  }

  lemma EightDividesProduct(q: nat, alignment: Word, x: Word)
    requires x == q * alignment && exists m: nat :: alignment == m * 8
    ensures x % 8 == 0
  {
    var m: nat :| alignment == m * 8;
    MultipleOfEight(q, m);
  }

  lemma EightDivides(alignment: Word, x: Word)
    requires PowerOfTwo(alignment) && 8 <= alignment && x % alignment == 0
    ensures x % 8 == 0
  {
    EightTimes(alignment);
    hide PowerOfTwo;
    EightDividesProduct(x / alignment, alignment, x);
  }

  lemma EightTimes(alignment: Word)
    requires PowerOfTwo(alignment) && 8 <= alignment
    ensures exists m: nat :: alignment == m * 8
  {
    var k := WordPower(alignment);
    if k < 3 { PowerMonotone(k, 2); }
    assert Power(3) == 8;
    PowerSum(k - 3, 3);
    hide Power;
    assert alignment == Power(k - 3) * 8;
  }

  lemma MultipleOfEight(q: nat, m: nat)
    ensures (q * (m * 8)) % 8 == 0
  {
    assert q * (m * 8) == q * m * 8;
  }

  /** What is aligned for a request is a multiple of it, whenever a multiple can be had. */
  lemma AlignedAsAsked(payload: Word, requested: Word)
    requires IsAligned(payload, requested) && PowerOfTwo(requested)
    ensures payload % requested == 0
  {
    if requested <= 8 {
      var k := WordPower(requested);
      assert Power(2) == 4 && Power(3) == 8;
      if k > 3 { PowerMonotone(4, k); }
      assert requested in {1, 2, 4, 8};
    }
  }

  lemma ServedIsAligned(alignment: Word, requested: Word, payload: Word)
    requires Serves(alignment, requested) && payload % alignment == 0
    ensures IsAligned(payload, requested)
  {
    EightDivides(alignment, payload);
  }

  /** Placing a frame does what it should, exactly. */
  lemma PlaceExact(s: Stack, size: Word, alignment: Word, requested: Word)
    requires s.segments != [] && Fenced(Top(s)) && Serves(alignment, requested)
    requires size + FRAME_HEADER + alignment - 1 <= Top(s).capacity - Top(s).used
    ensures var s', f, t := Place(s, size, alignment).0, NewFrame(s, size, alignment, requested), Top(s);
            && f.payload >= FRAME_HEADER && |s'.segments| == |s.segments|
            && s'.segments == s.segments[|s.segments| - 1 := Top(s')] && Top(s') == t.(used := Top(s').used)
            && f.payload + size == t.address + SEGMENT_HEADER + Top(s').used
            && s'.bytes == s.bytes && Place(s, size, alignment).1 == f.payload
            && s'.headers == Overwrite(s.headers, f.payload - FRAME_HEADER, size + FRAME_HEADER)
                             [f.payload - FRAME_HEADER := Header(f.segment, f.previousUsed)]
  {
    hide Payload, Add, Sub, PowerOfTwo;
    var t, payload := Top(s), Payload(Top(s), alignment);
    PayloadFits(t, alignment, size);
    AddExact(t.address, SEGMENT_HEADER);
    SubExact(payload, t.address + SEGMENT_HEADER);
    SubExact(payload, FRAME_HEADER);
    AddExact(payload - (t.address + SEGMENT_HEADER), size);
  }

  lemma TopReplaced(segments: seq<Segment>, t: Segment)
    requires segments != [] && Separate(segments) && Fenced(t)
    requires t.address == segments[|segments| - 1].address && t.capacity == segments[|segments| - 1].capacity
    ensures Separate(segments[|segments| - 1 := t])
  {
  }

  lemma PlaceStacks(s: Stack, frames: seq<Frame>, size: Word, alignment: Word, requested: Word)
    requires Poised(s, frames) && Serves(alignment, requested)
    requires size + FRAME_HEADER + alignment - 1 <= Top(s).capacity - Top(s).used
    ensures var s', f := Place(s, size, alignment).0, NewFrame(s, size, alignment, requested);
            && Separate(s'.segments) && Stacked(s'.segments, frames + [f]) && s'.bytes == Capacity(s'.segments)
            && Rewound(s'.segments, f) == Beneath(s)
  {
    hide Payload, Place, PowerOfTwo, Separate;
    var t, n := Top(s), |s.segments| - 1;
    assert Fenced(t) by { SegmentFenced(s.segments, n); }
    PayloadFits(t, alignment, size);
    PlaceExact(s, size, alignment, requested);
    ServedIsAligned(alignment, requested, Payload(t, alignment));
    var s', f := Place(s, size, alignment).0, NewFrame(s, size, alignment, requested);
    var top := s'.segments[n];
    CapacityUpdate(s.segments, top);
    TopReplaced(s.segments, top);
    assert (frames + [f])[..|frames|] == frames;
    assert s'.segments[n := t] == s.segments && s'.segments[..n] == s.segments[..n] && top.(used := t.used) == t;
    assert Rewound(s'.segments, f) == Beneath(s);
  }

  lemma SegmentFenced(segments: seq<Segment>, i: nat)
    requires Separate(segments) && i < |segments|
    ensures Fenced(segments[i])
  {
  }

  lemma HeadersSurvive(s: Stack, s': Stack, frames: seq<Frame>, f: Frame)
    requires forall i :: 0 <= i < |frames| ==> HeaderHolds(s.headers, frames[i])
    requires Separate(s'.segments) && Stacked(s'.segments, frames + [f]) && f.payload >= FRAME_HEADER
    requires s'.headers == Overwrite(s.headers, f.payload - FRAME_HEADER, f.size + FRAME_HEADER)
                           [f.payload - FRAME_HEADER := Header(f.segment, f.previousUsed)]
    ensures forall i :: 0 <= i < |frames + [f]| ==> HeaderHolds(s'.headers, (frames + [f])[i])
  {
    forall i | 0 <= i < |frames + [f]| ensures HeaderHolds(s'.headers, (frames + [f])[i]) {
      if i < |frames| {
        LiveFramesDisjoint(s'.segments, frames + [f], i, |frames|);
        assert HeaderHolds(s.headers, frames[i]);
      }
    }
  }

  lemma PlaceKeeps(s: Stack, frames: seq<Frame>, size: Word, alignment: Word, requested: Word)
    requires Poised(s, frames) && Serves(alignment, requested)
    requires size + FRAME_HEADER + alignment - 1 <= Top(s).capacity - Top(s).used
    ensures Inv(Place(s, size, alignment).0, frames + [NewFrame(s, size, alignment, requested)])
    ensures Place(s, size, alignment).1 == NewFrame(s, size, alignment, requested).payload > 0
    ensures Place(s, size, alignment).0.segments != []
    ensures Rewound(Place(s, size, alignment).0.segments, NewFrame(s, size, alignment, requested)) == Beneath(s)
  {
    hide Payload, Place;
    PayloadFits(Top(s), alignment, size);
    PlaceExact(s, size, alignment, requested);
    PlaceStacks(s, frames, size, alignment, requested);
    HeadersSurvive(s, Place(s, size, alignment).0, frames, NewFrame(s, size, alignment, requested));
  }

  lemma TopInUse(s: Stack, frames: seq<Frame>)
    requires Inv(s, frames) && s.segments != []
    ensures Poised(s, frames) && Beneath(s) == s.segments
  {
  }

  lemma NothingStacked(frames: seq<Frame>, t: Segment)
    requires Stacked([], frames) && t.used == 0
    ensures frames == [] && Stacked([t], frames)
  {
  }

  lemma CapacitySnoc(segments: seq<Segment>, t: Segment)
    ensures Capacity(segments + [t]) == Capacity(segments) + t.capacity
  {
    assert (segments + [t])[..|segments|] == segments;
  }

  lemma {:induction false} GrownPoised(s: Stack, frames: seq<Frame>, block: Word, capacity: Word)
    requires Inv(s, frames) && block != 0 && Allocates(s, Grow(capacity), block) && s.bytes + capacity <= SIZE_MAX
    ensures Poised(Grown(s, block, capacity), frames)
    ensures Beneath(Grown(s, block, capacity)) == if s.segments == [] then [Segment(block, capacity, 0)] else s.segments
  {
    hide HeaderHolds, Stacked, Separate, Capacity, Fenced, Apart, Add;
    var t := Segment(block, capacity, 0);
    AddExact(s.bytes, capacity);
    CapacitySnoc(s.segments, t);
    SeparateSnoc(s.segments, t);
    if s.segments == [] { NothingStacked(frames, t); }
    assert (s.segments + [t])[..|s.segments|] == s.segments;
    assert s.segments == [] ==> s.segments + [t] == [t];
  }

  lemma SeparateSnoc(segments: seq<Segment>, t: Segment)
    requires Separate(segments) && Fenced(t) && forall i :: 0 <= i < |segments| ==> Apart(segments[i], t)
    ensures Separate(segments + [t])
  {
  }

  /** The exact condition under which a push succeeds. */
  ghost predicate CanPush(s: Stack, size: Word, requested: Word, limit: Word, block: Word) {
    var required := Required(size, requested);
    && (requested > 8 ==> PowerOfTwo(requested)) && required < 0x1_0000_0000_0000_0000
    && ((s.segments != [] && s.segments[|s.segments| - 1].used + required <= s.segments[|s.segments| - 1].capacity)
        || (s.bytes + SegmentFor(required) <= limit && SegmentFor(required) + 24 < 0x1_0000_0000_0000_0000 && block != 0))
  }

  /** The bytes that a frame may need with its header: its size, and room to align it to the larger of the request and 8. */
  ghost function Required(size: Word, requested: Word): nat {
    size + 16 + (if requested > 8 then requested else 8) - 1
  }

  /** The bytes of a new segment. */
  ghost function SegmentFor(required: nat): nat {
    if required > 65536 then required else 65536
  }

  /** The size test is exact: no sum wraps on the way to a plan. */
  lemma PlanIsExact(s: Stack, size: Word, requested: Word, limit: Word, block: Word)
    requires s.segments != [] ==> Fenced(Top(s))
    ensures var plan, required := PlanFor(s, size, Effective(requested), limit), Required(size, requested);
            && (CanPush(s, size, requested, limit, block) <==> plan.Fit? || (plan.Grow? && block != 0))
            && (!plan.Fail? ==> Serves(Effective(requested), requested) && required < 0x1_0000_0000_0000_0000)
            && required == size + FRAME_HEADER + Effective(requested) - 1
            && (plan.Fit? ==> Top(s).used + required <= Top(s).capacity)
            && (plan.Grow? ==> plan.capacity == SegmentFor(required) && s.bytes + plan.capacity <= limit)
  {
    hide BitAnd, PowerOfTwo;
    var alignment := Effective(requested);
    if requested <= 8 { PowerIsPowerOfTwo(3); assert Power(2) == 4 && Power(3) == 8; }
    SubExact(alignment, 1);
    PowerOfTwoTest(alignment);
    if PowerOfTwo(alignment) {
      OverheadExact(alignment);
      SubExact(SIZE_MAX, Overhead(alignment));
      if size + Overhead(alignment) <= SIZE_MAX {
        AddExact(size, Overhead(alignment));
        if s.bytes <= limit { SubExact(limit, s.bytes); }
      }
    }
  }

  /** The frame a push returns, as its header records it. */
  function Pushed(s': Stack, payload: Word, size: Word, requested: Word): Frame
    requires Sub(payload, FRAME_HEADER) in s'.headers
  {
    var header := s'.headers[Sub(payload, FRAME_HEADER)];
    Frame(payload, size, requested, header.segment, header.previousUsed)
  }

  /** The frame is at the payload, of the size and alignment that were asked for. */
  ghost predicate Holds(f: Frame, payload: Word, size: Word, requested: Word) {
    f.payload == payload && f.size == size && f.alignment == requested
  }

  /** A push succeeds exactly when it can; then the new frame joins the live ones, and otherwise nothing changes. */
  lemma PushKeeps(s: Stack, frames: seq<Frame>, size: Word, requested: Word, limit: Word, block: Word)
    requires Inv(s, frames) && Allocates(s, PlanFor(s, size, Effective(requested), limit), block)
    ensures var r := Push(s, size, requested, limit, block);
            && (r.1 != 0 <==> CanPush(s, size, requested, limit, block))
            && (r.1 == 0 ==> r.0 == s)
            && (r.1 != 0 ==>
                  && IsAligned(r.1, requested)
                  && Sub(r.1, FRAME_HEADER) in r.0.headers
                  && Holds(Pushed(r.0, r.1, size, requested), r.1, size, requested)
                  && Inv(r.0, frames + [Pushed(r.0, r.1, size, requested)])
                  && (s.bytes <= limit ==> r.0.bytes <= limit)
                  && r.0.segments != []
                  && (s.segments != [] ==> Rewound(r.0.segments, Pushed(r.0, r.1, size, requested)) == s.segments)
                  && (s.segments == [] ==> |Rewound(r.0.segments, Pushed(r.0, r.1, size, requested))| == 1))
  {
    hide Place, PowerOfTwo, Payload, CanPush, PlanFor;
    var alignment := Effective(requested);
    var plan := PlanFor(s, size, alignment, limit);
    PlanIsExact(s, size, requested, limit, block);
    if plan.Fit? {
      TopInUse(s, frames);
      PushedFrame(s, frames, size, requested);
    } else if plan.Grow? && block != 0 {
      GrownPoised(s, frames, block, plan.capacity);
      PushedFrame(Grown(s, block, plan.capacity), frames, size, requested);
    }
  }

  lemma PushedFrame(s: Stack, frames: seq<Frame>, size: Word, requested: Word)
    requires Poised(s, frames) && Serves(Effective(requested), requested)
    requires size + FRAME_HEADER + Effective(requested) - 1 <= Top(s).capacity - Top(s).used
    ensures var r := Place(s, size, Effective(requested));
            && r.1 != 0 && Sub(r.1, FRAME_HEADER) in r.0.headers && r.0.bytes == s.bytes
            && Pushed(r.0, r.1, size, requested) == NewFrame(s, size, Effective(requested), requested)
            && IsAligned(r.1, requested)
            && Inv(r.0, frames + [Pushed(r.0, r.1, size, requested)])
            && r.0.segments != [] && Rewound(r.0.segments, Pushed(r.0, r.1, size, requested)) == Beneath(s)
  {
    hide Place, Payload, PowerOfTwo, Inv, Stacked;
    SegmentFenced(s.segments, |s.segments| - 1);
    PayloadFits(Top(s), Effective(requested), size);
    PlaceExact(s, size, Effective(requested), requested);
    PlaceKeeps(s, frames, size, Effective(requested), requested);
    ServedIsAligned(Effective(requested), requested, Payload(Top(s), Effective(requested)));
    SubExact(NewFrame(s, size, Effective(requested), requested).payload, FRAME_HEADER);
  }

  // ---------------------------------------------------------------------------
  // Popping
  // ---------------------------------------------------------------------------

  lemma HeadersOutlive(s: Stack, frames: seq<Frame>)
    requires Inv(s, frames) && frames != [] && |s.segments| > 1 && frames[|frames| - 1].previousUsed == 0
    ensures forall i :: 0 <= i < |frames| - 1 ==>
      HeaderHolds(Overwrite(s.headers, Top(s).address, SEGMENT_HEADER + Top(s).capacity), frames[i])
  {
    var m, n := |frames| - 1, |s.segments| - 1;
    forall i | 0 <= i < m
      ensures HeaderHolds(Overwrite(s.headers, Top(s).address, SEGMENT_HEADER + Top(s).capacity), frames[i])
    {
      var k := Located(Rewound(s.segments, frames[m]), frames[..m], i);
      assert Apart(s.segments[k], s.segments[n]) && HeaderHolds(s.headers, frames[i]);
    }
  }

  /** Popping the latest frame never aborts and leaves exactly the frames below it. */
  lemma PopLatestKeeps(s: Stack, frames: seq<Frame>)
    requires Inv(s, frames) && frames != []
    ensures var f := frames[|frames| - 1];
            && f.payload != 0 && Sub(f.payload, FRAME_HEADER) in s.headers && Pop(s, f.payload).Some?
            && Pop(s, f.payload).value.segments == Rewound(s.segments, f)
            && Pop(s, f.payload).value.bytes <= s.bytes
            && Inv(Pop(s, f.payload).value, frames[..|frames| - 1])
  {
    var m, n := |frames| - 1, |s.segments| - 1;
    var f := frames[m];
    assert HeaderHolds(s.headers, f);
    SubExact(f.payload, FRAME_HEADER);
    RewoundSeparate(s.segments, f);
    if f.previousUsed == 0 && n > 0 {
      HeadersOutlive(s, frames);
      SubExact(s.bytes, Top(s).capacity);
    } else {
      CapacityUpdate(s.segments, Top(s).(used := f.previousUsed));
    }
  }

  /** Popping what was just pushed restores the stack, except that a first segment stays allocated. */
  lemma PopUndoesPush(s: Stack, frames: seq<Frame>, size: Word, requested: Word, limit: Word, block: Word)
    requires Inv(s, frames) && Allocates(s, PlanFor(s, size, Effective(requested), limit), block)
    requires CanPush(s, size, requested, limit, block)
    ensures var r := Push(s, size, requested, limit, block);
            && r.1 != 0 && Sub(r.1, FRAME_HEADER) in r.0.headers && Pop(r.0, r.1).Some?
            && var s'' := Pop(r.0, r.1).value;
            && Inv(s'', frames)
            && (s.segments != [] ==> s''.segments == s.segments && s''.bytes == s.bytes)
            && (s.segments == [] ==> |s''.segments| == 1 && s''.bytes == s''.segments[0].capacity)
  {
    hide Push, Pop, CanPush, PlanFor, Stacked, Rewound;
    var r := Push(s, size, requested, limit, block);
    PushKeeps(s, frames, size, requested, limit, block);
    PopLatestKeeps(r.0, frames + [Pushed(r.0, r.1, size, requested)]);
    assert (frames + [Pushed(r.0, r.1, size, requested)])[..|frames|] == frames;
    assert forall one: seq<Segment> :: |one| == 1 ==> Capacity(one) == one[0].capacity;
  }

  // ---------------------------------------------------------------------------
  // Headers stay in allocated memory
  // ---------------------------------------------------------------------------

  /** The header lies behind the segment's own header and within its capacity. */
  ghost predicate LiesIn(h: Word, t: Segment) {
    t.address + 24 <= h && h + 16 <= t.address + 24 + t.capacity
  }

  ghost predicate LiesInOne(h: Word, segments: seq<Segment>) {
    exists k :: 0 <= k < |segments| && LiesIn(h, segments[k])
  }

  /** No header is readable outside the allocated segments. */
  ghost predicate HeadersLie(s: Stack) {
    forall h :: h in s.headers ==> LiesInOne(h, s.segments)
  }

  lemma SameExtents(h: Word, before: seq<Segment>, after: seq<Segment>)
    requires |before| <= |after| && LiesInOne(h, before)
    requires forall k :: 0 <= k < |before| ==> after[k].address == before[k].address && after[k].capacity == before[k].capacity
    ensures LiesInOne(h, after)
  {
    var k :| 0 <= k < |before| && LiesIn(h, before[k]);
    assert LiesIn(h, after[k]);
  }

  lemma PlaceHeadersLie(s: Stack, size: Word, alignment: Word, requested: Word)
    requires s.segments != [] && Fenced(Top(s)) && Serves(alignment, requested) && HeadersLie(s)
    requires size + FRAME_HEADER + alignment - 1 <= Top(s).capacity - Top(s).used
    ensures HeadersLie(Place(s, size, alignment).0)
  {
    var s' := Place(s, size, alignment).0;
    PlaceExact(s, size, alignment, requested);
    PayloadFits(Top(s), alignment, size);
    hide Place, Payload, Serves, Fenced;
    var n := |s.segments| - 1;
    var own := NewFrame(s, size, alignment, requested).payload - FRAME_HEADER;
    assert s'.segments[n] == Top(s');
    forall h | h in s'.headers ensures LiesInOne(h, s'.segments) {
      if h == own { assert LiesIn(h, s'.segments[n]); }
      else { SameExtents(h, s.segments, s'.segments); }
    }
  }

  lemma PushHeadersLie(s: Stack, frames: seq<Frame>, size: Word, requested: Word, limit: Word, block: Word)
    requires Inv(s, frames) && Allocates(s, PlanFor(s, size, Effective(requested), limit), block) && HeadersLie(s)
    ensures HeadersLie(Push(s, size, requested, limit, block).0)
  {
    var plan := PlanFor(s, size, Effective(requested), limit);
    PlanIsExact(s, size, requested, limit, block);
    hide Place, PlanFor, CanPush, HeadersLie;
    if plan.Fit? {
      PlaceHeadersLie(s, size, Effective(requested), requested);
    } else if plan.Grow? && block != 0 {
      GrownHeadersLie(s, block, plan.capacity);
      PlaceHeadersLie(Grown(s, block, plan.capacity), size, Effective(requested), requested);
    }
  }

  lemma GrownHeadersLie(s: Stack, block: Word, capacity: Word)
    requires HeadersLie(s)
    ensures HeadersLie(Grown(s, block, capacity))
  {
    var s' := Grown(s, block, capacity);
    forall h | h in s'.headers ensures LiesInOne(h, s'.segments) { SameExtents(h, s.segments, s'.segments); }
  }

  lemma PopHeadersLie(s: Stack, frames: seq<Frame>)
    requires Inv(s, frames) && frames != [] && HeadersLie(s)
    ensures Sub(frames[|frames| - 1].payload, FRAME_HEADER) in s.headers && Pop(s, frames[|frames| - 1].payload).Some?
    ensures HeadersLie(Pop(s, frames[|frames| - 1].payload).value)
  {
    var f, n := frames[|frames| - 1], |s.segments| - 1;
    PopLatestKeeps(s, frames);
    var s' := Pop(s, f.payload).value;
    assert HeaderHolds(s.headers, f);
    SubExact(f.payload, FRAME_HEADER);
    forall h | h in s'.headers ensures LiesInOne(h, s'.segments) {
      if f.previousUsed == 0 && n > 0 {
        var k :| 0 <= k < |s.segments| && LiesIn(h, s.segments[k]);
        assert k != n;
        assert s'.segments[k] == s.segments[k];
      } else {
        SameExtents(h, s.segments, s'.segments);
      }
    }
  }

  // ---------------------------------------------------------------------------
  // Every run
  // ---------------------------------------------------------------------------

  datatype Operation = PushFrame(size: Word, alignment: Word, block: Word) | PopLatest

  datatype Live = Live(stack: Stack, frames: seq<Frame>)

  /** One operation; no result is an abort. */
  function Step(l: Live, op: Operation, limit: Word): Option<Live> {
    match op
    case PushFrame(size, alignment, block) =>
      var r := Push(l.stack, size, alignment, limit, block);
      if r.1 == 0 then Some(Live(r.0, l.frames))
      else if Sub(r.1, FRAME_HEADER) !in r.0.headers then None
      else Some(Live(r.0, l.frames + [Pushed(r.0, r.1, size, alignment)]))
    case PopLatest =>
      if l.frames == [] then Some(l)
      else
        var m := |l.frames| - 1;
        if Sub(l.frames[m].payload, FRAME_HEADER) !in l.stack.headers then None
        else
          var popped := Pop(l.stack, l.frames[m].payload);
          if popped.None? then None else Some(Live(popped.value, l.frames[..m]))
  }

  function Run(l: Live, ops: seq<Operation>, limit: Word): Option<Live>
    decreases |ops|
  {
    if ops == [] then Some(l)
    else
      var next := Step(l, ops[0], limit);
      if next.None? then None else Run(next.value, ops[1..], limit)
  }

  /** A run is its operations one after another, up to an abort. */
  lemma {:induction false} RunMeans(l: Live, ops: seq<Operation>, op: Operation, limit: Word)
    ensures Run(l, [], limit) == Some(l)
    ensures var before := Run(l, ops, limit);
            Run(l, ops + [op], limit) == if before.None? then None else Step(before.value, op, limit)
    decreases |ops|
  {
    hide Step;
    assert (ops + [op])[0] == if ops == [] then op else ops[0];
    if ops == [] {
      assert ([] + [op])[1..] == [];
    } else {
      assert (ops + [op])[1..] == ops[1..] + [op];
      var next := Step(l, ops[0], limit);
      if next.Some? { RunMeans(next.value, ops[1..], op, limit); }
    }
  }

  /** Throughout the run the allocator hands out only memory that is free. */
  ghost predicate Honest(l: Live, ops: seq<Operation>, limit: Word)
    decreases |ops|
  {
    ops != [] ==>
      && (ops[0].PushFrame? ==>
            Allocates(l.stack, PlanFor(l.stack, ops[0].size, Effective(ops[0].alignment), limit), ops[0].block))
      && (Step(l, ops[0], limit).Some? ==> Honest(Step(l, ops[0], limit).value, ops[1..], limit))
  }

  ghost predicate LiesInSome(segments: seq<Segment>, f: Frame) {
    exists k :: 0 <= k < |segments| && Inside(segments[k], f)
  }

  ghost predicate HoldsSome(t: Segment, frames: seq<Frame>) {
    exists i :: 0 <= i < |frames| && Inside(t, frames[i])
  }

  /** What a reader wants of the live frames. */
  ghost predicate Safe(l: Live, limit: Word) {
    var s := l.stack;
    && (forall i :: 0 <= i < |l.frames| ==> LiesInSome(s.segments, l.frames[i]))
    && (forall i, j :: 0 <= i < j < |l.frames| ==> Disjoint(l.frames[i], l.frames[j]))
    && Separate(s.segments)
    && (forall k :: 0 < k < |s.segments| ==> HoldsSome(s.segments[k], l.frames))
    && s.bytes == Capacity(s.segments) <= limit
    && HeadersLie(s)
  }

  lemma EveryFrameLies(segments: seq<Segment>, frames: seq<Frame>)
    requires Stacked(segments, frames)
    ensures forall i :: 0 <= i < |frames| ==> LiesInSome(segments, frames[i])
  {
    hide Inside, Stacked;
    forall i | 0 <= i < |frames| ensures LiesInSome(segments, frames[i]) {
      var k := Located(segments, frames, i);
    }
  }

  lemma EverySegmentHolds(segments: seq<Segment>, frames: seq<Frame>)
    requires Stacked(segments, frames)
    ensures forall k :: 0 < k < |segments| ==> HoldsSome(segments[k], frames)
  {
    hide Inside, Stacked;
    forall k | 0 < k < |segments| ensures HoldsSome(segments[k], frames) {
      var i := SegmentsHoldFrames(segments, frames, k);
    }
  }

  lemma EveryPairDisjoint(segments: seq<Segment>, frames: seq<Frame>)
    requires Separate(segments) && Stacked(segments, frames)
    ensures forall i, j :: 0 <= i < j < |frames| ==> Disjoint(frames[i], frames[j])
  {
    hide Disjoint, Stacked, Separate;
    forall i, j | 0 <= i < j < |frames| ensures Disjoint(frames[i], frames[j]) {
      LiveFramesDisjoint(segments, frames, i, j);
    }
  }

  lemma InvIsSafe(l: Live, limit: Word)
    requires Inv(l.stack, l.frames) && l.stack.bytes <= limit && HeadersLie(l.stack)
    ensures Safe(l, limit)
  {
    hide Inside, Disjoint, Stacked, Separate;
    EveryFrameLies(l.stack.segments, l.frames);
    EverySegmentHolds(l.stack.segments, l.frames);
    EveryPairDisjoint(l.stack.segments, l.frames);
  }

  /** What one operation does to the live frames: a push adds the frame asked for exactly when it can be had, a pop takes the latest. */
  ghost predicate Follows(l: Live, op: Operation, limit: Word, l': Live) {
    match op
    case PushFrame(size, requested, block) =>
      if CanPush(l.stack, size, requested, limit, block) then
        && |l'.frames| == |l.frames| + 1 && l'.frames[..|l.frames|] == l.frames
        && l'.frames[|l.frames|].size == size && l'.frames[|l.frames|].alignment == requested
      else l' == l
    case PopLatest => if l.frames == [] then l' == l else l'.frames == l.frames[..|l.frames| - 1]
  }

  lemma StepKeeps(l: Live, op: Operation, limit: Word)
    requires Inv(l.stack, l.frames) && l.stack.bytes <= limit && HeadersLie(l.stack)
    requires op.PushFrame? ==> Allocates(l.stack, PlanFor(l.stack, op.size, Effective(op.alignment), limit), op.block)
    ensures Step(l, op, limit).Some?
    ensures var l' := Step(l, op, limit).value; Inv(l'.stack, l'.frames) && l'.stack.bytes <= limit && HeadersLie(l'.stack) && Follows(l, op, limit, l')
  {
    hide Inv, Push, Pop, PlanFor, CanPush, HeadersLie;
    if op.PushFrame? {
      PushHeadersLie(l.stack, l.frames, op.size, op.alignment, limit, op.block);
      PushKeeps(l.stack, l.frames, op.size, op.alignment, limit, op.block);
    } else if l.frames != [] {
      PopHeadersLie(l.stack, l.frames);
      PopLatestKeeps(l.stack, l.frames);
    }
  }

  lemma {:induction false} RunKeeps(l: Live, ops: seq<Operation>, limit: Word)
    requires Inv(l.stack, l.frames) && l.stack.bytes <= limit && HeadersLie(l.stack) && Honest(l, ops, limit)
    ensures Run(l, ops, limit).Some?
    ensures var l' := Run(l, ops, limit).value; Inv(l'.stack, l'.frames) && l'.stack.bytes <= limit && HeadersLie(l'.stack)
    decreases |ops|
  {
    hide Inv, Step, HeadersLie;
    if ops != [] {
      StepKeeps(l, ops[0], limit);
      RunKeeps(Step(l, ops[0], limit).value, ops[1..], limit);
    }
  }

  /** From an empty stack no run aborts, and every stack it reaches is safe; once drained, one segment at most is kept. */
  lemma EveryRunIsSafe(ops: seq<Operation>, limit: Word)
    requires Honest(Live(EMPTY, []), ops, limit)
    ensures Run(Live(EMPTY, []), ops, limit).Some?
    ensures var l := Run(Live(EMPTY, []), ops, limit).value;
            Safe(l, limit) && (l.frames == [] ==> |l.stack.segments| <= 1)
  {
    assert Inv(EMPTY, []);
    RunKeeps(Live(EMPTY, []), ops, limit);
    InvIsSafe(Run(Live(EMPTY, []), ops, limit).value, limit);
  }
}
