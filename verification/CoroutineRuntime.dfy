/** The coroutine runtime's thread-local state, updated in place by its two entry points. */
module CoroutineRuntime {
  import opened Words
  import opened Wrappers
  import opened CoroutineStack
  import opened CoroutineFrames

  class Runtime {
    var segments: seq<Segment>
    var bytes: Word
    var headers: map<Word, Header>

    ghost function Contents(): Stack
      reads this
    {
      Stack(segments, bytes, headers)
    }

    constructor ()
      ensures Contents() == EMPTY && Inv(Contents(), [])
    {
      segments, bytes, headers := [], 0, map[];
    }

    /**
     Reserves a frame or returns null. On success the frame joins the live ones; on failure nothing
     changes; and it fails only when the frame cannot be had.
     */
    method PushFrame(size: Word, requested: Word, limit: Word, block: Word, ghost frames: seq<Frame>) returns (payload: Word)
      requires Inv(Contents(), frames)
      requires Allocates(Contents(), PlanFor(Contents(), size, Effective(requested), limit), block)
      modifies this
      ensures Contents() == Push(old(Contents()), size, requested, limit, block).0
      ensures payload != 0 <==> CanPush(old(Contents()), size, requested, limit, block)
      ensures payload == 0 ==> Contents() == old(Contents())
      ensures payload != 0 ==> IsAligned(payload, requested)
      ensures payload != 0 ==> Sub(payload, FRAME_HEADER) in headers
      ensures payload != 0 ==> Inv(Contents(), frames + [Pushed(Contents(), payload, size, requested)])
    {
      hide Inv, CanPush, Allocates, BitAnd, Place, Pushed;
      PushKeeps(Contents(), frames, size, requested, limit, block);
      var alignment := requested;
      if alignment < WORD_BYTES { alignment := WORD_BYTES; }
      if BitAnd(alignment, Sub(alignment, 1)) != 0 { return 0; }
      var overhead := Sub(Add(FRAME_HEADER, alignment), 1);
      if size > Sub(SIZE_MAX, overhead) { return 0; }
      var required := Add(size, overhead);
      if segments == [] || required > Sub(segments[|segments| - 1].capacity, segments[|segments| - 1].used) {
        var capacity := if required > MINIMUM_CAPACITY then required else MINIMUM_CAPACITY;
        if bytes > limit || capacity > Sub(limit, bytes) { return 0; }
        if capacity > Sub(SIZE_MAX, SEGMENT_HEADER) { return 0; }
        if block == 0 { return 0; }
        segments := segments + [Segment(block, capacity, 0)];
        bytes := Add(bytes, capacity);
      }
      payload := Reserve(size, alignment);
    }

    /** Writes the header of a frame that fits the top segment. */
    method Reserve(size: Word, alignment: Word) returns (payload: Word)
      requires segments != []
      modifies this
      ensures (Contents(), payload) == Place(old(Contents()), size, alignment)
    {
      var t := segments[|segments| - 1];
      var start := Add(Add(t.address, SEGMENT_HEADER), t.used);
      payload := BitAnd(Sub(Add(Add(start, FRAME_HEADER), alignment), 1), Complement(Sub(alignment, 1)));
      var header := Sub(payload, FRAME_HEADER);
      headers := Overwrite(headers, header, payload + size - header)[header := Header(t.address, t.used)];
      segments := segments[|segments| - 1 := t.(used := Add(Sub(payload, Add(t.address, SEGMENT_HEADER)), size))];
    }

    /** Releases a frame; the latest one never aborts, and releasing it leaves the frames below. */
    method PopFrame(frame: Word, ghost frames: seq<Frame>) returns (aborted: bool)
      requires Inv(Contents(), frames)
      requires frame != 0 ==> Sub(frame, FRAME_HEADER) in headers
      modifies this
      ensures aborted <==> Pop(old(Contents()), frame).None?
      ensures !aborted ==> Pop(old(Contents()), frame) == Some(Contents())
      ensures frames != [] && frame == frames[|frames| - 1].payload ==> !aborted && Inv(Contents(), frames[..|frames| - 1])
    {
      hide Inv;
      if frames != [] { PopLatestKeeps(Contents(), frames); }
      if frame == 0 { return false; }
      var header := headers[Sub(frame, FRAME_HEADER)];
      if header.segment == 0 || segments == [] || header.segment != segments[|segments| - 1].address { return true; }
      var n := |segments| - 1;
      var t := segments[n];
      segments := segments[n := t.(used := header.previousUsed)];
      if segments[n].used == 0 && n > 0 {
        segments := segments[..n];
        bytes := Sub(bytes, t.capacity);
        headers := Overwrite(headers, t.address, SEGMENT_HEADER + t.capacity);
      }
      return false;
    }
  }
}
