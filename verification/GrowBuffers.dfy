/** Fetching data of unknown size: `GrowBuffer` of `misc.c` and the loops that call it (`misc.c`,
  * `hand.c`). The firmware is the pool and one service that copies its data into a given buffer. */
module GrowBuffers {

  /** Sizes are 64-bit numbers. */
  type Bytes = b: seq<bv8> | |b| < 0x1_0000_0000_0000_0000

  datatype Status = Success | BufferTooSmall | OutOfResources | Failed(code: nat)

  /** What the service has to hand out at the time of a call, or the error that it reports. */
  datatype Answer = Data(bytes: Bytes) | Refusal(code: nat)

  /** Everything that is up to the firmware: which allocations are granted, and what the service has to
    * hand out each time that it is asked. Neither has to stay the same. */
  datatype World = World(grants: nat -> bool, answers: nat -> Answer)

  class Firmware {
    const world: World
    var blocks: map<nat, seq<bv8>>
    var next: nat
    var allocations: nat
    var calls: nat

    ghost predicate Valid()
      reads this
    {
      forall a <- blocks :: 0 < a < next
    }

    constructor (world: World)
      ensures Valid() && this.world == world && blocks == map[] && allocations == calls == 0
    {
      this.world := world;
      blocks, next, allocations, calls := map[], 1, 0, 0;
    }

    /** A NULL pointer when the pool refuses; else a block of this size, with anything in it. */
    method AllocatePool(size: nat) returns (buffer: nat)
      requires Valid()
      modifies this`blocks, this`next, this`allocations
      ensures Valid() && allocations == old(allocations) + 1
      ensures !world.grants(old(allocations)) ==> buffer == 0 && blocks == old(blocks)
      ensures world.grants(old(allocations)) ==>
                && buffer != 0 && buffer !in old(blocks) && buffer in blocks && |blocks[buffer]| == size
                && blocks == old(blocks)[buffer := blocks[buffer]]
    {
      buffer := 0;
      if world.grants(allocations) {
        buffer := if next == 0 then 1 else next;
        blocks := blocks[buffer := seq(size, _ => 0xAF)];
        next := buffer + 1;
      }
      allocations := allocations + 1;
    }

    method FreePool(buffer: nat)
      requires Valid() && buffer in blocks
      modifies this`blocks
      ensures Valid() && blocks == old(blocks) - {buffer}
    {
      blocks := blocks - {buffer};
    }

    /** The service, in the way of `LocateHandle` and `GetVariable`: the size becomes that of the data. */
    method Ask(size: nat, buffer: nat) returns (status: Status, size': nat)
      requires Valid() && buffer in blocks && size == |blocks[buffer]|
      modifies this`blocks, this`calls
      ensures Valid() && calls == old(calls) + 1
      ensures match world.answers(old(calls))
        case Refusal(code) => status == Failed(code) && blocks == old(blocks) && size' == size
        case Data(d) =>
          && size' == |d|
          && if |d| > size then status == BufferTooSmall && blocks == old(blocks)
             else status == Success && blocks == old(blocks)[buffer := d + old(blocks)[buffer][|d|..]]
    {
      size' := size;
      match world.answers(calls) {
        case Refusal(code) =>
          status := Failed(code);
        case Data(d) =>
          size' := |d|;
          status := if |d| > size then BufferTooSmall else Success;
          if status == Success {
            blocks := blocks[buffer := d + blocks[buffer][|d|..]];
          }
      }
      calls := calls + 1;
    }
  }

  /** Frees the old block before it asks for a new one, and leaves no block behind with an error. */
  method GrowBuffer(fw: Firmware, status: Status, buffer: nat, size: nat)
    returns (tryAgain: bool, status': Status, buffer': nat)
    requires fw.Valid() && (buffer != 0 ==> buffer in fw.blocks)
    modifies fw`blocks, fw`next, fw`allocations
    ensures fw.Valid()
    ensures var resize := (buffer == 0 && size != 0) || status == BufferTooSmall;
            && tryAgain == (resize && fw.world.grants(old(fw.allocations)))
            && fw.allocations == old(fw.allocations) + (if resize then 1 else 0)
            && status' == if tryAgain then BufferTooSmall else if resize then OutOfResources else status
    ensures tryAgain ==>
              && buffer' != 0 && buffer' !in old(fw.blocks) - {buffer} && buffer' in fw.blocks
              && |fw.blocks[buffer']| == size
              && fw.blocks == (old(fw.blocks) - {buffer})[buffer' := fw.blocks[buffer']]
    ensures !tryAgain && status' == Success ==> buffer' == buffer && fw.blocks == old(fw.blocks)
    ensures !tryAgain && status' != Success ==> buffer' == 0 && fw.blocks == old(fw.blocks) - {buffer}
  {
    status', buffer' := status, buffer;
    if buffer' == 0 && size != 0 {
      status' := BufferTooSmall;
    }
    tryAgain := false;
    if status' == BufferTooSmall {
      if buffer' != 0 {
        fw.FreePool(buffer');
      }
      buffer' := fw.AllocatePool(size);
      if buffer' != 0 {
        tryAgain := true;
      } else {
        status' := OutOfResources;
      }
    }
    if !tryAgain && status' != Success && buffer' != 0 {
      fw.FreePool(buffer');
      buffer' := 0;
    }
  }

  // ---------- the loop ----------

  /** How large a buffer the `k`-th attempt offers: the size that the attempt before it asked for. */
  function Offered(w: World, call: nat, first: nat, k: nat): nat {
    if k == 0 then first else
      match w.answers(call + k - 1)
      case Data(d) => |d|
      case Refusal(_) => 0
  }

  /** The `k`-th attempt gets its buffer, and finds that it is too small. */
  predicate TooSmall(w: World, alloc: nat, call: nat, first: nat, k: nat) {
    w.grants(alloc + k) && w.answers(call + k).Data? && |w.answers(call + k).bytes| > Offered(w, call, first, k)
  }

  ghost predicate EndsAt(w: World, alloc: nat, call: nat, first: nat, k: nat) {
    !TooSmall(w, alloc, call, first, k) && forall j | 0 <= j < k :: TooSmall(w, alloc, call, first, j)
  }

  /** What the last attempt leads to. */
  function Outcome(w: World, alloc: nat, call: nat, k: nat): Status {
    if !w.grants(alloc + k) then OutOfResources
    else
      match w.answers(call + k)
      case Data(_) => Success
      case Refusal(code) => Failed(code)
  }

  /** The buffers grow, so that there is a last attempt whatever the firmware does. */
  lemma {:induction false} OfferedGrows(w: World, alloc: nat, call: nat, first: nat, k: nat)
    requires forall j | 0 <= j < k :: TooSmall(w, alloc, call, first, j)
    ensures Offered(w, call, first, k) >= first + k
    ensures k > 0 ==> Offered(w, call, first, k) < 0x1_0000_0000_0000_0000
  {
    if k > 0 {
      OfferedGrows(w, alloc, call, first, k - 1);
      assert TooSmall(w, alloc, call, first, k - 1);
    }
  }

  /** There is exactly one attempt at which the loop ends. */
  lemma EndsOnce(w: World, alloc: nat, call: nat, first: nat) returns (k: nat)
    ensures EndsAt(w, alloc, call, first, k)
    ensures forall j: nat :: EndsAt(w, alloc, call, first, j) ==> j == k
  {
    k := 0;
    while TooSmall(w, alloc, call, first, k)
      invariant forall j | 0 <= j < k :: TooSmall(w, alloc, call, first, j)
      decreases 0x1_0000_0000_0000_0000 - k
    {
      OfferedGrows(w, alloc, call, first, k + 1);
      k := k + 1;
    }
  }

  /** When the pool grants everything and the data stay the same, the second attempt is the last, and
    * it succeeds. */
  lemma SteadyData(w: World, alloc: nat, call: nat, first: nat, d: Bytes, k: nat)
    requires forall j: nat :: w.grants(j) && w.answers(j) == Data(d)
    requires EndsAt(w, alloc, call, first, k)
    ensures k == (if |d| <= first then 0 else 1) && Outcome(w, alloc, call, k) == Success
  {
    assert k > 1 ==> TooSmall(w, alloc, call, first, 1);
    assert TooSmall(w, alloc, call, first, 0) <==> |d| > first;
    assert w.answers(call) == Data(d);
  }

  /** The attempts before `k` were too small. */
  ghost predicate Tried(w: World, alloc: nat, call: nat, first: nat, k: nat) {
    forall j | 0 <= j < k :: TooSmall(w, alloc, call, first, j)
  }

  lemma FirstAttempt(w: World, alloc: nat, call: nat, first: nat)
    ensures Tried(w, alloc, call, first, 0) && Offered(w, call, first, 0) == first
    ensures !w.grants(alloc) ==> EndsAt(w, alloc, call, first, 0) && Outcome(w, alloc, call, 0) == OutOfResources
  {
  }

  /** The three ways in which an attempt that got its buffer goes on. */
  lemma NextAttempt(w: World, alloc: nat, call: nat, first: nat, k: nat)
    requires Tried(w, alloc, call, first, k) && w.grants(alloc + k)
    ensures match w.answers(call + k)
      case Refusal(code) => EndsAt(w, alloc, call, first, k) && Outcome(w, alloc, call, k) == Failed(code)
      case Data(d) =>
        if |d| <= Offered(w, call, first, k)
        then EndsAt(w, alloc, call, first, k) && Outcome(w, alloc, call, k) == Success
        else
          && Tried(w, alloc, call, first, k + 1) && Offered(w, call, first, k + 1) == |d|
          && k + 1 < 0x1_0000_0000_0000_0000
          && (!w.grants(alloc + k + 1) ==>
                EndsAt(w, alloc, call, first, k + 1) && Outcome(w, alloc, call, k + 1) == OutOfResources)
  {
    if w.answers(call + k).Data? && |w.answers(call + k).bytes| > Offered(w, call, first, k) {
      assert Tried(w, alloc, call, first, k + 1);
      OfferedGrows(w, alloc, call, first, k + 1);
    }
  }

  /** There is one block more than before, and it is this one, of this size. */
  ghost predicate OneMore(before: map<nat, seq<bv8>>, now: map<nat, seq<bv8>>, buffer: nat, size: nat) {
    && buffer != 0 && buffer !in before && buffer in now && |now[buffer]| == size
    && now == before[buffer := now[buffer]]
  }

  /** That block starts with these data, and `size` is their size. */
  ghost predicate Delivered(before: map<nat, seq<bv8>>, now: map<nat, seq<bv8>>, buffer: nat, block: nat,
                            answer: Answer, size: nat)
    requires answer.Data?
  {
    OneMore(before, now, buffer, block) && answer.bytes <= now[buffer] && size == |answer.bytes|
  }

  lemma OneLess(before: map<nat, seq<bv8>>, now: map<nat, seq<bv8>>, buffer: nat, size: nat)
    requires OneMore(before, now, buffer, size)
    ensures now - {buffer} == before
  {
  }

  lemma Filled(before: map<nat, seq<bv8>>, now: map<nat, seq<bv8>>, buffer: nat, size: nat, d: Bytes)
    requires OneMore(before, now, buffer, size) && |d| <= size
    ensures buffer in now && |now[buffer]| == size
    ensures var then' := now[buffer := d + now[buffer][|d|..]];
            OneMore(before, then', buffer, size) && buffer in then' && d <= then'[buffer]
  {
  }

  /** The body of the loop: the service is asked, and the buffer grown if it was too small. */
  method Attempt(fw: Firmware, buffer: nat, size: nat, ghost before: map<nat, seq<bv8>>)
    returns (tryAgain: bool, status: Status, buffer': nat, size': nat)
    requires fw.Valid() && OneMore(before, fw.blocks, buffer, size)
    modifies fw`blocks, fw`next, fw`allocations, fw`calls
    ensures fw.Valid() && fw.calls == old(fw.calls) + 1
    ensures match fw.world.answers(old(fw.calls))
      case Refusal(code) => !tryAgain && status == Failed(code) && buffer' == 0 && fw.blocks == before
      case Data(d) =>
        && size' == |d|
        && if |d| <= size then
             && !tryAgain && status == Success
             && Delivered(before, fw.blocks, buffer', size, fw.world.answers(old(fw.calls)), size')
           else
             && tryAgain == fw.world.grants(old(fw.allocations)) && fw.allocations == old(fw.allocations) + 1
             && if tryAgain then OneMore(before, fw.blocks, buffer', |d|)
                else status == OutOfResources && buffer' == 0 && fw.blocks == before
  {
    OneLess(before, fw.blocks, buffer, size);
    if fw.world.answers(fw.calls).Data? && |fw.world.answers(fw.calls).bytes| <= size {
      Filled(before, fw.blocks, buffer, size, fw.world.answers(fw.calls).bytes);
    }
    status, size' := fw.Ask(size, buffer);
    tryAgain, status, buffer' := GrowBuffer(fw, status, buffer, size');
  }

  /** The loop that every caller has: on success there is one block more, with the data at its start; on
    * an error there is none. */
  method Fetch(fw: Firmware, first: nat) returns (status: Status, buffer: nat, size: nat, ghost last: nat)
    requires fw.Valid() && 0 < first < 0x1_0000_0000_0000_0000
    modifies fw`blocks, fw`next, fw`allocations, fw`calls
    ensures fw.Valid()
    ensures EndsAt(fw.world, old(fw.allocations), old(fw.calls), first, last)
    ensures status == Outcome(fw.world, old(fw.allocations), old(fw.calls), last)
    ensures status != Success ==> buffer == 0 && fw.blocks == old(fw.blocks)
    ensures status == Success ==>
              Delivered(old(fw.blocks), fw.blocks, buffer, Offered(fw.world, old(fw.calls), first, last),
                        fw.world.answers(old(fw.calls) + last), size)
  {
    ghost var w, alloc, call, blocks := fw.world, fw.allocations, fw.calls, fw.blocks;
    FirstAttempt(w, alloc, call, first);
    var tryAgain: bool;
    status, buffer, size, last := Success, 0, first, 0;
    tryAgain, status, buffer := GrowBuffer(fw, status, buffer, size);
    assert tryAgain ==> OneMore(blocks, fw.blocks, buffer, size);
    hide EndsAt, Tried, TooSmall, Offered, Outcome, OneMore, Delivered;
    while tryAgain
      invariant fw.Valid()
      invariant tryAgain ==>
                  && Tried(w, alloc, call, first, last) && w.grants(alloc + last)
                  && OneMore(blocks, fw.blocks, buffer, size) && size == Offered(w, call, first, last)
                  && fw.allocations == alloc + last + 1 && fw.calls == call + last
                  && last < 0x1_0000_0000_0000_0000
      invariant !tryAgain ==>
                  && EndsAt(w, alloc, call, first, last) && status == Outcome(w, alloc, call, last)
                  && if status == Success then
                       Delivered(blocks, fw.blocks, buffer, Offered(w, call, first, last),
                                 w.answers(call + last), size)
                     else buffer == 0 && fw.blocks == blocks
      decreases tryAgain, 0x1_0000_0000_0000_0000 - last
    {
      NextAttempt(w, alloc, call, first, last);
      ghost var offered := size;
      tryAgain, status, buffer, size := Attempt(fw, buffer, size, blocks);
      if w.answers(call + last).Data? && size > offered {
        last := last + 1;
      }
    }
  }

  const HANDLE_SIZE: nat := 8

  function EightBytes(h: bv64): (r: seq<bv8>)
    ensures |r| == 8
  {
    [(h & 0xFF) as bv8, ((h >> 8) & 0xFF) as bv8, ((h >> 16) & 0xFF) as bv8, ((h >> 24) & 0xFF) as bv8,
     ((h >> 32) & 0xFF) as bv8, ((h >> 40) & 0xFF) as bv8, ((h >> 48) & 0xFF) as bv8, (h >> 56) as bv8]
  }

  /** A list of handles in memory. */
  function Encoded(handles: seq<bv64>): seq<bv8> {
    if handles == [] then [] else EightBytes(handles[0]) + Encoded(handles[1..])
  }

  lemma {:induction false} EncodedSize(handles: seq<bv64>)
    ensures |Encoded(handles)| == 8 * |handles|
    decreases |handles|
  {
    hide EightBytes;
    if handles != [] {
      EncodedSize(handles[1..]);
    }
  }

  /** The handles found; none, and no buffer, after an error. */
  method LibLocateHandle(fw: Firmware) returns (status: Status, noHandles: nat, buffer: nat, ghost last: nat)
    requires fw.Valid()
    modifies fw`blocks, fw`next, fw`allocations, fw`calls
    ensures fw.Valid()
    ensures EndsAt(fw.world, old(fw.allocations), old(fw.calls), 400, last)
    ensures status == Outcome(fw.world, old(fw.allocations), old(fw.calls), last)
    ensures status != Success ==> noHandles == 0 && buffer == 0 && fw.blocks == old(fw.blocks)
    ensures status == Success ==>
              var answer := fw.world.answers(old(fw.calls) + last);
              && Delivered(old(fw.blocks), fw.blocks, buffer,
                           Offered(fw.world, old(fw.calls), 400, last), answer, |answer.bytes|)
              && noHandles == |answer.bytes| / 8
              && forall handles :: answer.bytes == Encoded(handles) ==> noHandles == |handles|
  {
    var bufferSize;
    status, buffer, bufferSize, last := Fetch(fw, 50 * HANDLE_SIZE);
    noHandles := bufferSize / HANDLE_SIZE;
    forall handles: seq<bv64>
      ensures |Encoded(handles)| == 8 * |handles|
    {
      EncodedSize(handles);
    }
    if status != Success {
      noHandles := 0;
    }
  }

  /** The variable and its size; NULL and zero after an error. */
  method LibGetVariableAndSize(fw: Firmware) returns (buffer: nat, varSize: nat, ghost last: nat)
    requires fw.Valid()
    modifies fw`blocks, fw`next, fw`allocations, fw`calls
    ensures fw.Valid()
    ensures EndsAt(fw.world, old(fw.allocations), old(fw.calls), 100, last)
    ensures buffer != 0 <==> Outcome(fw.world, old(fw.allocations), old(fw.calls), last) == Success
    ensures buffer == 0 ==> varSize == 0 && fw.blocks == old(fw.blocks)
    ensures buffer != 0 ==>
              Delivered(old(fw.blocks), fw.blocks, buffer, Offered(fw.world, old(fw.calls), 100, last),
                        fw.world.answers(old(fw.calls) + last), varSize)
  {
    var status, bufferSize;
    status, buffer, bufferSize, last := Fetch(fw, 100);
    varSize := if buffer != 0 then bufferSize else 0;
  }
}
