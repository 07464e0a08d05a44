/**
 A ring of message pages, as a queue: what is in it, oldest first. The pages are the
 ring's own or frames of physical memory.
 */
module MessageRing {
  import opened Common

  const IPC_PAGE_BYTES: nat := 4096

  type Message = seq<nat>

  type Page = seq<nat>

  /** What the frames of queues hold. */
  type Memory = map<nat, Page>

  datatype Storage = Heap(pages: seq<Page>) | Frames(frames: seq<nat>)

  datatype Ring = Ring(storage: Storage, head: nat, tail: nat, length: nat, bytes: nat)

  /** The page `offset` places after `from`, going round. */
  function PageAt(from: nat, offset: nat, capacity: nat): nat {
    if from + offset < capacity then from + offset else from + offset - capacity
  }

  function Places(storage: Storage): nat {
    match storage
    case Heap(pages) => |pages|
    case Frames(frames) => |frames|
  }

  function ZeroPage(): (page: Page)
    ensures |page| == IPC_PAGE_BYTES
  {
    seq(IPC_PAGE_BYTES, _ => 0)
  }

  function PageIn(memory: Memory, frame: nat): Page {
    if frame in memory then memory[frame] else ZeroPage()
  }

  /** Every page is whole. */
  predicate Paged(memory: Memory) {
    forall f :: f in memory ==> |memory[f]| == IPC_PAGE_BYTES
  }

  function Pages(storage: Storage, memory: Memory): (pages: seq<Page>)
    ensures |pages| == Places(storage)
  {
    match storage
    case Heap(pages) => pages
    case Frames(frames) => seq(|frames|, i requires 0 <= i < |frames| => PageIn(memory, frames[i]))
  }

  predicate RingOk(ring: Ring) {
    && 0 < Places(ring.storage) && ring.head < Places(ring.storage) && ring.length <= Places(ring.storage)
    && ring.tail == PageAt(ring.head, ring.length, Places(ring.storage)) && 0 < ring.bytes <= IPC_PAGE_BYTES
    && (ring.storage.Heap? ==> forall i :: 0 <= i < |ring.storage.pages| ==> |ring.storage.pages[i]| == IPC_PAGE_BYTES)
  }

  lemma PagesWhole(ring: Ring, memory: Memory)
    requires RingOk(ring) && Paged(memory)
    ensures forall i :: 0 <= i < Places(ring.storage) ==> |Pages(ring.storage, memory)[i]| == IPC_PAGE_BYTES
  {
  }

  /** The first `count` messages from `head` on. */
  function Stored(pages: seq<seq<nat>>, head: nat, count: nat, bytes: nat): seq<Message>
    requires head < |pages| && count <= |pages| && forall i :: 0 <= i < |pages| ==> |pages[i]| == IPC_PAGE_BYTES
    requires bytes <= IPC_PAGE_BYTES
  {
    if count == 0 then [] else Stored(pages, head, count - 1, bytes)
                               + [pages[PageAt(head, count - 1, |pages|)][..bytes]]
  }

  function Contents(ring: Ring, memory: Memory): seq<Message>
    requires RingOk(ring) && Paged(memory)
  {
    PagesWhole(ring, memory);
    Stored(Pages(ring.storage, memory), ring.head, ring.length, ring.bytes)
  }

  lemma {:induction false} StoredLength(pages: seq<seq<nat>>, head: nat, count: nat, bytes: nat)
    requires head < |pages| && count <= |pages| && forall i :: 0 <= i < |pages| ==> |pages[i]| == IPC_PAGE_BYTES
    requires bytes <= IPC_PAGE_BYTES
    ensures |Stored(pages, head, count, bytes)| == count
  {
    if count > 0 {
      StoredLength(pages, head, count - 1, bytes);
    }
  }

  /** Writing a page that holds no stored message changes nothing stored. */
  lemma {:induction false} StoredElsewhere(pages: seq<seq<nat>>, head: nat, count: nat, bytes: nat, at: nat,
                                           page: seq<nat>)
    requires head < |pages| && count <= |pages| && forall i :: 0 <= i < |pages| ==> |pages[i]| == IPC_PAGE_BYTES
    requires bytes <= IPC_PAGE_BYTES && |page| == IPC_PAGE_BYTES && at < |pages|
    requires forall k :: 0 <= k < count ==> PageAt(head, k, |pages|) != at
    ensures Stored(pages[at := page], head, count, bytes) == Stored(pages, head, count, bytes)
  {
    if count > 0 {
      StoredElsewhere(pages, head, count - 1, bytes, at, page);
    }
  }

  /** The oldest message comes first. */
  lemma {:induction false} StoredFirst(pages: seq<seq<nat>>, head: nat, count: nat, bytes: nat)
    requires head < |pages| && 0 < count <= |pages| && forall i :: 0 <= i < |pages| ==> |pages[i]| == IPC_PAGE_BYTES
    requires bytes <= IPC_PAGE_BYTES
    ensures Stored(pages, head, count, bytes) == [pages[head][..bytes]]
            + Stored(pages, PageAt(head, 1, |pages|), count - 1, bytes)
  {
    if count > 1 {
      StoredFirst(pages, head, count - 1, bytes);
      assert PageAt(PageAt(head, 1, |pages|), count - 2, |pages|) == PageAt(head, count - 1, |pages|);
    }
  }

  // --- Sending and receiving ----------------------------------------------------------

  predicate Pushable(ring: Ring, memory: Memory, message: Message) {
    RingOk(ring) && Paged(memory) && |message| == ring.bytes && ring.length < Places(ring.storage)
  }

  /** The page at the tail with the message at its start. */
  function TailPage(ring: Ring, memory: Memory, message: Message): (page: Page)
    requires Pushable(ring, memory, message)
    ensures |page| == IPC_PAGE_BYTES && page[..ring.bytes] == message
  {
    message + Pages(ring.storage, memory)[ring.tail][ring.bytes..]
  }

  function Pushed(ring: Ring, memory: Memory, message: Message): Ring
    requires Pushable(ring, memory, message)
  {
    var storage := if ring.storage.Heap? then Heap(ring.storage.pages[ring.tail := TailPage(ring, memory, message)])
                                              else ring.storage;
    ring.(storage := storage, tail := (ring.tail + 1) % Places(ring.storage), length := ring.length + 1)
  }

  function MemoryPushed(ring: Ring, memory: Memory, message: Message): (after: Memory)
    requires Pushable(ring, memory, message)
    ensures Paged(after)
  {
    if ring.storage.Heap? then memory else memory[ring.storage.frames[ring.tail] := TailPage(ring, memory, message)]
  }

  function Popped(ring: Ring): Ring
    requires RingOk(ring) && ring.length > 0
  {
    ring.(head := (ring.head + 1) % Places(ring.storage), length := ring.length - 1)
  }

  lemma NextSlot(at: nat, capacity: nat)
    requires at < capacity
    ensures (at + 1) % capacity == PageAt(at, 1, capacity)
  {
  }

  lemma PushedOk(ring: Ring, memory: Memory, message: Message)
    requires Pushable(ring, memory, message)
    ensures RingOk(Pushed(ring, memory, message))
            && Places(Pushed(ring, memory, message).storage) == Places(ring.storage)
  {
    NextSlot(ring.tail, Places(ring.storage));
  }

  /** Pages of the ring's own do not share anything; frames must be distinct. */
  predicate Separate(storage: Storage) {
    storage.Frames? ==> Distinct(storage.frames)
  }

  /** Only the page at the tail changes. */
  lemma {:induction false} PagesPushed(ring: Ring, memory: Memory, message: Message)
    requires Pushable(ring, memory, message) && Separate(ring.storage)
    ensures Pages(Pushed(ring, memory, message).storage, MemoryPushed(ring, memory, message)) ==
            Pages(ring.storage, memory)[ring.tail := TailPage(ring, memory, message)]
  {
    if ring.storage.Frames? {
      forall i | 0 <= i < |ring.storage.frames| && i != ring.tail
        ensures ring.storage.frames[i] != ring.storage.frames[ring.tail]
      {
        DistinctAt(ring.storage.frames, if i < ring.tail then i else ring.tail, if i < ring.tail then ring.tail else i);
      }
    }
  }

  /** Sending appends the message, byte for byte, whatever was in the page before. */
  ghost predicate Appends(ring: Ring, memory: Memory, message: Message) {
    Pushable(ring, memory, message) ==>
      && RingOk(Pushed(ring, memory, message))
      && Contents(Pushed(ring, memory, message), MemoryPushed(ring, memory, message)) == Contents(ring, memory)
         + [message]
  }

  lemma PushAppends(ring: Ring, memory: Memory, message: Message)
    requires Separate(ring.storage)
    ensures Appends(ring, memory, message)
  {
    hide Stored, Pushed, MemoryPushed, TailPage, Pages;
    if Pushable(ring, memory, message) {
      PushedOk(ring, memory, message);
      PagesWhole(ring, memory);
      PagesPushed(ring, memory, message);
      PushedFields(ring, memory, message);
      var pages, page := Pages(ring.storage, memory), TailPage(ring, memory, message);
      PushedLast(pages[ring.tail := page], ring.head, ring.length, ring.bytes);
      StoredElsewhere(pages, ring.head, ring.length, ring.bytes, ring.tail, page);
    }
  }

  lemma PushedFields(ring: Ring, memory: Memory, message: Message)
    requires Pushable(ring, memory, message)
    ensures var after := Pushed(ring, memory, message); after.head == ring.head && after.length == ring.length + 1
                                                        && after.bytes == ring.bytes
    ensures ring.storage.Frames? ==> Pushed(ring, memory, message).storage == ring.storage
  {
  }

  /** A queue appends whatever is sent at whatever state exactly when no frame is in it twice. */
  lemma {:induction false} AppendsExactly(frames: seq<nat>)
    ensures Distinct(frames) <==> forall ring: Ring, memory, message | ring.storage == Frames(frames) ::
                                  Appends(ring, memory, message)
  {
    if Distinct(frames) {
      forall ring: Ring, memory, message | ring.storage == Frames(frames)
        ensures Appends(ring, memory, message)
      {
        PushAppends(ring, memory, message);
      }
    } else {
      var i, j := SharedPlaces(frames);
      Overwritten(frames, i, j);
    }
  }

  lemma {:induction false} SharedPlaces(frames: seq<nat>) returns (i: nat, j: nat)
    requires !Distinct(frames)
    ensures i < j < |frames| && frames[i] == frames[j]
  {
    var last := |frames| - 1;
    if frames[last] in frames[..last] {
      i :| 0 <= i < last && frames[i] == frames[last];
      j := last;
    } else {
      i, j := SharedPlaces(frames[..last]);
    }
  }

  /** Two places in one frame: the second message overwrites the first. */
  lemma {:induction false} Overwritten(frames: seq<nat>, i: nat, j: nat)
    requires i < j < |frames| && frames[i] == frames[j]
    ensures !Appends(Ring(Frames(frames), i, j, j - i, 1), map[], [1])
  {
    hide Stored;
    var ring, memory: Memory, message := Ring(Frames(frames), i, j, j - i, 1), map[], [1];
    assert Pushable(ring, memory, message);
    PushedOk(ring, memory, message);
    var pages, after := Pages(ring.storage, memory), Pages(ring.storage, MemoryPushed(ring, memory, message));
    assert pages[i][..1] == [0] && after[i][..1] == [1];
    PagesWhole(ring, memory);
    StoredFirst(pages, i, j - i, 1);
    StoredFirst(after, i, j - i + 1, 1);
    assert Contents(Pushed(ring, memory, message), MemoryPushed(ring, memory, message))[0] == [1];
    assert (Contents(ring, memory) + [message])[0] == [0];
  }

  lemma PushedLast(pages: seq<Page>, head: nat, count: nat, bytes: nat)
    requires head < |pages| && count < |pages| && forall i :: 0 <= i < |pages| ==> |pages[i]| == IPC_PAGE_BYTES
    requires bytes <= IPC_PAGE_BYTES
    ensures Stored(pages, head, count + 1, bytes) == Stored(pages, head, count, bytes)
            + [pages[PageAt(head, count, |pages|)][..bytes]]
  {
  }

  /** The oldest message. */
  function First(ring: Ring, memory: Memory): Message
    requires RingOk(ring) && Paged(memory)
  {
    PagesWhole(ring, memory);
    Pages(ring.storage, memory)[ring.head][..ring.bytes]
  }

  /** Receiving takes the oldest message. */
  lemma PopTakesFirst(ring: Ring, memory: Memory)
    requires RingOk(ring) && Paged(memory) && ring.length > 0
    ensures RingOk(Popped(ring)) && Contents(ring, memory) == [First(ring, memory)] + Contents(Popped(ring), memory)
  {
    hide Stored, Pages;
    NextSlot(ring.head, Places(ring.storage));
    PagesWhole(ring, memory);
    StoredFirst(Pages(ring.storage, memory), ring.head, ring.length, ring.bytes);
  }

  /** Writing to a frame that a queue does not have leaves what is in it. */
  lemma ContentsElsewhere(ring: Ring, memory: Memory, frame: nat, page: Page)
    requires RingOk(ring) && Paged(memory) && |page| == IPC_PAGE_BYTES
             && (ring.storage.Frames? ==> frame !in ring.storage.frames)
    ensures Paged(memory[frame := page]) && Contents(ring, memory[frame := page]) == Contents(ring, memory)
  {
    assert Pages(ring.storage, memory[frame := page]) == Pages(ring.storage, memory);
  }
}
