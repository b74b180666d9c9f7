/** A pipe shared by one writing and one reading thread.  Every step performs one access
    to shared memory; the steps of the two threads interleave in any order. */
module Pipe {

  const EOT: char := 4 as char
  const SIZE_MAX := 0xFFFF_FFFF_FFFF_FFFF

  /** Where the writing thread stands in PipeOut.write / PipeOut.close. */
  datatype WriterPc =
    | WIdle      // outside of any call
    | WTop       // head of the loop over the caller's bytes, first look at the flags
    | WLoad      // spinning on the counter of free slots
    | WSub       // saw it non-zero, about to take one
    | WRecheck   // holds a slot, second look at the flags
    | WStore     // about to store the byte
    | WInc       // stored, about to advance writePtr
    | WWrap      // about to wrap writePtr around
    | WSignal    // about to count the byte as readable
    | WEnd       // leaving the call

  /** Where the reading thread stands in PipeIn.read / PipeIn.close. */
  datatype ReaderPc =
    | RIdle
    | RTop       // head of the loop over the wanted bytes, first look at readClosed
    | RCheckPtr  // closed: compares the two pointers
    | RLoad      // spinning on the counter of readable bytes
    | RSub
    | RRecheck   // holds a readable byte, second look at readClosed
    | RFetch     // about to fetch the byte and advance readPtr, which only this thread uses
    | RFree      // about to count the slot as free and hand the byte to the caller
    | RClose1    // about to set readClosed
    | RClose2    // about to give the writer a bonus token
    | RClose3    // about to give itself one

  datatype Writer = Writer(pc: WriterPc, buf: seq<char>, written: nat, closing: bool)

  datatype Reader = Reader(pc: ReaderPc, wanted: nat, out: seq<char>, val: char, failed: bool)

  /** What happened so far.  Nothing in a step depends on it. */
  datatype History = History(
    stored: seq<char>,      // every byte put into a slot, in order
    delivered: seq<char>,   // every byte handed to a reading caller, in order
    accepted: seq<char>,    // the bytes that finished write calls reported as written
    consumed: nat,          // bytes fetched from slots
    freed: nat,             // slots handed back
    takenW: nat, takenR: nat,  // tokens taken from the two counters
    signalled: nat,            // bytes counted as readable
    bonusW: nat, bonusR: nat,  // tokens added by closing the reading end
    lostW: nat, lostR: nat)    // tokens taken and then dropped because of a closed end

  datatype State = State(
    size: nat, buffer: seq<char>,
    writePtr: nat, readPtr: nat,
    writeClosed: bool, readClosed: bool,
    readLock: nat, writeLock: nat,
    w: Writer, r: Reader, h: History)

  /** fetch_sub(1) on an unsigned counter. */
  function FetchSub(x: nat): nat {
    if x == 0 then SIZE_MAX else x - 1
  }

  predicate Init(s: State) {
    && 0 < s.size && |s.buffer| == s.size
    && s.writePtr == 0 && s.readPtr == 0
    && !s.writeClosed && !s.readClosed
    && s.readLock == 0 && s.writeLock == s.size
    && s.w == Writer(WIdle, [], 0, false)
    && s.r.pc == RIdle && s.r.wanted == 0 && s.r.out == [] && !s.r.failed
    && s.h == History([], [], [], 0, 0, 0, 0, 0, 0, 0, 0, 0)
  }

  /** Calls a thread may begin while it is idle. */
  function BeginWrite(s: State, buf: seq<char>): State {
    s.(w := Writer(WTop, buf, 0, false))
  }

  function BeginWriterClose(s: State): State {
    s.(w := Writer(WTop, [EOT], 0, true))
  }

  function BeginRead(s: State, wanted: nat): State {
    s.(r := s.r.(pc := RTop, wanted := wanted, out := [], failed := false))
  }

  function BeginReaderClose(s: State): State {
    s.(r := s.r.(pc := RClose1, wanted := 0, out := [], failed := false))
  }

  function AtW(s: State, pc: WriterPc): State {
    s.(w := s.w.(pc := pc))
  }

  function AtR(s: State, pc: ReaderPc): State {
    s.(r := s.r.(pc := pc))
  }

  /** The array accesses of the next step are in range. */
  predicate CanStep(s: State) {
    && (s.w.pc == WStore ==> s.writePtr < |s.buffer|)
    && (s.r.pc == RFetch ==> s.readPtr < |s.buffer|)
    && (s.w.pc == WStore || s.w.pc == WSignal ==> s.w.written < |s.w.buf|)
    && (s.w.pc == WEnd ==> s.w.written <= |s.w.buf|)
  }

  /** One step of the writing thread inside a call. */
  function WriterStep(s: State): State
    requires CanStep(s)
  {
    match s.w.pc
    case WIdle => s
    case WTop =>
      if s.w.written < |s.w.buf| && !(s.writeClosed || s.readClosed) then AtW(s, WLoad) else AtW(s, WEnd)
    case WLoad => if s.writeLock != 0 then AtW(s, WSub) else s
    case WSub =>
      s.(w := s.w.(pc := WRecheck), writeLock := FetchSub(s.writeLock), h := s.h.(takenW := s.h.takenW + 1))
    case WRecheck =>
      if s.writeClosed || s.readClosed then s.(w := s.w.(pc := WEnd), h := s.h.(lostW := s.h.lostW + 1)) else AtW(s, WStore)
    case WStore =>
      var c := s.w.buf[s.w.written];
      s.(w := s.w.(pc := WInc), buffer := s.buffer[s.writePtr := c], h := s.h.(stored := s.h.stored + [c]))
    case WInc => s.(w := s.w.(pc := WWrap), writePtr := s.writePtr + 1)
    case WWrap => s.(w := s.w.(pc := WSignal), writePtr := if s.writePtr == s.size then 0 else s.writePtr)
    case WSignal =>
      s.(w := s.w.(pc := WTop, written := s.w.written + 1), readLock := s.readLock + 1,
         h := s.h.(signalled := s.h.signalled + 1))
    case WEnd =>
      s.(w := Writer(WIdle, [], 0, false), writeClosed := s.writeClosed || s.w.closing,
         h := s.h.(accepted := s.h.accepted + s.w.buf[..s.w.written]))
  }

  /** One step of the reading thread inside a call. */
  function ReaderStep(s: State): State
    requires CanStep(s)
  {
    match s.r.pc
    case RIdle => s
    case RTop =>
      if |s.r.out| >= s.r.wanted then AtR(s, RIdle)
      else if s.readClosed then AtR(s, RCheckPtr) else AtR(s, RLoad)
    case RCheckPtr => if s.readPtr == s.writePtr then s.(r := s.r.(pc := RIdle, failed := true)) else AtR(s, RLoad)
    case RLoad => if s.readLock != 0 then AtR(s, RSub) else s
    case RSub =>
      s.(r := s.r.(pc := RRecheck), readLock := FetchSub(s.readLock), h := s.h.(takenR := s.h.takenR + 1))
    case RRecheck =>
      if s.readClosed then s.(r := s.r.(pc := RIdle), h := s.h.(lostR := s.h.lostR + 1)) else AtR(s, RFetch)
    case RFetch =>
      s.(r := s.r.(pc := RFree, val := s.buffer[s.readPtr]),
         readPtr := if s.readPtr + 1 >= s.size then 0 else s.readPtr + 1,
         h := s.h.(consumed := s.h.consumed + 1))
    case RFree =>
      s.(r := s.r.(pc := if s.r.val == EOT then RClose1 else RTop, out := s.r.out + [s.r.val]),
         writeLock := s.writeLock + 1,
         h := s.h.(freed := s.h.freed + 1, delivered := s.h.delivered + [s.r.val]))
    case RClose1 =>
      s.(r := s.r.(pc := RClose2), readClosed := true)
    case RClose2 => s.(r := s.r.(pc := RClose3), writeLock := s.writeLock + 1, h := s.h.(bonusW := s.h.bonusW + 1))
    case RClose3 => s.(r := s.r.(pc := RIdle), readLock := s.readLock + 1, h := s.h.(bonusR := s.h.bonusR + 1))
  }

  /** The slot of byte number n: one further for each byte before it, wrapping around. */
  function Slot(n: nat, size: nat): (r: nat)
    requires 0 < size
    ensures r < size
  {
    if n == 0 then 0
    else if Slot(n - 1, size) + 1 == size then 0 else Slot(n - 1, size) + 1
  }

  /** The writer is between taking a free slot and giving up the token for it. */
  predicate WHolds(pc: WriterPc) {
    pc == WRecheck || pc == WStore
  }

  predicate RHolds(pc: ReaderPc) {
    pc == RRecheck || pc == RFetch
  }

  /** The byte is in its slot but not yet counted as readable. */
  predicate WUnsignalled(pc: WriterPc) {
    pc == WInc || pc == WWrap || pc == WSignal
  }

  function B(b: bool): nat {
    if b then 1 else 0
  }

  /** Each token counter: its initial value, plus what was put back, minus what was taken. */
  predicate FreeTokens(s: State) {
    s.writeLock + s.h.takenW == s.size + s.h.freed + s.h.bonusW
  }

  predicate ByteTokens(s: State) {
    s.readLock + s.h.takenR == s.h.signalled + s.h.bonusR
  }

  /** A thread about to take a token saw one that nobody else can take. */
  predicate Seen(s: State) {
    && (s.w.pc == WSub ==> s.writeLock > 0)
    && (s.r.pc == RSub ==> s.readLock > 0)
  }

  /** What became of the tokens taken: used for a byte, dropped, or still held. */
  predicate SpentFree(s: State) {
    s.h.takenW == |s.h.stored| + s.h.lostW + B(WHolds(s.w.pc))
  }

  predicate SpentBytes(s: State) {
    s.h.takenR == s.h.consumed + s.h.lostR + B(RHolds(s.r.pc))
  }

  predicate Signalled(s: State) {
    s.h.signalled + B(WUnsignalled(s.w.pc)) == |s.h.stored|
  }

  /** Counts of stored, fetched, freed and delivered bytes. */
  predicate Counts(s: State) {
    && |s.h.delivered| == s.h.freed
    && s.h.freed + B(s.r.pc == RFree) == s.h.consumed
  }

  /** No slot is stored into while its byte is unread, none is read before it is stored. */
  predicate Bounds(s: State) {
    && s.h.consumed + B(s.r.pc == RFetch) <= s.h.signalled
    && |s.h.stored| + B(s.w.pc == WStore) <= s.size + s.h.freed
  }

  /** The writer passed the first look at the flags. */
  predicate WInside(pc: WriterPc) {
    pc == WLoad || pc == WSub || WHolds(pc) || WUnsignalled(pc)
  }

  /** What the closed flags imply. */
  predicate Closing(s: State) {
    && (!s.readClosed ==> s.h.bonusW == s.h.bonusR == s.h.lostW == s.h.lostR == 0 && s.r.pc != RClose2 && s.r.pc != RClose3)
    && (s.readClosed ==> s.r.pc != RFetch && s.r.pc != RFree)
    && (s.readClosed && s.r.pc != RClose2 ==> s.h.bonusW > 0)
    && s.h.bonusW == s.h.bonusR + B(s.r.pc == RClose3)
    && (WInside(s.w.pc) ==> !s.writeClosed && s.h.lostW == 0)
  }

  /** Ring positions: each pointer is the slot of the next byte to pass it, up to the
      moment between advancing it and wrapping it around. */
  predicate Pointers(s: State) {
    && 0 < s.size == |s.buffer|
    && s.readPtr == Slot(s.h.consumed, s.size)
    && (WUnsignalled(s.w.pc) ==> s.h.stored != [])
    && s.writePtr == (if s.w.pc == WInc then Slot(|s.h.stored| - 1, s.size)
                      else if s.w.pc == WWrap then Slot(|s.h.stored| - 1, s.size) + 1
                      else Slot(|s.h.stored|, s.size))
  }

  /** Every byte that was stored and not fetched is still in its slot. */
  predicate Unread(s: State)
    requires 0 < s.size == |s.buffer|
  {
    forall k {:trigger s.h.stored[k]} | s.h.consumed <= k < |s.h.stored| :: s.buffer[Slot(k, s.size)] == s.h.stored[k]
  }

  /** Bytes are delivered in the order they were stored, and nothing follows an EOT. */
  predicate Delivered(s: State) {
    && s.h.delivered <= s.h.stored
    && (s.r.pc == RFree ==> |s.h.delivered| < |s.h.stored| && s.r.val == s.h.stored[|s.h.delivered|])
    && (forall k | 0 <= k < |s.h.delivered| && s.h.delivered[k] == EOT :: k == |s.h.delivered| - 1 && (s.readClosed || s.r.pc == RClose1))
  }

  /** The bytes stored are those of the finished calls, then those of the call under way. */
  predicate Accepted(s: State) {
    && s.w.written <= |s.w.buf| && (s.w.pc == WIdle ==> s.w.buf == [])
    && (WInside(s.w.pc) ==> s.w.written < |s.w.buf|)
    && s.h.stored == s.h.accepted + s.w.buf[..s.w.written] + if WUnsignalled(s.w.pc) then [s.w.buf[s.w.written]] else []
  }

  /** Inside the loop over the wanted bytes. */
  predicate RInside(pc: ReaderPc) {
    pc == RCheckPtr || pc == RLoad || pc == RSub || pc == RRecheck || pc == RFetch || pc == RFree
  }

  predicate LastIsEot(bytes: seq<char>) {
    bytes != [] && bytes[|bytes| - 1] == 4 as char
  }

  /** The caller's buffer never holds more than was asked for and, when a call has ended
      with the reading end still open, no less.  A call that ends with less reports an error,
      dropped a token, or received an EOT. */
  predicate Asked(s: State) {
    && |s.r.out| + B(RInside(s.r.pc)) <= s.r.wanted
    && (s.r.pc == RIdle && !s.readClosed ==> |s.r.out| == s.r.wanted)
    && (s.r.pc == RCheckPtr ==> s.readClosed)
    && (s.r.failed ==> s.r.pc == RIdle && s.readClosed && |s.r.out| < s.r.wanted)
    && (s.r.pc == RIdle && |s.r.out| < s.r.wanted ==> s.r.failed || s.h.lostR > 0 || LastIsEot(s.r.out))
    && (s.r.pc == RClose1 || s.r.pc == RClose2 || s.r.pc == RClose3 ==> s.r.wanted == 0 || LastIsEot(s.r.out))
  }

  /** Closing the writing end stores an EOT, unless the reading end was closed before; a
      write call that ends with both ends open has written all its bytes. */
  predicate Ended(s: State) {
    && (s.w.closing ==> s.w.buf == [EOT])
    && (s.w.closing && (s.w.written > 0 || WUnsignalled(s.w.pc)) ==> LastIsEot(s.h.stored))
    && (s.w.pc == WEnd ==> s.writeClosed || s.readClosed || s.w.written == |s.w.buf|)
    && (s.writeClosed ==> s.readClosed || LastIsEot(s.h.stored))
  }

  predicate Inv(s: State) {
    && FreeTokens(s) && ByteTokens(s) && Seen(s)
    && SpentFree(s) && SpentBytes(s) && Signalled(s)
    && Counts(s) && Bounds(s) && Closing(s)
    && Pointers(s) && Unread(s) && Delivered(s) && Accepted(s) && Asked(s) && Ended(s)
  }

  ghost predicate Next(s: State, s': State) {
    || (s.w.pc == WIdle && (s' == BeginWriterClose(s) || exists buf :: s' == BeginWrite(s, buf)))
    || (s.r.pc == RIdle && (s' == BeginReaderClose(s) || exists n: nat :: s' == BeginRead(s, n)))
    || (CanStep(s) && (s' == WriterStep(s) || s' == ReaderStep(s)))
  }

  lemma {:induction false} SlotAfter(n: nat, d: nat, size: nat)
    requires 0 < size && d <= size
    ensures Slot(n + d, size) == if Slot(n, size) + d < size then Slot(n, size) + d else Slot(n, size) + d - size
  {
    if d > 0 {
      SlotAfter(n, d - 1, size);
    }
  }

  lemma SlotNext(n: nat, size: nat)
    requires 0 < size
    ensures Slot(n + 1, size) == if Slot(n, size) + 1 == size then 0 else Slot(n, size) + 1
  {
  }

  /** Bytes less than a whole ring apart lie in different slots. */
  lemma SlotsDiffer(i: nat, j: nat, size: nat)
    requires i < j < i + size
    ensures Slot(i, size) != Slot(j, size)
  {
    SlotAfter(i, j - i, size);
  }

  lemma InvCanStep(s: State)
    requires Inv(s)
    ensures CanStep(s)
  {
  }

  lemma WriterKeepsFreeTokens(s: State)
    requires FreeTokens(s) && Seen(s) && CanStep(s)
    ensures FreeTokens(WriterStep(s))
  {
  }

  lemma WriterKeepsByteTokens(s: State)
    requires ByteTokens(s) && Seen(s) && CanStep(s)
    ensures ByteTokens(WriterStep(s))
  {
  }

  lemma WriterKeepsSeen(s: State)
    requires Seen(s) && CanStep(s)
    ensures Seen(WriterStep(s))
  {
  }

  lemma WriterKeepsSpentFree(s: State)
    requires SpentFree(s) && CanStep(s)
    ensures SpentFree(WriterStep(s))
  {
  }

  lemma WriterKeepsSpentBytes(s: State)
    requires SpentBytes(s) && CanStep(s)
    ensures SpentBytes(WriterStep(s))
  {
  }

  lemma WriterKeepsSignalled(s: State)
    requires Signalled(s) && CanStep(s)
    ensures Signalled(WriterStep(s))
  {
  }

  lemma WriterKeepsCounts(s: State)
    requires Counts(s) && CanStep(s)
    ensures Counts(WriterStep(s))
  {
  }

  lemma WriterKeepsBounds(s: State)
    requires FreeTokens(s) && SpentFree(s) && Signalled(s) && Closing(s) && Bounds(s) && CanStep(s)
    ensures Bounds(WriterStep(s))
  {
  }

  lemma WriterKeepsClosing(s: State)
    requires Closing(s) && CanStep(s)
    ensures Closing(WriterStep(s))
  {
  }

  lemma WriterKeepsPointers(s: State)
    requires Pointers(s) && CanStep(s)
    ensures Pointers(WriterStep(s))
  {
    hide Slot;
    if s.h.stored != [] {
      SlotNext(|s.h.stored| - 1, s.size);
    }
  }

  lemma StoreKeepsUnread(s: State)
    requires Pointers(s) && Counts(s) && Bounds(s) && Unread(s) && CanStep(s) && s.w.pc == WStore
    ensures |WriterStep(s).buffer| == s.size && Unread(WriterStep(s))
  {
    hide Slot;
    var n, c := |s.h.stored|, s.w.buf[s.w.written];
    forall k | s.h.consumed <= k < n + 1 ensures s.buffer[s.writePtr := c][Slot(k, s.size)] == (s.h.stored + [c])[k] {
      if k < n {
        assert s.buffer[Slot(k, s.size)] == s.h.stored[k];
        SlotsDiffer(k, n, s.size);
      }
    }
  }

  lemma WriterKeepsUnread(s: State)
    requires Pointers(s) && Counts(s) && Bounds(s) && Unread(s) && CanStep(s)
    ensures |WriterStep(s).buffer| == s.size && Unread(WriterStep(s))
  {
    hide Slot;
    if s.w.pc == WStore {
      StoreKeepsUnread(s);
    }
  }

  lemma WriterKeepsDelivered(s: State)
    requires Delivered(s) && CanStep(s)
    ensures Delivered(WriterStep(s))
  {
  }

  lemma WriterKeepsAccepted(s: State)
    requires Accepted(s) && CanStep(s)
    ensures Accepted(WriterStep(s))
  {
    if s.w.pc == WSignal {
      assert s.w.buf[..s.w.written + 1] == s.w.buf[..s.w.written] + [s.w.buf[s.w.written]];
    }
  }

  lemma ReaderKeepsFreeTokens(s: State)
    requires FreeTokens(s) && Seen(s) && CanStep(s)
    ensures FreeTokens(ReaderStep(s))
  {
  }

  lemma ReaderKeepsByteTokens(s: State)
    requires ByteTokens(s) && Seen(s) && CanStep(s)
    ensures ByteTokens(ReaderStep(s))
  {
  }

  lemma ReaderKeepsSeen(s: State)
    requires Seen(s) && CanStep(s)
    ensures Seen(ReaderStep(s))
  {
  }

  lemma ReaderKeepsSpentFree(s: State)
    requires SpentFree(s) && CanStep(s)
    ensures SpentFree(ReaderStep(s))
  {
  }

  lemma ReaderKeepsSpentBytes(s: State)
    requires SpentBytes(s) && CanStep(s)
    ensures SpentBytes(ReaderStep(s))
  {
  }

  lemma ReaderKeepsSignalled(s: State)
    requires Signalled(s) && CanStep(s)
    ensures Signalled(ReaderStep(s))
  {
  }

  lemma ReaderKeepsCounts(s: State)
    requires Counts(s) && CanStep(s)
    ensures Counts(ReaderStep(s))
  {
  }

  lemma ReaderKeepsBounds(s: State)
    requires ByteTokens(s) && SpentBytes(s) && Counts(s) && Closing(s) && Bounds(s) && CanStep(s)
    ensures Bounds(ReaderStep(s))
  {
  }

  lemma ReaderKeepsClosing(s: State)
    requires Closing(s) && CanStep(s)
    ensures Closing(ReaderStep(s))
  {
  }

  lemma ReaderKeepsPointers(s: State)
    requires Pointers(s) && CanStep(s)
    ensures Pointers(ReaderStep(s))
  {
    hide Slot;
    SlotNext(s.h.consumed, s.size);
  }

  lemma ReaderKeepsUnread(s: State)
    requires Pointers(s) && Unread(s) && CanStep(s)
    ensures |ReaderStep(s).buffer| == s.size && Unread(ReaderStep(s))
  {
    hide Slot;
  }

  /** The byte fetched next is the next one stored. */
  lemma FetchIsNext(s: State)
    requires Pointers(s) && Counts(s) && Bounds(s) && Signalled(s) && Unread(s) && s.r.pc == RFetch
    ensures s.h.consumed < |s.h.stored| && s.buffer[s.readPtr] == s.h.stored[s.h.consumed]
  {
    hide Slot;
    assert s.h.stored[s.h.consumed] == s.buffer[Slot(s.h.consumed, s.size)];
  }

  lemma ReaderKeepsDelivered(s: State)
    requires Pointers(s) && Counts(s) && Bounds(s) && Signalled(s) && Closing(s) && Unread(s) && Delivered(s) && CanStep(s)
    ensures Delivered(ReaderStep(s))
  {
    hide Slot, Unread, Pointers;
    if s.r.pc == RFetch {
      FetchIsNext(s);
    }
  }

  lemma ReaderKeepsAccepted(s: State)
    requires Accepted(s) && CanStep(s)
    ensures Accepted(ReaderStep(s))
  {
  }

  lemma WriterKeepsAsked(s: State)
    requires Asked(s) && CanStep(s)
    ensures Asked(WriterStep(s))
  {
  }

  lemma WriterKeepsEnded(s: State)
    requires Ended(s) && Closing(s) && Accepted(s) && CanStep(s)
    ensures Ended(WriterStep(s))
  {
  }

  lemma WriterKeepsInv(s: State)
    requires Inv(s) && CanStep(s)
    ensures Inv(WriterStep(s))
  {
    hide FreeTokens, ByteTokens, Seen, SpentFree, SpentBytes, Signalled, Counts, Bounds, Closing, Pointers, Unread, Delivered, Accepted, Asked, Ended, WriterStep;
    WriterKeepsFreeTokens(s);
    WriterKeepsByteTokens(s);
    WriterKeepsSeen(s);
    WriterKeepsSpentFree(s);
    WriterKeepsSpentBytes(s);
    WriterKeepsSignalled(s);
    WriterKeepsCounts(s);
    WriterKeepsBounds(s);
    WriterKeepsClosing(s);
    WriterKeepsPointers(s);
    WriterKeepsUnread(s);
    WriterKeepsDelivered(s);
    WriterKeepsAccepted(s);
    WriterKeepsAsked(s);
    WriterKeepsEnded(s);
  }

  lemma ReaderKeepsAsked(s: State)
    requires Asked(s) && Closing(s) && CanStep(s)
    ensures Asked(ReaderStep(s))
  {
  }

  lemma ReaderKeepsEnded(s: State)
    requires Ended(s) && CanStep(s)
    ensures Ended(ReaderStep(s))
  {
  }

  lemma ReaderKeepsInv(s: State)
    requires Inv(s) && CanStep(s)
    ensures Inv(ReaderStep(s))
  {
    hide FreeTokens, ByteTokens, Seen, SpentFree, SpentBytes, Signalled, Counts, Bounds, Closing, Pointers, Unread, Delivered, Accepted, Asked, Ended, ReaderStep;
    ReaderKeepsFreeTokens(s);
    ReaderKeepsByteTokens(s);
    ReaderKeepsSeen(s);
    ReaderKeepsSpentFree(s);
    ReaderKeepsSpentBytes(s);
    ReaderKeepsSignalled(s);
    ReaderKeepsCounts(s);
    ReaderKeepsBounds(s);
    ReaderKeepsClosing(s);
    ReaderKeepsPointers(s);
    ReaderKeepsUnread(s);
    ReaderKeepsDelivered(s);
    ReaderKeepsAccepted(s);
    ReaderKeepsAsked(s);
    ReaderKeepsEnded(s);
  }

  lemma InitInv(s: State)
    requires Init(s)
    ensures Inv(s)
  {
  }

  lemma BeginWriterKeepsInv(s: State, buf: seq<char>, closing: bool)
    requires Inv(s) && s.w.pc == WIdle && (closing ==> buf == [EOT])
    ensures Inv(s.(w := Writer(WTop, buf, 0, closing)))
  {
    hide Slot, Unread;
    var t := s.(w := Writer(WTop, buf, 0, closing));
    assert Accepted(t) by {
      assert s.h.stored == s.h.accepted;
    }
    BeginKeepsUnread(s, t);
  }

  lemma BeginReaderKeepsInv(s: State, r: Reader)
    requires Inv(s) && s.r.pc == RIdle && r.out == [] && !r.failed && (r.pc == RTop || (r.pc == RClose1 && r.wanted == 0))
    ensures Inv(s.(r := r))
  {
    hide Slot, Unread, Accepted;
    ReaderChangeKeepsAccepted(s, r);
    BeginKeepsUnread(s, s.(r := r));
  }

  lemma ReaderChangeKeepsAccepted(s: State, r: Reader)
    requires Accepted(s)
    ensures Accepted(s.(r := r))
  {
  }

  lemma BeginKeepsUnread(s: State, t: State)
    requires 0 < s.size == |s.buffer| && Unread(s)
    requires t.size == s.size && t.buffer == s.buffer && t.h == s.h
    ensures Unread(t)
  {
    hide Slot;
  }

  lemma NextKeepsInv(s: State, s': State)
    requires Inv(s) && Next(s, s')
    ensures Inv(s')
  {
    hide Inv, WriterStep, ReaderStep;
    if CanStep(s) && s' == WriterStep(s) {
      WriterKeepsInv(s);
    } else if CanStep(s) && s' == ReaderStep(s) {
      ReaderKeepsInv(s);
    } else if s.w.pc == WIdle && (s' == BeginWriterClose(s) || exists buf :: s' == BeginWrite(s, buf)) {
      BeginWriterKeepsInv(s, s'.w.buf, s'.w.closing);
    } else {
      BeginReaderKeepsInv(s, s'.r);
    }
  }

  /** A run: any interleaving of the two threads from a freshly created pipe. */
  ghost predicate IsRun(run: seq<State>) {
    && run != [] && Init(run[0])
    && forall i | 0 <= i < |run| - 1 :: Next(run[i], run[i + 1])
  }

  lemma {:induction false} RunInv(run: seq<State>, i: nat)
    requires IsRun(run) && i < |run|
    ensures Inv(run[i])
  {
    hide Inv, Next, Init;
    if i == 0 {
      InitInv(run[0]);
    } else {
      RunInv(run, i - 1);
      assert Next(run[i - 1], run[i - 1 + 1]);
      NextKeepsInv(run[i - 1], run[i]);
    }
  }

  /** Delivery.  At every moment of every run the reader has received a prefix of the
      bytes the writer stored, and those are exactly the bytes the finished write calls
      reported plus the bytes of the call under way; an EOT is the last byte delivered. */
  lemma RunDelivers(run: seq<State>, i: nat)
    requires IsRun(run) && i < |run|
    ensures var s := run[i];
            && s.h.delivered <= s.h.stored
            && s.h.accepted <= s.h.stored <= s.h.accepted + s.w.buf
            && forall k | 0 <= k < |s.h.delivered| && s.h.delivered[k] == EOT :: k == |s.h.delivered| - 1
  {
    RunInv(run, i);
    hide Slot, Unread, Pointers;
    var s := run[i];
    assert Delivered(s) && Accepted(s);
    if WUnsignalled(s.w.pc) {
      assert s.w.buf[..s.w.written] + [s.w.buf[s.w.written]] == s.w.buf[..s.w.written + 1];
    }
  }

  /** The bytes of all write calls begun so far, in order; closing the writing end is the
      call that writes an EOT. */
  ghost function Offered(run: seq<State>, i: nat): seq<char>
    requires i < |run|
  {
    if i == 0 then []
    else Offered(run, i - 1) + if run[i - 1].w.pc == WIdle && run[i].w.pc != WIdle then run[i].w.buf else []
  }

  /** How the bytes accepted stand to the bytes offered. */
  predicate Takes(s: State, offered: seq<char>) {
    && (WInside(s.w.pc) || (!s.writeClosed && !s.readClosed) ==> s.h.accepted + s.w.buf == offered)
    && s.h.stored <= offered
  }

  lemma StoreTakes(s: State, offered: seq<char>)
    requires Takes(s, offered) && Accepted(s) && CanStep(s) && s.w.pc == WStore
    ensures s.h.stored + [s.w.buf[s.w.written]] <= offered
  {
    assert s.h.stored == s.h.accepted + s.w.buf[..s.w.written] + [];
    assert s.h.stored == offered[..|s.h.accepted| + s.w.written];
  }

  lemma WriterTakes(s: State, offered: seq<char>)
    requires Takes(s, offered) && Accepted(s) && Ended(s) && CanStep(s)
    ensures Takes(WriterStep(s), offered)
  {
    if s.w.pc == WStore {
      StoreTakes(s, offered);
    }
    if s.w.pc == WEnd && s.w.written == |s.w.buf| {
      assert s.w.buf[..s.w.written] == s.w.buf;
      assert s.h.accepted + s.w.buf + [] == s.h.accepted + s.w.buf;
    }
  }

  lemma ReaderTakes(s: State, offered: seq<char>)
    requires Takes(s, offered) && CanStep(s)
    ensures Takes(ReaderStep(s), offered) && ReaderStep(s).w == s.w
  {
  }

  lemma BeginTakes(s: State, offered: seq<char>, buf: seq<char>, closing: bool)
    requires Takes(s, offered) && Accepted(s) && s.w.pc == WIdle
    ensures Takes(s.(w := Writer(WTop, buf, 0, closing)), offered + buf)
  {
    assert s.h.accepted + [] == s.h.accepted;
  }

  lemma StepTakes(s: State, s': State, offered: seq<char>)
    requires Accepted(s) && Ended(s) && Takes(s, offered) && Next(s, s')
    ensures Takes(s', offered + if s.w.pc == WIdle && s'.w.pc != WIdle then s'.w.buf else [])
  {
    hide WriterStep, ReaderStep, Takes, Accepted, Ended;
    assert offered + [] == offered;
    if CanStep(s) && s' == WriterStep(s) {
      WriterTakes(s, offered);
      WriterIdles(s);
    } else if CanStep(s) && s' == ReaderStep(s) {
      ReaderTakes(s, offered);
    } else if s.w.pc == WIdle && (s' == BeginWriterClose(s) || exists buf :: s' == BeginWrite(s, buf)) {
      BeginTakes(s, offered, s'.w.buf, s'.w.closing);
    } else {
      BeginsElsewhere(s, s'.r, offered);
    }
  }

  lemma WriterIdles(s: State)
    requires CanStep(s)
    ensures s.w.pc == WIdle ==> WriterStep(s).w.pc == WIdle
  {
  }

  lemma BeginsElsewhere(s: State, r: Reader, offered: seq<char>)
    requires Takes(s, offered)
    ensures Takes(s.(r := r), offered)
  {
  }

  lemma AcceptedIn(s: State)
    requires Inv(s)
    ensures Accepted(s) && Ended(s)
  {
    hide Accepted, Ended;
  }

  /** What the callers give.  At every moment of every run the bytes stored, and so all that
      readers ever receive, are a prefix of the bytes of the write calls, put together in
      order; while both ends are open the calls that ended have written all their bytes. */
  lemma {:induction false} RunAccepts(run: seq<State>, i: nat)
    requires IsRun(run) && i < |run|
    ensures Takes(run[i], Offered(run, i))
    ensures run[i].h.delivered <= run[i].h.stored <= Offered(run, i)
    ensures !run[i].writeClosed && !run[i].readClosed ==> run[i].h.accepted + run[i].w.buf == Offered(run, i)
  {
    hide Inv, Next;
    RunDelivers(run, i);
    if i > 0 {
      RunAccepts(run, i - 1);
      RunInv(run, i - 1);
      AcceptedIn(run[i - 1]);
      assert Next(run[i - 1], run[i - 1 + 1]);
      StepTakes(run[i - 1], run[i], Offered(run, i - 1));
    }
  }

  /** A call that closes the writing end returned with step k. */
  ghost predicate ClosedAt(run: seq<State>, k: nat) {
    k + 1 < |run| && run[k].w.closing && run[k].w.pc != WIdle && run[k + 1].w.pc == WIdle
  }

  lemma WriterCloses(s: State)
    requires CanStep(s)
    ensures s.w.pc != WIdle && WriterStep(s).w.pc == WIdle ==> WriterStep(s).writeClosed == (s.writeClosed || s.w.closing)
    ensures s.w.pc == WIdle || WriterStep(s).w.pc != WIdle ==> WriterStep(s).writeClosed == s.writeClosed
  {
  }

  lemma ReaderLeavesWriter(s: State)
    requires CanStep(s)
    ensures ReaderStep(s).w == s.w && ReaderStep(s).writeClosed == s.writeClosed
  {
  }

  lemma StepCloses(s: State, s': State)
    requires Next(s, s')
    ensures s'.writeClosed <==> s.writeClosed || (s.w.closing && s.w.pc != WIdle && s'.w.pc == WIdle)
  {
    hide WriterStep, ReaderStep;
    if CanStep(s) && s' == WriterStep(s) {
      WriterCloses(s);
    } else if CanStep(s) && s' == ReaderStep(s) {
      ReaderLeavesWriter(s);
    }
  }

  /** The writing end is closed exactly from the return of a call that closes it. */
  lemma {:induction false} RunClosedIff(run: seq<State>, i: nat)
    requires IsRun(run) && i < |run|
    ensures run[i].writeClosed <==> exists k :: 0 <= k < i && ClosedAt(run, k)
  {
    hide Next;
    if i > 0 {
      RunClosedIff(run, i - 1);
      assert Next(run[i - 1], run[i - 1 + 1]);
      StepCloses(run[i - 1], run[i]);
      assert run[i].writeClosed <==> run[i - 1].writeClosed || ClosedAt(run, i - 1);
    }
  }

  /** The buffers that the read calls before the one under way received, in order. */
  ghost function Received(run: seq<State>, i: nat): seq<char>
    requires i < |run|
  {
    if i == 0 then []
    else Received(run, i - 1) + if run[i - 1].r.pc == RIdle && run[i].r.pc != RIdle then run[i - 1].r.out else []
  }

  /** What one step does to the caller's buffer: a new call begins with an empty one, and a
      byte delivered goes to its end. */
  predicate Hands(s: State, s': State) {
    if s.r.pc == RIdle && s'.r.pc != RIdle then s'.r.out == [] && s'.h.delivered == s.h.delivered
    else
      && |s.r.out| <= |s'.r.out| && |s.h.delivered| <= |s'.h.delivered|
      && s'.r.out == s.r.out + s'.h.delivered[|s.h.delivered|..] && s'.h.delivered == s.h.delivered + s'.h.delivered[|s.h.delivered|..]
  }

  lemma WriterHands(s: State)
    requires CanStep(s)
    ensures WriterStep(s).r == s.r && WriterStep(s).h.delivered == s.h.delivered
  {
  }

  lemma ReaderHands(s: State)
    requires CanStep(s)
    ensures Hands(s, ReaderStep(s))
  {
  }

  lemma StepHands(s: State, s': State)
    requires Next(s, s')
    ensures Hands(s, s')
  {
    hide WriterStep, ReaderStep;
    assert s.r.out + [] == s.r.out && s.h.delivered + [] == s.h.delivered;
    if CanStep(s) && s' == WriterStep(s) {
      WriterHands(s);
    } else if CanStep(s) && s' == ReaderStep(s) {
      ReaderHands(s);
    }
  }

  /** What the callers get.  At every moment of every run the buffers of the read calls,
      put together in order, are what was delivered, and so a prefix of the buffers of the
      write calls, put together in order; no call receives more than it asked for, and a call that ends while
      the reading end is open receives exactly that. */
  lemma {:induction false} RunReceives(run: seq<State>, i: nat)
    requires IsRun(run) && i < |run|
    ensures var s := run[i];
            && Received(run, i) + s.r.out == s.h.delivered
            && Received(run, i) + s.r.out <= s.h.accepted + s.w.buf
            && Received(run, i) + s.r.out <= Offered(run, i)
            && |s.r.out| <= s.r.wanted
            && (s.r.pc == RIdle && !s.readClosed ==> |s.r.out| == s.r.wanted)
            && (s.r.pc == RIdle && |s.r.out| < s.r.wanted ==> s.r.failed || s.h.lostR > 0 || LastIsEot(s.r.out))
  {
    hide Inv, Next;
    RunInv(run, i);
    AskedIn(run[i]);
    RunDelivers(run, i);
    RunAccepts(run, i);
    if i == 0 {
      assert [] + run[0].r.out == [];
    } else {
      RunReceives(run, i - 1);
      assert Next(run[i - 1], run[i - 1 + 1]);
      StepHands(run[i - 1], run[i]);
      Regroup(Received(run, i - 1), run[i - 1].r.out, run[i].h.delivered[|run[i - 1].h.delivered|..]);
    }
  }

  lemma AskedIn(s: State)
    requires Inv(s)
    ensures Asked(s)
  {
    hide Asked;
  }

  lemma Regroup(a: seq<char>, b: seq<char>, c: seq<char>)
    ensures (a + b) + c == a + (b + c) && a + [] == a && b + [] == b
  {
  }

  /** The bytes writePtr has passed and readPtr has not. */
  function InRing(s: State): int {
    |s.h.stored| - B(s.w.pc == WInc) - s.h.consumed
  }

  /** The pointers meet when the ring is empty, and also when it is full. */
  lemma PointersMeetIff(s: State)
    requires Pointers(s) && Counts(s) && Bounds(s) && Signalled(s)
    ensures s.readPtr == s.writePtr <==> s.writePtr < s.size && (InRing(s) == 0 || InRing(s) == s.size)
  {
    hide Slot;
    var n := s.h.consumed + InRing(s);
    if 0 <= InRing(s) <= s.size {
      SlotAfter(s.h.consumed, InRing(s), s.size);
    }
    if s.w.pc == WWrap {
      SlotNext(n - 1, s.size);
    }
  }

  lemma FailsIff(s: State, s': State)
    requires Asked(s) && Next(s, s')
    ensures s.r.pc == RCheckPtr && s'.r.pc != RCheckPtr ==> s.readClosed && (s'.r.failed <==> s.readPtr == s.writePtr)
    ensures !s.r.failed && s'.r.failed ==> s.r.pc == RCheckPtr
  {
    hide WriterStep;
    if CanStep(s) && s' == WriterStep(s) {
      WriterHands(s);
    }
  }

  /** A read call reports an error exactly if it wants more, finds the reading end closed,
      and then the ring empty or full: the look at the pointers cannot tell these apart. */
  lemma RunFailsIff(run: seq<State>, i: nat)
    requires IsRun(run) && i + 1 < |run|
    ensures var s, s' := run[i], run[i + 1];
            && (s.r.pc == RCheckPtr && s'.r.pc != RCheckPtr ==>
                  s.readClosed && (s'.r.failed <==> s.writePtr < s.size && (InRing(s) == 0 || InRing(s) == s.size)))
            && (!s.r.failed && s'.r.failed ==> s.r.pc == RCheckPtr)
  {
    hide Inv, Next, Init;
    RunInv(run, i);
    RingIn(run[i]);
    FailsIff(run[i], run[i + 1]);
    PointersMeetIff(run[i]);
  }

  lemma RingIn(s: State)
    requires Inv(s)
    ensures Pointers(s) && Counts(s) && Bounds(s) && Signalled(s) && Asked(s)
  {
    hide Pointers, Counts, Bounds, Signalled, Asked;
  }

  /** Nothing is lost: once both threads are between calls and no byte is readable, all
      bytes that were reported as written have been delivered. */
  lemma RunDrains(run: seq<State>, i: nat)
    requires IsRun(run) && i < |run|
    requires run[i].w.pc == WIdle && run[i].r.pc == RIdle && !run[i].readClosed && run[i].readLock == 0
    ensures run[i].h.delivered == run[i].h.accepted
  {
    RunInv(run, i);
    hide Slot, Unread;
  }

  /** Tokens held by a thread between taking one counter and adding to the other. */
  function InFlight(s: State): nat {
    B(WHolds(s.w.pc)) + B(WUnsignalled(s.w.pc)) + B(RHolds(s.r.pc)) + B(s.r.pc == RFree)
  }

  /** Conservation.  Until the reading end is closed no token is created or lost; after
      that the surplus is what closing added, one for each side, less what the closed ends
      dropped. */
  lemma RunConservesTokens(run: seq<State>, i: nat)
    requires IsRun(run) && i < |run|
    ensures var s := run[i];
            && s.readLock + s.writeLock + InFlight(s) + s.h.lostW + s.h.lostR == s.size + s.h.bonusW + s.h.bonusR
            && (!s.readClosed ==> s.readLock + s.writeLock + InFlight(s) == s.size)
            && (s.readClosed && s.r.pc != RClose2 && s.r.pc != RClose3 ==> s.h.bonusW == s.h.bonusR > 0)
  {
    RunInv(run, i);
    hide Slot, Unread, Pointers, Delivered, Accepted;
  }

  /** Taking a token never underflows its counter although the test and the subtraction
      are separate accesses. */
  lemma RunNeverUnderflows(run: seq<State>, i: nat)
    requires IsRun(run) && i < |run|
    ensures run[i].w.pc == WSub ==> FetchSub(run[i].writeLock) == run[i].writeLock - 1
    ensures run[i].r.pc == RSub ==> FetchSub(run[i].readLock) == run[i].readLock - 1
  {
    RunInv(run, i);
    hide Slot, Unread, Pointers, Delivered, Accepted, Closing, Bounds;
  }

  /** The slot about to be stored into holds no unread byte, and the slot about to be
      fetched holds the next undelivered one. */
  lemma RunNeverOverwrites(run: seq<State>, i: nat)
    requires IsRun(run) && i < |run|
    ensures var s := run[i];
            && 0 < s.size
            && (s.w.pc == WStore ==> s.writePtr < |s.buffer| && forall k | s.h.consumed <= k < |s.h.stored| :: Slot(k, s.size) != s.writePtr)
            && (s.r.pc == RFetch ==> s.readPtr < |s.buffer| && |s.h.delivered| < |s.h.stored| && s.buffer[s.readPtr] == s.h.stored[|s.h.delivered|])
  {
    RunInv(run, i);
    var s := run[i];
    hide Slot;
    if s.w.pc == WStore {
      forall k | s.h.consumed <= k < |s.h.stored| ensures Slot(k, s.size) != s.writePtr {
        SlotsDiffer(k, |s.h.stored|, s.size);
      }
    }
    if s.r.pc == RFetch {
      FetchIsNext(s);
    }
  }

  predicate WriterBlocked(s: State) {
    s.w.pc == WLoad && s.writeLock == 0
  }

  predicate ReaderBlocked(s: State) {
    s.r.pc == RLoad && s.readLock == 0
  }

  /** No deadlock: the two threads never wait for each other, and a writer never waits
      once closing the reading end has given it its bonus token. */
  lemma RunNeverDeadlocks(run: seq<State>, i: nat)
    requires IsRun(run) && i < |run|
    ensures !(WriterBlocked(run[i]) && ReaderBlocked(run[i]))
    ensures run[i].readClosed && run[i].r.pc != RClose2 ==> !WriterBlocked(run[i])
  {
    RunInv(run, i);
    hide Slot, Unread, Pointers, Delivered, Accepted;
  }

  lemma EndIsThere(s: State)
    requires Ended(s) && Delivered(s) && Counts(s) && SpentBytes(s) && ByteTokens(s) && Signalled(s) && Closing(s)
    requires s.writeClosed && !s.readClosed && s.w.pc == WIdle && s.r.pc == RLoad
    ensures s.readLock == |s.h.stored| - |s.h.delivered| > 0
  {
  }

  /** A reader does not wait for good once the writing end is closed: with the reading end
      still open, an EOT is stored last and not yet delivered. */
  lemma RunEndArrives(run: seq<State>, i: nat)
    requires IsRun(run) && i < |run| && run[i].writeClosed && !run[i].readClosed && run[i].w.pc == WIdle
    ensures LastIsEot(run[i].h.accepted) && !ReaderBlocked(run[i])
  {
    RunInv(run, i);
    hide Slot, Unread, Pointers, Delivered, IsRun;
    if run[i].r.pc == RLoad {
      EndIsThere(run[i]);
    }
  }

  /** One step only ever appends to what was delivered and stored; once the reading end
      is closed nothing is delivered any more. */
  ghost predicate Appends(s: State, s': State) {
    && s.h.delivered <= s'.h.delivered && s.h.stored <= s'.h.stored
    && (s.readClosed ==> s'.readClosed && s'.h.delivered == s.h.delivered)
  }

  lemma WriterAppends(s: State)
    requires CanStep(s)
    ensures Appends(s, WriterStep(s))
  {
  }

  lemma ReaderAppends(s: State)
    requires CanStep(s) && Closing(s)
    ensures Appends(s, ReaderStep(s))
  {
  }

  lemma StepAppends(s: State, s': State)
    requires Inv(s) && Next(s, s')
    ensures Appends(s, s')
  {
    hide Inv, WriterStep, ReaderStep;
    InvCloses(s);
    if CanStep(s) && s' == WriterStep(s) {
      WriterAppends(s);
    } else if CanStep(s) && s' == ReaderStep(s) {
      ReaderAppends(s);
    }
  }

  lemma InvCloses(s: State)
    requires Inv(s)
    ensures Closing(s)
  {
    hide Closing;
  }

  /** A writer that has not passed its second look at the flags does not pass it any more,
      and one that has can only store its byte. */
  lemma WriterStores(s: State)
    requires CanStep(s) && s.readClosed
    ensures |WriterStep(s).h.stored| + B(WriterStep(s).w.pc == WStore) == |s.h.stored| + B(s.w.pc == WStore)
  {
  }

  lemma ReaderStores(s: State)
    requires CanStep(s)
    ensures ReaderStep(s).h.stored == s.h.stored && ReaderStep(s).w == s.w
  {
  }

  lemma StepStores(s: State, s': State)
    requires Next(s, s') && s.readClosed
    ensures |s'.h.stored| + B(s'.w.pc == WStore) == |s.h.stored| + B(s.w.pc == WStore)
  {
    hide WriterStep, ReaderStep;
    if CanStep(s) && s' == WriterStep(s) {
      WriterStores(s);
    } else if CanStep(s) && s' == ReaderStep(s) {
      ReaderStores(s);
    }
  }

  /** After the reading end is closed no run delivers another byte, and the bonus tokens
      let no write store one, except the byte of a writer that already stood at its store:
      that byte goes into its slot as soon as the writer has moved on. */
  lemma {:induction false} RunSilentAfterClose(run: seq<State>, i: nat, j: nat)
    requires IsRun(run) && i <= j < |run| && run[i].readClosed
    ensures run[j].readClosed && run[j].h.delivered == run[i].h.delivered
    ensures run[i].h.stored <= run[j].h.stored
    ensures |run[j].h.stored| + B(run[j].w.pc == WStore) == |run[i].h.stored| + B(run[i].w.pc == WStore)
    decreases j - i
  {
    hide Inv, Next, Init;
    if i < j {
      RunSilentAfterClose(run, i, j - 1);
      RunInv(run, j - 1);
      assert Next(run[j - 1], run[j - 1 + 1]);
      StepAppends(run[j - 1], run[j]);
      StepStores(run[j - 1], run[j]);
    }
  }

  // ----- calls on a closed pipe -------------------------------------------------------

  /** A writer between calls, at the head of its loop or leaving, with an end closed. */
  predicate Refused(s: State) {
    (s.writeClosed || s.readClosed) && (s.w.pc == WIdle || s.w.pc == WTop || s.w.pc == WEnd)
  }

  /** A reader between calls or about to leave one, with the reading end closed, nothing in
      the ring, and no writer about to put something in. */
  predicate Exhausted(s: State) {
    && s.readClosed && s.readPtr == s.writePtr && s.w.pc != WStore && s.w.pc != WInc && s.w.pc != WWrap
    && s.r.pc != RLoad && s.r.pc != RSub && s.r.pc != RRecheck && s.r.pc != RFetch && s.r.pc != RFree
  }

  predicate StaysShut(s: State, s': State) {
    && (Refused(s) ==> Refused(s') && s'.h.takenW == s.h.takenW)
    && (Exhausted(s) ==> Exhausted(s') && s'.h.takenR == s.h.takenR)
  }

  lemma WriterStaysShut(s: State)
    requires CanStep(s)
    ensures StaysShut(s, WriterStep(s))
  {
  }

  lemma ReaderStaysShut(s: State)
    requires CanStep(s)
    ensures StaysShut(s, ReaderStep(s))
  {
  }

  lemma StepStaysShut(s: State, s': State)
    requires Next(s, s')
    ensures StaysShut(s, s')
  {
    hide WriterStep, ReaderStep;
    if CanStep(s) && s' == WriterStep(s) {
      WriterStaysShut(s);
    } else if CanStep(s) && s' == ReaderStep(s) {
      ReaderStaysShut(s);
    }
  }

  /** Calls on a closed pipe return: in no run does a writer that finds an end closed at the
      head of its loop take a token or wait any more, nor a reader that finds the reading
      end closed and the ring empty. */
  lemma {:induction false} RunStaysShut(run: seq<State>, i: nat, j: nat)
    requires IsRun(run) && i <= j < |run|
    ensures Refused(run[i]) ==> Refused(run[j]) && run[j].h.takenW == run[i].h.takenW
    ensures Exhausted(run[i]) ==> Exhausted(run[j]) && run[j].h.takenR == run[i].h.takenR
    decreases j - i
  {
    hide Next, Init, Refused, Exhausted;
    if i < j {
      RunStaysShut(run, i, j - 1);
      assert Next(run[j - 1], run[j - 1 + 1]);
      StepStaysShut(run[j - 1], run[j]);
    }
  }
}
