/** The pipe object itself: an array used as a ring, two pointers, two closed flags and
    two token counters, changed in place one access at a time. */
module SharedPipe {
  import opened Pipe

  class PipeObject {
    const size: nat
    const buffer: array<char>
    var writePtr: nat
    var readPtr: nat
    var writeClosed: bool
    var readClosed: bool
    var readLock: nat
    var writeLock: nat
    var w: Writer            // registers of the writing thread
    var r: Reader            // registers of the reading thread
    ghost var h: History

    /** The state this object is in. */
    ghost function Abs(): State
      reads this, buffer
    {
      State(size, buffer[..], writePtr, readPtr, writeClosed, readClosed, readLock, writeLock, w, r, h)
    }

    constructor (size: nat)
      requires 0 < size
      ensures Init(Abs()) && this.size == size && fresh(buffer)
    {
      this.size := size;
      buffer := new char[size](_ => ' ');
      writePtr, readPtr := 0, 0;
      writeClosed, readClosed := false, false;
      readLock, writeLock := 0, size;
      w := Writer(WIdle, [], 0, false);
      r := Reader(RIdle, 0, [], ' ', false);
      h := History([], [], [], 0, 0, 0, 0, 0, 0, 0, 0, 0);
    }

    /** The accesses that put a byte into the ring. */
    method WriterStores()
      requires CanStep(Abs()) && w.pc in {WStore, WInc, WWrap, WSignal}
      modifies this, buffer
      ensures Abs() == WriterStep(old(Abs()))
    {
      match w.pc {
        case WStore =>
          buffer[writePtr] := w.buf[w.written];
          h := h.(stored := h.stored + [w.buf[w.written]]);
          w := w.(pc := WInc);
        case WInc =>
          writePtr := writePtr + 1;
          w := w.(pc := WWrap);
        case WWrap =>
          if writePtr == size {
            writePtr := 0;
          }
          w := w.(pc := WSignal);
        case WSignal =>
          readLock := readLock + 1;
          h := h.(signalled := h.signalled + 1);
          w := w.(pc := WTop, written := w.written + 1);
        case _ => assert false;
      }
    }

    /** The writing thread performs one access. */
    method WriterAccess()
      requires CanStep(Abs())
      modifies this, buffer
      ensures Abs() == WriterStep(old(Abs()))
    {
      match w.pc {
        case WIdle =>
        case WTop =>
          w := w.(pc := if w.written < |w.buf| && !(writeClosed || readClosed) then WLoad else WEnd);
        case WLoad =>
          if writeLock != 0 {
            w := w.(pc := WSub);
          }
        case WSub =>
          writeLock := FetchSub(writeLock);
          h := h.(takenW := h.takenW + 1);
          w := w.(pc := WRecheck);
        case WRecheck =>
          if writeClosed || readClosed {
            h := h.(lostW := h.lostW + 1);
            w := w.(pc := WEnd);
          } else {
            w := w.(pc := WStore);
          }
        case WStore => WriterStores();
        case WInc => WriterStores();
        case WWrap => WriterStores();
        case WSignal => WriterStores();
        case WEnd =>
          writeClosed := writeClosed || w.closing;
          h := h.(accepted := h.accepted + w.buf[..w.written]);
          w := Writer(WIdle, [], 0, false);
      }
    }

    /** The accesses from handing out a byte to closing the reading end. */
    method ReaderCloses()
      requires CanStep(Abs()) && r.pc in {RFree, RClose1, RClose2, RClose3}
      modifies this
      ensures Abs() == ReaderStep(old(Abs()))
    {
      match r.pc {
        case RFree =>
          writeLock := writeLock + 1;
          h := h.(freed := h.freed + 1, delivered := h.delivered + [r.val]);
          r := r.(pc := if r.val == EOT then RClose1 else RTop, out := r.out + [r.val]);
        case RClose1 =>
          readClosed := true;
          r := r.(pc := RClose2);
        case RClose2 =>
          writeLock := writeLock + 1;
          h := h.(bonusW := h.bonusW + 1);
          r := r.(pc := RClose3);
        case RClose3 =>
          readLock := readLock + 1;
          h := h.(bonusR := h.bonusR + 1);
          r := r.(pc := RIdle);
        case _ => assert false;
      }
    }

    /** The reading thread performs one access. */
    method ReaderAccess()
      requires CanStep(Abs())
      modifies this
      ensures Abs() == ReaderStep(old(Abs()))
    {
      match r.pc {
        case RIdle =>
        case RTop =>
          r := r.(pc := if |r.out| >= r.wanted then RIdle else if readClosed then RCheckPtr else RLoad);
        case RCheckPtr =>
          r := if readPtr == writePtr then r.(pc := RIdle, failed := true) else r.(pc := RLoad);
        case RLoad =>
          if readLock != 0 {
            r := r.(pc := RSub);
          }
        case RSub =>
          readLock := FetchSub(readLock);
          h := h.(takenR := h.takenR + 1);
          r := r.(pc := RRecheck);
        case RRecheck =>
          if readClosed {
            h := h.(lostR := h.lostR + 1);
            r := r.(pc := RIdle);
          } else {
            r := r.(pc := RFetch);
          }
        case RFetch =>
          r := r.(pc := RFree, val := buffer[readPtr]);
          readPtr := readPtr + 1;
          if readPtr >= size {
            readPtr := 0;
          }
          h := h.(consumed := h.consumed + 1);
        case RFree => ReaderCloses();
        case RClose1 => ReaderCloses();
        case RClose2 => ReaderCloses();
        case RClose3 => ReaderCloses();
      }
    }

    /** Calls begin while their thread is idle. */
    method BeginCall(write: bool, close: bool, bytes: seq<char>, wanted: nat)
      modifies this
      ensures Abs() == (if write && old(w).pc == WIdle then (if close then BeginWriterClose(old(Abs())) else BeginWrite(old(Abs()), bytes))
                        else if !write && old(r).pc == RIdle then (if close then BeginReaderClose(old(Abs())) else BeginRead(old(Abs()), wanted))
                        else old(Abs()))
    {
      if write && w.pc == WIdle {
        w := Writer(WTop, if close then [EOT] else bytes, 0, close);
      } else if !write && r.pc == RIdle {
        r := r.(pc := if close then RClose1 else RTop, wanted := if close then 0 else wanted, out := [], failed := false);
      }
    }

    /** Performs a schedule of accesses and calls.  The states the pipe goes through are a
        run of the protocol, so whatever holds of runs holds of them. */
    method Run(schedule: seq<Action>) returns (ghost run: seq<State>)
      requires Inv(Abs())
      modifies this, buffer
      ensures Inv(Abs()) && Abs() == After(old(Abs()), schedule)
      ensures IsPath(run) && run[0] == old(Abs()) && run[|run| - 1] == Abs()
    {
      hide Inv, WriterStep, ReaderStep, After, Acted;
      run := [Abs()];
      NothingDone(Abs());
      assert schedule[..0] == [];
      for i := 0 to |schedule|
        invariant Inv(Abs()) && Abs() == After(old(Abs()), schedule[..i])
        invariant IsPath(run) && run[0] == old(Abs()) && run[|run| - 1] == Abs()
      {
        ghost var before := Abs();
        Act(schedule[i]);
        OneMoreDone(old(Abs()), schedule, i);
        if Abs() != before {
          NextKeepsInv(before, Abs());
          run := run + [Abs()];
        }
      }
      assert schedule[..|schedule|] == schedule;
    }

    method Act(action: Action)
      requires Inv(Abs())
      modifies this, buffer
      ensures Abs() == Acted(old(Abs()), action)
      ensures Abs() != old(Abs()) ==> Next(old(Abs()), Abs())
    {
      hide Inv, WriterStep, ReaderStep;
      InvCanStep(Abs());
      match action {
        case WriterMoves => WriterAccess();
        case ReaderMoves => ReaderAccess();
        case Call(write, close, bytes, wanted) => BeginCall(write, close, bytes, wanted);
      }
    }
  }

  datatype Action = WriterMoves | ReaderMoves | Call(write: bool, close: bool, bytes: seq<char>, wanted: nat)

  /** What an action makes of a state: a thread moves on, or a call begins if its thread is
      between calls. */
  function Acted(s: State, action: Action): State {
    match action
    case WriterMoves => if CanStep(s) then WriterStep(s) else s
    case ReaderMoves => if CanStep(s) then ReaderStep(s) else s
    case Call(write, close, bytes, wanted) =>
      if write && s.w.pc == WIdle then (if close then BeginWriterClose(s) else BeginWrite(s, bytes))
      else if !write && s.r.pc == RIdle then (if close then BeginReaderClose(s) else BeginRead(s, wanted))
      else s
  }

  function After(s: State, schedule: seq<Action>): State {
    if schedule == [] then s else Acted(After(s, schedule[..|schedule| - 1]), schedule[|schedule| - 1])
  }

  lemma NothingDone(s: State)
    ensures After(s, []) == s
  {
  }

  lemma OneMoreDone(s: State, schedule: seq<Action>, i: nat)
    requires i < |schedule|
    ensures After(s, schedule[..i + 1]) == Acted(After(s, schedule[..i]), schedule[i])
  {
    hide Acted;
    assert schedule[..i + 1][..i] == schedule[..i];
  }

  /** States that follow one another. */
  ghost predicate IsPath(run: seq<State>) {
    run != [] && forall i | 0 <= i < |run| - 1 :: Next(run[i], run[i + 1])
  }

  /** A new pipe and any schedule: what its read calls received, put together, is a prefix of
      what its write calls were given. */
  method Session(size: nat, schedule: seq<Action>) returns (pipe: PipeObject, ghost run: seq<State>)
    requires 0 < size
    ensures fresh(pipe) && IsRun(run) && run[|run| - 1] == pipe.Abs() == After(run[0], schedule)
    ensures Received(run, |run| - 1) + pipe.r.out <= Offered(run, |run| - 1)
  {
    hide Inv, Next, Init, After;
    pipe := new PipeObject(size);
    InitInv(pipe.Abs());
    run := pipe.Run(schedule);
    RunReceives(run, |run| - 1);
  }
}
