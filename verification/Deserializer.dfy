/**
 * The deserializer object: the peek machinery over the caller's buffer and the pending cache.
 *
 * The suspended coroutine is the field `cont`; what a peek returns is the window itself.
 * The asserts inside the methods are the debug assertions of the program, so none can fire.
 */
module Deserialization {
  import opened Bytes
  import opened Options
  import opened Protocol
  import opened PeekMachine
  import opened Slicing

  class Deserializer {
    const verdict: Verdict
    const pendingBuffer: array<Byte>

    var discardMode: bool
    var awaitingFieldFirstByte: bool
    var pendingBytes: nat
    var requestedBytes: nat
    /** The chunk being fed, if any was fed yet, and the position in it. */
    var hasInput: bool
    var input: seq<Byte>
    var cursor: nat
    var cont: Cont
    /** The callbacks made so far. */
    var log: seq<Event>

    ghost predicate Valid()
      reads this, pendingBuffer
    {
      && pendingBuffer.Length == BUFFER_SIZE
      && pendingBytes <= requestedBytes <= BUFFER_SIZE
      && cursor <= |input|
      && (!hasInput ==> input == [])
    }

    /** The bytes not yet consumed. */
    ghost function Ahead(): (u: seq<Byte>)
      requires Valid()
      reads this, pendingBuffer
      ensures |u| == pendingBytes + (|input| - cursor)
    {
      pendingBuffer[..pendingBytes] + input[cursor..]
    }

    /** No window is being cached, or a whole one is. */
    ghost predicate Whole()
      reads this
    {
      pendingBytes == 0 || pendingBytes == requestedBytes
    }

    /** The requested window is there. */
    ghost predicate Ready()
      reads this, pendingBuffer
    {
      && Valid() && Whole()
      && cont.Sane() && 0 < requestedBytes == cont.Size() <= |Ahead()|
      && (awaitingFieldFirstByte <==> cont.FirstByte?)
    }

    /** Between calls: everything fed is consumed or cached, and the request is still open. */
    ghost predicate Suspended()
      reads this, pendingBuffer
    {
      && Valid()
      && cont.Sane() && requestedBytes == cont.Size() && pendingBytes < requestedBytes
      && cursor == |input|
      && (awaitingFieldFirstByte <==> cont.FirstByte?)
      && (discardMode ==> cont.FirstByte?)
    }

    ghost function View(): (m: Machine)
      requires Valid()
      reads this, pendingBuffer
    {
      Machine(cont, pendingBuffer[..pendingBytes], discardMode, log)
    }

    constructor (verdict: Verdict)
      ensures fresh(pendingBuffer) && this.verdict == verdict
      ensures Suspended() && View() == Between([])
    {
      this.verdict := verdict;
      pendingBuffer := new Byte[BUFFER_SIZE];
      discardMode, awaitingFieldFirstByte := false, true;
      pendingBytes, requestedBytes := 0, 0;
      hasInput, input, cursor := false, [], 0;
      cont, log := FirstByte, [];
      new;
      var ready := Peek(FirstByte.Size());
    }

    method Feed(buffer: seq<Byte>)
      requires Suspended()
      modifies this, pendingBuffer
      ensures Suspended()
      ensures View() == PeekMachine.Feed(verdict, old(View()), buffer)
    {
      assert requestedBytes != 0;
      assert pendingBytes < requestedBytes;
      if buffer == [] || discardMode {
        return;
      }
      ghost var goal := Drive(verdict, cont, View().held + buffer, log);
      hasInput, input, cursor := true, buffer, 0;
      if pendingBytes == 0 && |buffer| >= requestedBytes {
        Run(goal);
        return;
      }
      var required := requestedBytes - pendingBytes;
      var sufficient := |buffer| >= required;
      CopyIn(if sufficient then required else |buffer|);
      if sufficient {
        Run(goal);
      }
    }

    method FinishTransfer()
      requires Suspended()
      modifies this, pendingBuffer
      ensures Suspended()
      ensures View() == PeekMachine.Finish(old(View()))
    {
      if awaitingFieldFirstByte {
        discardMode := false;
        return;
      }
      discardMode := true;
      Cancel();
      discardMode := false;
      assert awaitingFieldFirstByte;
    }

    // -------------------------------------------------------------------------------------
    // Resuming the coroutine

    /** Runs the coroutine from a satisfied peek until a peek suspends it. */
    method Run(ghost goal: Machine)
      requires Ready() && !discardMode
      requires goal == Drive(verdict, cont, Ahead(), log)
      modifies this, pendingBuffer
      ensures Suspended() && View() == goal
    {
      var ready := true;
      while ready
        invariant !ready ==> Suspended() && View() == goal
        invariant ready ==> Ready() && !discardMode && goal == Drive(verdict, cont, Ahead(), log)
        decreases ready, if ready then |Ahead()| else 0, cont.Rank()
      {
        ready := Step(goal);
      }
    }

    /** One stretch of the coroutine, from a peek that returned to the next peek. */
    method Step(ghost goal: Machine) returns (ready: bool)
      requires Ready() && !discardMode
      requires goal == Drive(verdict, cont, Ahead(), log)
      modifies this, pendingBuffer
      ensures !ready ==> Suspended() && View() == goal
      ensures ready ==> Ready() && !discardMode && goal == Drive(verdict, cont, Ahead(), log)
      ensures ready ==>
                || |Ahead()| < old(|Ahead()|)
                || (|Ahead()| == old(|Ahead()|) && cont.Rank() < old(cont.Rank()))
    {
      hide Drive, Resume, Refused;
      var window := AwaitResume();
      DriveStep(verdict, cont, Ahead(), log);
      match Resume(cont, window.value) {
        case Fail =>
          EnterDiscardMode();
          ready := AwaitFieldFirstByte();
        case Go(used, next) =>
          if used == requestedBytes {
            ConsumePeeked();
          } else if used > 0 {
            ConsumePeekedPartial(used);
          }
          cont, awaitingFieldFirstByte := next, false;
          ready := Peek(next.Size());
        case Deliver(ev) =>
          ConsumePeeked();
          var refused := Refused(verdict, log, ev);
          log := log + [ev];
          if refused {
            EnterDiscardMode();
          }
          ready := AwaitFieldFirstByte();
      }
      DriveStep(verdict, cont, Ahead(), log);
    }

    /** A peek that discard mode cancels returns nothing, and the field is given up. */
    method Cancel()
      requires Valid() && discardMode && requestedBytes > 0 && cursor == |input|
      modifies this, pendingBuffer
      ensures Suspended() && View() == Discarding(old(log))
    {
      var window := AwaitResume();
      assert window == None;
      EnterDiscardMode();
      var ready := AwaitFieldFirstByte();
    }

    method AwaitFieldFirstByte() returns (ready: bool)
      requires Valid() && pendingBytes == requestedBytes == 0
      requires discardMode ==> cursor == |input|
      modifies this, pendingBuffer
      ensures cont == FirstByte && log == old(log) && discardMode == old(discardMode)
      ensures Valid() && Ahead() == old(Ahead())
      ensures ready <==> Ahead() != []
      ensures if ready then Ready() else Suspended() && View().held == []
    {
      assert pendingBytes == 0 && requestedBytes == 0;
      cont, awaitingFieldFirstByte := FirstByte, true;
      ready := Peek(FirstByte.Size());
    }

    // -------------------------------------------------------------------------------------
    // The peek machinery

    method Peek(size: nat) returns (ready: bool)
      requires Valid() && Whole()
      requires 0 < size <= BUFFER_SIZE && size >= requestedBytes
      modifies `pendingBytes, `requestedBytes, `cursor, pendingBuffer
      ensures Valid() && requestedBytes == size && Ahead() == old(Ahead())
      ensures ready <==> |Ahead()| >= size
      ensures ready ==> Whole()
      ensures !ready ==> cursor == |input| && pendingBuffer[..pendingBytes] == Ahead()
    {
      assert size != 0;
      assert size <= pendingBuffer.Length;
      assert size >= requestedBytes;
      requestedBytes := size;

      assert !hasInput || |input| >= cursor;
      var remaining := if hasInput then |input| - cursor else 0;
      assert requestedBytes >= pendingBytes;
      if pendingBytes == 0 && remaining >= requestedBytes {
        return true;
      }
      if pendingBytes + remaining < requestedBytes {
        if remaining > 0 {
          CopyIn(remaining);
        }
        cursor := |input|;
        return false;
      }
      assert pendingBytes != 0;
      var required := requestedBytes - pendingBytes;
      if required > 0 {
        assert hasInput;
        CopyIn(required);
      }
      return true;
    }

    /** Moves the next n bytes of the input to the end of the pending cache. */
    method CopyIn(n: nat)
      requires Valid() && n <= |input| - cursor && pendingBytes + n <= requestedBytes
      modifies `pendingBytes, `cursor, pendingBuffer
      ensures Valid() && Ahead() == old(Ahead())
      ensures pendingBytes == old(pendingBytes) + n && cursor == old(cursor) + n
    {
      ghost var cached := pendingBuffer[..pendingBytes];
      var at := pendingBytes;
      forall i | 0 <= i < n {
        pendingBuffer[at + i] := input[cursor + i];
      }
      assert pendingBuffer[..at + n] == cached + input[cursor..cursor + n];
      pendingBytes := pendingBytes + n;
      cursor := cursor + n;
    }

    method AwaitResume() returns (window: Option<seq<Byte>>)
      requires Valid() && requestedBytes > 0
      requires !discardMode ==> Whole() && requestedBytes <= |Ahead()|
      ensures window == if discardMode then None else Some(Ahead()[..requestedBytes])
    {
      assert requestedBytes != 0;
      if discardMode {
        return None;
      }
      if pendingBytes != 0 {
        assert pendingBytes == requestedBytes;
        return Some(pendingBuffer[..requestedBytes]);
      }
      assert hasInput;
      assert |input| - cursor >= requestedBytes;
      assert Ahead() == input[cursor..];
      assert input[cursor..][..requestedBytes] == input[cursor..cursor + requestedBytes];
      return Some(input[cursor..cursor + requestedBytes]);
    }

    method ConsumePeeked()
      requires Valid() && Whole() && 0 < requestedBytes <= |Ahead()|
      modifies `pendingBytes, `requestedBytes, `cursor
      ensures Valid() && pendingBytes == requestedBytes == 0
      ensures Ahead() == old(Ahead())[old(requestedBytes)..]
    {
      assert requestedBytes != 0;
      if pendingBytes != 0 {
        assert pendingBytes == requestedBytes;
        pendingBytes := 0;
      } else {
        cursor := cursor + requestedBytes;
      }
      requestedBytes := 0;
    }

    method ConsumePeekedPartial(n: nat)
      requires Valid() && Whole() && n < requestedBytes <= |Ahead()|
      modifies `pendingBytes, `requestedBytes, `cursor, pendingBuffer
      ensures Valid() && Whole() && requestedBytes == old(requestedBytes) - n
      ensures Ahead() == old(Ahead())[n..]
    {
      assert requestedBytes != 0;
      assert n < requestedBytes;
      if pendingBytes != 0 {
        assert pendingBytes == requestedBytes;
        ghost var cached := pendingBuffer[..pendingBytes];
        forall i | 0 <= i < requestedBytes - n {
          pendingBuffer[i] := pendingBuffer[i + n];
        }
        pendingBytes := pendingBytes - n;
        assert pendingBuffer[..pendingBytes] == cached[n..];
      } else {
        cursor := cursor + n;
      }
      requestedBytes := requestedBytes - n;
    }

    method EnterDiscardMode()
      requires Valid()
      modifies `log, `pendingBytes, `requestedBytes, `cursor, `discardMode
      ensures Valid() && pendingBytes == requestedBytes == 0 && cursor == |input| && discardMode
      ensures log == old(log) + [Error]
    {
      log := log + [Error];
      pendingBytes, requestedBytes := 0, 0;
      cursor := |input|;
      discardMode := true;
    }
  }
}
