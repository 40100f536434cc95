/** One end of the stream, updating its own fields, its slots and the image bytes in place. */
module PdStreamEndpoint {
  import opened Bytes
  import opened PdStream

  /** A bounded byte queue: all-or-nothing push, pop of up to n octets from the front. */
  class ByteRing {
    const capacity: nat
    var contents: seq<Byte>

    constructor (capacity: nat)
      ensures this.capacity == capacity && contents == []
    {
      this.capacity := capacity;
      contents := [];
    }

    predicate HasRoom(n: nat)
      reads this
    {
      |contents| + n <= capacity
    }

    method TryPush(data: seq<Byte>) returns (ok: bool)
      modifies this
      ensures ok == old(HasRoom(|data|))
      ensures contents == if ok then old(contents) + data else old(contents)
    {
      ok := HasRoom(|data|);
      if ok {
        contents := contents + data;
      }
    }

    method Pop(n: nat) returns (data: seq<Byte>)
      modifies this
      ensures data == Front(old(contents), n) && contents == old(contents)[|data|..]
    {
      data := Front(contents, n);
      contents := contents[|data|..];
    }
  }

  function Front(s: seq<Byte>, n: nat): (front: seq<Byte>)
    ensures |front| == if |s| < n then |s| else n
    ensures front <= s
  {
    if |s| < n then s else s[..n]
  }

  /** Slot memory: `payload` always spans the full chunk, of which the first `len` octets count. */
  datatype SlotMemory = SlotMemory(seqNo: Byte, len: nat, payload: seq<Byte>) {
    function View(): Slot
      requires len <= |payload|
    {
      Slot(seqNo, payload[..len])
    }
  }

  class PdStreamEndpoint {
    const payloadSize: nat
    var rxAck: Byte
    var txSeq: Byte
    var peerAck: Byte
    var head: nat
    var count: nat
    var sendOffset: nat
    var stall: nat
    var mayStage: bool
    const slots: array<SlotMemory>

    ghost predicate Valid()
      reads this, slots
    {
      && 0 < payloadSize < 0x1_0000
      && slots.Length == WINDOW
      && (forall i | 0 <= i < WINDOW :: slots[i].len <= |slots[i].payload| == payloadSize)
      && head < WINDOW && sendOffset <= count <= WINDOW && stall < GO_BACK_STALL
    }

    ghost function View(): (e: Endpoint)
      requires Valid()
      reads this, slots
      ensures e.Shaped()
    {
      Endpoint(rxAck, txSeq, peerAck, head, count, sendOffset, stall, mayStage,
               [slots[0].View(), slots[1].View()])
    }

    constructor (payloadSize: nat)
      requires 0 < payloadSize < 0x1_0000
      ensures Valid() && this.payloadSize == payloadSize && fresh(slots)
      ensures View() == RESET
    {
      this.payloadSize := payloadSize;
      rxAck, txSeq, peerAck := 0, 0, 0;
      head, count, sendOffset, stall := 0, 0, 0, 0;
      mayStage := true;
      slots := new SlotMemory[WINDOW](_ => SlotMemory(0, 0, seq(payloadSize, _ => 0)));
    }

    /** Forgets the link state; the slot memory keeps its bytes. */
    method Reset()
      requires Valid()
      modifies this
      ensures Valid()
      ensures View() == RESET.(slots := old(View()).slots)
    {
      rxAck, txSeq, peerAck := 0, 0, 0;
      head, count, sendOffset, stall := 0, 0, 0, 0;
      mayStage := true;
    }

    method OnPeerChunk(pd: array<Byte>, receiveRing: ByteRing)
      requires Valid() && pd.Length == HEADER_SIZE + payloadSize
      modifies this, receiveRing
      ensures Valid()
      ensures var c := Decode(pd[..], payloadSize);
              var room := old(receiveRing.HasRoom(|c.data|));
              && View() == OnPeer(old(View()), c, room)
              && receiveRing.contents == old(receiveRing.contents)
                 + (if Expected(old(View()), c) && room then c.data else [])
    {
      peerAck := pd[1];
      mayStage := true;
      var seqNo := pd[0];
      var len := Word16(pd[2], pd[3]);
      ghost var c := Decode(pd[..], payloadSize);
      if seqNo == 0 || len == 0 || len > payloadSize {
        return;
      }
      assert c.data == pd[HEADER_SIZE..HEADER_SIZE + len];
      if seqNo != NextSeq(rxAck) {
        return;
      }
      var ok := receiveRing.TryPush(pd[HEADER_SIZE..HEADER_SIZE + len]);
      if ok {
        rxAck := seqNo;
      }
    }

    method CoveredPrefix() returns (n: nat)
      requires Valid()
      ensures n == AckedPrefix(View())
    {
      var j := 0;
      while j < count
        invariant j <= count
        invariant AckedFrom(View(), j) == AckedPrefix(View())
      {
        if slots[(head + j) % WINDOW].seqNo == peerAck {
          return j + 1;
        }
        j := j + 1;
      }
      return 0;
    }

    method Ready() returns (ready: bool)
      requires Valid()
      ensures ready == ReadyToAdvance(View())
    {
      var acked := CoveredPrefix();
      ready := mayStage && count - acked < WINDOW;
    }

    method SlideWindow()
      requires Valid()
      modifies this
      ensures Valid() && View() == Slide(old(View()))
    {
      var acked := CoveredPrefix();
      if acked != 0 {
        head := (head + acked) % WINDOW;
        count := count - acked;
        sendOffset := if sendOffset > acked then sendOffset - acked else 0;
        stall := 0;
      }
    }

    /** The chunk an image shows when it is painted from slot `out`; WINDOW stands for none. */
    ghost function Shown(out: nat): Chunk
      requires Valid()
      reads this, slots
    {
      if out < WINDOW then Chunk(slots[out].seqNo, rxAck, slots[out].View().data)
      else Chunk(txSeq, rxAck, [])
    }

    /** Pops up to a chunk's worth of octets into the next free slot and, if any came, sends it. */
    method StageNew(transmitRing: ByteRing) returns (out: nat)
      requires Valid() && Asks(View())
      modifies this, slots, transmitRing
      ensures Valid()
      ensures var s := old(View());
              var popped := Front(old(transmitRing.contents), payloadSize);
              && transmitRing.contents == old(transmitRing.contents)[|popped|..]
              && (if popped != [] then
                    out < WINDOW && Built(View(), Shown(out)) == Stage(s, popped)
                  else
                    out == WINDOW && View() == ClearNext(s))
    {
      out := WINDOW;
      var slot := (head + count) % WINDOW;
      var data := transmitRing.Pop(payloadSize);
      slots[slot] := SlotMemory(slots[slot].seqNo, |data|, data + slots[slot].payload[|data|..]);
      assert slots[slot].payload[..|data|] == data;
      if slots[slot].len != 0 {
        txSeq := NextSeq(txSeq);
        slots[slot] := SlotMemory(txSeq, slots[slot].len, slots[slot].payload);
        count := count + 1;
        sendOffset := count;
        mayStage := false;
        out := slot;
      }
    }

    /** Spends the frame credit on a replayed or a newly staged chunk, if there is one. */
    method Advance(transmitRing: ByteRing) returns (out: nat)
      requires Valid()
      modifies this, slots, transmitRing
      ensures Valid()
      ensures var s := old(View());
              var popped := Front(old(transmitRing.contents), payloadSize);
              && transmitRing.contents == old(transmitRing.contents)
                 [if Asks(s) then |popped| else 0..]
              && (if s.mayStage && s.sendOffset < s.count then
                    out < WINDOW && Built(View(), Shown(out)) == Replay(s)
                  else if Asks(s) && popped != [] then
                    out < WINDOW && Built(View(), Shown(out)) == Stage(s, popped)
                  else
                    out == WINDOW && View() == if Asks(s) then ClearNext(s) else s)
    {
      out := WINDOW;
      if mayStage && sendOffset < count {
        out := (head + sendOffset) % WINDOW;
        sendOffset := sendOffset + 1;
        mayStage := false;
      } else if mayStage && count < WINDOW {
        out := StageNew(transmitRing);
      }
    }

    /** Everything was sent and the ack is pending: count the stall, rewind, or repaint. */
    method KeepPainted(frameCredit: bool) returns (out: nat)
      requires Valid() && frameCredit == mayStage
      modifies this
      ensures Valid() && out <= WINDOW && Built(View(), Shown(out)) == Hold(old(View()))
    {
      out := WINDOW;
      if count != 0 {
        if frameCredit {
          stall := stall + 1;
        }
        if frameCredit && stall >= GO_BACK_STALL {
          sendOffset := 0;
          stall := 0;
        } else if sendOffset != 0 {
          out := (head + sendOffset - 1) % WINDOW;
        }
      }
    }

    /** Writes the header and, if a slot is sent, its payload; the rest of the image stays. */
    method PaintImage(pd: array<Byte>, out: nat)
      requires Valid() && pd.Length == HEADER_SIZE + payloadSize && out <= WINDOW
      modifies pd
      ensures |Shown(out).data| <= payloadSize && pd[..] == Paint(Shown(out), old(pd[..]))
    {
      pd[1] := rxAck;
      if out < WINDOW {
        var slot := slots[out];
        pd[0] := slot.seqNo;
        pd[2], pd[3] := slot.len % 256, slot.len / 256;
        forall i | 0 <= i < slot.len {
          pd[HEADER_SIZE + i] := slot.payload[i];
        }
      } else {
        pd[0] := txSeq;
        pd[2], pd[3] := 0, 0;
      }
    }

    method BuildOwnChunk(pd: array<Byte>, transmitRing: ByteRing)
      requires Valid() && pd.Length == HEADER_SIZE + payloadSize
      modifies this, slots, pd, transmitRing
      ensures Valid()
      ensures var popped := Front(old(transmitRing.contents), payloadSize);
              var built := Build(old(View()), popped);
              && View() == built.ep
              && |built.image.data| <= payloadSize
              && pd[..] == Paint(built.image, old(pd[..]))
              && transmitRing.contents == old(transmitRing.contents)
                 [if Pops(old(View())) then |popped| else 0..]
    {
      SlideWindow();
      var frameCredit := mayStage;
      var out := Advance(transmitRing);
      if out == WINDOW {
        out := KeepPainted(frameCredit);
      }
      PaintImage(pd, out);
    }
  }
}
