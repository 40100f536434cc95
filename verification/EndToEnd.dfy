/** What a stream writer puts on the wire is what the receiver's callbacks are told, in order. */
module EndToEnd {
  import opened Bytes
  import opened Options
  import opened Protocol
  import opened FieldParser
  import opened PeekMachine
  import opened Slicing
  import opened FieldEncoding
  import opened RoundTrip
  import opened StreamBuffers

  /** What a receiver is told when these views arrive: all of them, up to the first it refuses. */
  ghost function Deliver(verdict: Verdict, log: seq<Event>, views: seq<Event>): seq<Event>
    decreases |views|
  {
    if views == [] then log
    else if Refused(verdict, log, views[0]) then log + [views[0], Error]
    else Deliver(verdict, log + [views[0]], views[1..])
  }

  ghost predicate Accepting(verdict: Verdict) {
    forall log: seq<Event>, ev: Event :: verdict(log, ev)
  }

  lemma {:induction false} AcceptedIsTold(verdict: Verdict, log: seq<Event>, views: seq<Event>)
    requires Accepting(verdict)
    ensures Deliver(verdict, log, views) == log + views
    decreases |views|
  {
    if views == [] {
      assert log + views == log;
    } else {
      AcceptedIsTold(verdict, log + [views[0]], views[1..]);
      assert log + [views[0]] + views[1..] == log + views;
    }
  }

  /** Nothing here was refused by the writer. */
  ghost predicate Sendable(requests: seq<Request>) {
    forall r | r in requests :: Required(r) > 0
  }

  /** Every field carries an id or enumerator of its own kind. */
  ghost predicate AllAddressed(requests: seq<Request>) {
    forall r | r in requests :: Addressed(r)
  }

  /** The views of what was written. */
  ghost function Views(requests: seq<Request>): (views: seq<Event>)
    requires Sendable(requests)
    ensures |views| == |requests|
  {
    seq(|requests|, (i: int) requires 0 <= i < |requests| => EventOf(requests[i]))
  }

  lemma {:induction false} ImageCons(pieces: seq<Piece>)
    requires pieces != []
    ensures Image(pieces) == pieces[0].bytes + Image(pieces[1..])
    decreases |pieces|
  {
    var n := |pieces| - 1;
    if n > 0 {
      ImageCons(pieces[..n]);
      assert pieces[..n][1..] == pieces[1..][..n - 1];
    }
  }

  lemma RequestsGood(pieces: seq<Piece>)
    requires AllGood(pieces)
    ensures Sendable(Requests(pieces))
  {
    forall r | r in Requests(pieces) ensures Required(r) > 0 {
      var i :| 0 <= i < |pieces| && Requests(pieces)[i] == r;
      assert pieces[i].Good();
    }
  }

  lemma ViewsJoin(a: seq<Request>, b: seq<Request>)
    requires Sendable(a) && Sendable(b)
    ensures Sendable(a + b) && Views(a + b) == Views(a) + Views(b)
  {
    hide Required, EventOf;
  }

  lemma RequestsFront(pieces: seq<Piece>)
    requires pieces != []
    ensures Requests(pieces) == [pieces[0].request] + Requests(pieces[1..])
  {
  }

  lemma RequestsCons(pieces: seq<Piece>)
    requires pieces != [] && AllGood(pieces)
    ensures pieces[0].Good() && AllGood(pieces[1..])
    ensures Sendable(Requests(pieces)) && Sendable(Requests(pieces[1..]))
    ensures Views(Requests(pieces)) == [EventOf(pieces[0].request)] + Views(Requests(pieces[1..]))
    ensures AllAddressed(Requests(pieces)) ==>
              Addressed(pieces[0].request) && AllAddressed(Requests(pieces[1..]))
  {
    hide Required, EventOf, Requests, Typed, Spells, Addressed;
    var tail := pieces[1..];
    RequestsGood(pieces);
    RequestsGood(tail);
    assert pieces[0] in pieces;
    RequestsFront(pieces);
    ViewsJoin([pieces[0].request], Requests(tail));
    assert Views([pieces[0].request]) == [EventOf(pieces[0].request)];
  }

  /** A field at the front is told, and the rest parsed after it. */
  lemma PieceParses(verdict: Verdict, log: seq<Event>, piece: Piece, after: seq<Byte>)
    requires piece.Good() && Addressed(piece.request)
    ensures var ev := EventOf(piece.request);
            ParseTransfer(verdict, log, piece.bytes + after)
            == if Refused(verdict, log, ev) then log + [ev, Error]
               else ParseTransfer(verdict, log + [ev], after)
  {
    hide Required, EventOf, ParseField, Refused, Spells, Addressed;
    ReadsBack(piece.bytes, piece.request, after);
    assert (piece.bytes + after)[|piece.bytes|..] == after;
  }

  lemma NoRequests()
    ensures Requests([]) == []
  {
  }

  /** The fields of a buffer are told in order, up to the first one the receiver refuses. */
  lemma {:induction false} PiecesDeliver(verdict: Verdict, log: seq<Event>, pieces: seq<Piece>)
    requires AllGood(pieces) && Sendable(Requests(pieces)) && AllAddressed(Requests(pieces))
    ensures ParseTransfer(verdict, log, Image(pieces)) == Deliver(verdict, log, Views(Requests(pieces)))
    decreases |pieces|
  {
    hide Required, EventOf, Requests, Sendable, AllGood, ParseField, AllAddressed;
    if pieces == [] {
      NoRequests();
    } else {
      RequestsCons(pieces);
      var ev, tail := EventOf(pieces[0].request), pieces[1..];
      ImageCons(pieces);
      PieceParses(verdict, log, pieces[0], Image(tail));
      PiecesDeliver(verdict, log + [ev], tail);
      assert Views(Requests(pieces))[1..] == Views(Requests(tail));
    }
  }

  /** A transmitted buffer, cut in any way, delivers exactly its views. */
  lemma BufferDelivers(verdict: Verdict, log: seq<Event>, pieces: seq<Piece>, slices: seq<seq<Byte>>)
    requires AllGood(pieces) && Flat(slices) == Image(pieces) && AllAddressed(Requests(pieces))
    ensures Sendable(Requests(pieces))
    ensures Finish(FeedAll(verdict, Between(log), slices))
            == Between(Deliver(verdict, log, Views(Requests(pieces))))
  {
    hide Required, EventOf, Image, Flat, ParseTransfer, Deliver, AllAddressed;
    RequestsGood(pieces);
    SlicingInvariance(verdict, log, slices);
    PiecesDeliver(verdict, log, pieces);
  }

  // ---------------------------------------------------------------------------------------
  // Buffer after buffer

  /** Transfer after transfer, what a receiver is told: each one up to the first view it refuses. */
  ghost function DeliverAll(verdict: Verdict, log: seq<Event>, transfers: seq<seq<Event>>): seq<Event>
    decreases |transfers|
  {
    if transfers == [] then log
    else DeliverAll(verdict, Deliver(verdict, log, transfers[0]), transfers[1..])
  }

  /** The views of each transmitted buffer. */
  ghost function ViewsOfEach(sent: seq<seq<Piece>>): (views: seq<seq<Event>>)
    requires forall i | 0 <= i < |sent| :: AllGood(sent[i])
    ensures |views| == |sent|
  {
    seq(|sent|, (i: int) requires 0 <= i < |sent| => (RequestsGood(sent[i]); Views(Requests(sent[i]))))
  }

  ghost predicate EachAddressed(sent: seq<seq<Piece>>) {
    forall i | 0 <= i < |sent| :: AllAddressed(Requests(sent[i]))
  }

  /** Buffer after buffer, as one transfer each. */
  lemma {:induction false} BuffersDeliver(
    verdict: Verdict, log: seq<Event>, sent: seq<seq<Piece>>, transfers: seq<seq<seq<Byte>>>)
    requires |transfers| == |sent| && EachAddressed(sent)
    requires forall i | 0 <= i < |sent| :: AllGood(sent[i]) && Flat(transfers[i]) == Image(sent[i])
    ensures FeedTransfers(verdict, Between(log), transfers)
            == Between(DeliverAll(verdict, log, ViewsOfEach(sent)))
    decreases |sent|
  {
    hide Required, EventOf, Flat, Image, Requests, Sendable, AllGood, FeedAll, Views, Deliver, AllAddressed;
    if sent != [] {
      BufferDelivers(verdict, log, sent[0], transfers[0]);
      var next := Deliver(verdict, log, Views(Requests(sent[0])));
      BuffersDeliver(verdict, next, sent[1..], transfers[1..]);
      assert ViewsOfEach(sent)[1..] == ViewsOfEach(sent[1..]);
    }
  }

  lemma {:induction false} ImageJoin(a: seq<Piece>, b: seq<Piece>)
    ensures Image(a + b) == Image(a) + Image(b)
    decreases |b|
  {
    if b == [] {
      assert a + b == a;
    } else {
      var n := |b| - 1;
      assert (a + b)[..|a| + n] == a + b[..n];
      ImageJoin(a, b[..n]);
    }
  }

  lemma RequestsJoin(a: seq<Piece>, b: seq<Piece>)
    ensures Requests(a + b) == Requests(a) + Requests(b)
  {
  }

  /** The transmitted buffers, run together, hold the fields of all of them. */
  lemma {:induction false} Joined(sent: seq<seq<Piece>>, wire: seq<seq<Byte>>)
    requires |wire| == |sent|
    requires forall i | 0 <= i < |sent| :: AllGood(sent[i]) && wire[i] == Image(sent[i])
    ensures AllGood(Flat(sent)) && Image(Flat(sent)) == Flat(wire) && Requests(Flat(sent)) == History(sent)
    decreases |sent|
  {
    hide Piece.Good, Requests;
    if sent == [] {
      NoRequests();
    } else {
      var n := |sent| - 1;
      Joined(sent[..n], wire[..n]);
      FlatSnoc(sent[..n], sent[n]);
      FlatSnoc(wire[..n], wire[n]);
      assert sent == sent[..n] + [sent[n]] && wire == wire[..n] + [wire[n]];
      ImageJoin(Flat(sent[..n]), sent[n]);
      RequestsJoin(Flat(sent[..n]), sent[n]);
    }
  }

  /** Buffer after buffer, as one endless transfer: up to the first field that is refused. */
  lemma StreamDelivers(verdict: Verdict, log: seq<Event>, sent: seq<seq<Piece>>, wire: seq<seq<Byte>>)
    requires |wire| == |sent| && AllAddressed(History(sent))
    requires forall i | 0 <= i < |sent| :: AllGood(sent[i]) && wire[i] == Image(sent[i])
    ensures Sendable(History(sent))
    ensures ParseTransfer(verdict, log, Flat(wire)) == Deliver(verdict, log, Views(History(sent)))
  {
    hide Required, EventOf, Flat, Image, Requests, AllGood, ParseTransfer, Deliver, AllAddressed;
    Joined(sent, wire);
    RequestsGood(Flat(sent));
    PiecesDeliver(verdict, log, Flat(sent));
  }

  /** A receiver that refuses nothing is told the same either way: every view, in order. */
  lemma {:induction false} AllAreTold(verdict: Verdict, log: seq<Event>, sent: seq<seq<Piece>>)
    requires Accepting(verdict) && forall i | 0 <= i < |sent| :: AllGood(sent[i])
    ensures Sendable(History(sent))
    ensures DeliverAll(verdict, log, ViewsOfEach(sent)) == log + Views(History(sent))
    decreases |sent|
  {
    hide Required, EventOf, Requests, Sendable, AllGood, Views, History, Accepting, Deliver;
    HistoryGood(sent);
    if sent == [] {
      NoViews(log, History(sent)) by { NoHistory(); }
    } else {
      HistoryStep(log, sent);
      var here := Views(Requests(sent[0]));
      AcceptedIsTold(verdict, log, here);
      AllAreTold(verdict, log + here, sent[1..]);
      assert ViewsOfEach(sent)[1..] == ViewsOfEach(sent[1..]);
    }
  }

  lemma NoHistory()
    ensures History([]) == []
  {
  }

  lemma NoViews(log: seq<Event>, requests: seq<Request>)
    requires requests == []
    ensures log + Views(requests) == log
  {
  }

  lemma {:induction false} HistoryCons(sent: seq<seq<Piece>>)
    requires sent != []
    ensures History(sent) == Requests(sent[0]) + History(sent[1..])
    decreases |sent|
  {
    var n := |sent| - 1;
    if n > 0 {
      HistoryCons(sent[..n]);
      assert sent[..n][1..] == sent[1..][..n - 1];
    }
  }

  lemma {:induction false} HistoryGood(sent: seq<seq<Piece>>)
    requires forall i | 0 <= i < |sent| :: AllGood(sent[i])
    ensures Sendable(History(sent))
    decreases |sent|
  {
    if sent != [] {
      HistoryGood(sent[..|sent| - 1]);
      RequestsGood(sent[|sent| - 1]);
    }
  }

  lemma HistoryStep(log: seq<Event>, sent: seq<seq<Piece>>)
    requires sent != [] && forall i | 0 <= i < |sent| :: AllGood(sent[i])
    ensures Sendable(History(sent)) && Sendable(Requests(sent[0])) && Sendable(History(sent[1..]))
    ensures log + Views(History(sent)) == (log + Views(Requests(sent[0]))) + Views(History(sent[1..]))
  {
    hide Required, EventOf, Sendable, Requests, History, AllGood;
    RequestsGood(sent[0]);
    HistoryCons(sent);
    HistoryGood(sent[1..]);
    ViewsJoin(Requests(sent[0]), History(sent[1..]));
  }

  lemma {:induction false} HistoryHolds(sent: seq<seq<Piece>>, i: nat, r: Request)
    requires i < |sent| && r in Requests(sent[i])
    ensures r in History(sent)
    decreases |sent|
  {
    hide Requests;
    var n := |sent| - 1;
    if i < n {
      HistoryHolds(sent[..n], i, r);
    }
  }

  /**
   * Once a stream writer is destroyed, whatever became of its buffer acquisitions: the buffers it
   * transmitted, fed to a deserializer as transfers cut in any way, deliver the views whose writes
   * succeeded, in order, of each buffer up to the first one the receiver refuses; run together into
   * one stream, they deliver them up to the first refused one of all.
   */
  lemma WriterDelivers(
    writer: StreamBuffer, verdict: Verdict, log: seq<Event>, transfers: seq<seq<seq<Byte>>>)
    requires writer.Valid() && writer.buffer.None? && AllAddressed(writer.Written())
    requires |transfers| == |writer.sent|
    requires forall i | 0 <= i < |transfers| :: Flat(transfers[i]) == writer.transport.wire[writer.base + i]
    ensures Sendable(writer.Written())
    ensures FeedTransfers(verdict, Between(log), transfers)
            == Between(DeliverAll(verdict, log, ViewsOfEach(writer.sent)))
    ensures ParseTransfer(verdict, log, Flat(writer.transport.wire[writer.base..]))
            == Deliver(verdict, log, Views(writer.Written()))
    ensures Accepting(verdict) ==>
              DeliverAll(verdict, log, ViewsOfEach(writer.sent)) == log + Views(writer.Written())
  {
    hide Required, EventOf, Flat, Image, ParseTransfer, FeedTransfers, Deliver, DeliverAll, Accepting;
    hide Addressed, Views, ViewsOfEach, History, Requests;
    assert writer.Written() == History(writer.sent) by { NoRequests(); }
    forall i, r | 0 <= i < |writer.sent| && r in Requests(writer.sent[i]) ensures Addressed(r) {
      HistoryHolds(writer.sent, i, r);
    }
    BuffersDeliver(verdict, log, writer.sent, transfers);
    StreamDelivers(verdict, log, writer.sent, writer.transport.wire[writer.base..]);
    if Accepting(verdict) {
      AllAreTold(verdict, log, writer.sent);
    }
  }
}
