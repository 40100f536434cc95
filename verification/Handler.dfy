/**
 * The receiving side of the host: after a link restart it ignores the stream up to the first
 * StartAck of its own session, which is the first field boundary it can trust.
 */
module Handlers {
  import opened Bytes
  import opened Bitfield
  import opened Protocol
  import opened FieldParser
  import opened PeekMachine
  import opened Slicing
  import opened Deserialization
  import opened FieldEncoding
  import opened StreamBuffers
  import opened Serialization
  import opened EndToEnd

  const ACK_SIZE := 6

  /** Whether the pattern lies at position i. */
  predicate Occurs(s: seq<Byte>, pattern: seq<Byte>, i: nat) {
    i + |pattern| <= |s| && s[i..i + |pattern|] == pattern
  }

  /** The stream from the first occurrence of the pattern on; nothing if there is none. */
  function FromFirst(s: seq<Byte>, pattern: seq<Byte>): seq<Byte> {
    if |s| < |pattern| then []
    else if s[..|pattern|] == pattern then s
    else FromFirst(s[1..], pattern)
  }

  lemma {:induction false} FirstOccurrence(s: seq<Byte>, pattern: seq<Byte>, i: nat)
    requires pattern != [] && Occurs(s, pattern, i) && forall j: nat | j < i :: !Occurs(s, pattern, j)
    ensures FromFirst(s, pattern) == s[i..]
    decreases |s|
  {
    var n := |pattern|;
    assert s[0..n] == s[..n];
    if i > 0 {
      assert !Occurs(s, pattern, 0);
      var t := s[1..];
      assert t[i - 1..i - 1 + n] == s[i..i + n];
      forall j: nat | j < i - 1 ensures !Occurs(t, pattern, j) {
        assert !Occurs(s, pattern, j + 1);
        if j + n <= |t| {
          assert t[j..j + n] == s[j + 1..j + 1 + n];
        }
      }
      FirstOccurrence(t, pattern, i - 1);
    }
  }

  lemma {:induction false} NoOccurrence(s: seq<Byte>, pattern: seq<Byte>)
    requires pattern != [] && forall j: nat :: !Occurs(s, pattern, j)
    ensures FromFirst(s, pattern) == []
    decreases |s|
  {
    var n := |pattern|;
    if |s| >= n {
      assert s[0..n] == s[..n];
      assert !Occurs(s, pattern, 0);
      forall j: nat ensures !Occurs(s[1..], pattern, j) {
        assert !Occurs(s, pattern, j + 1);
        if j + n <= |s| - 1 {
          assert s[1..][j..j + n] == s[j + 1..j + 1 + n];
        }
      }
      NoOccurrence(s[1..], pattern);
    }
  }

  lemma OccursInPrefix(s: seq<Byte>, rest: seq<Byte>, pattern: seq<Byte>, i: nat)
    requires i + |pattern| <= |s|
    ensures Occurs(s + rest, pattern, i) <==> Occurs(s, pattern, i)
  {
    assert (s + rest)[i..i + |pattern|] == s[i..i + |pattern|];
  }

  /** An occurrence that is not at the front lies in the rest. */
  lemma OccursLater(s: seq<Byte>, pattern: seq<Byte>, i: nat)
    requires pattern != [] && Occurs(s, pattern, i)
    ensures |s| >= |pattern| && (s[..|pattern|] != pattern ==> i > 0 && Occurs(s[1..], pattern, i - 1))
  {
    var n := |pattern|;
    assert s[0..n] == s[..n];
    if i > 0 {
      assert s[1..][i - 1..i - 1 + n] == s[i..i + n];
    }
  }

  /** Once the pattern has occurred, whatever comes later is simply appended. */
  lemma {:induction false} FromFirstGrows(s: seq<Byte>, pattern: seq<Byte>, more: seq<Byte>)
    requires pattern != [] && exists i: nat :: Occurs(s, pattern, i)
    ensures FromFirst(s + more, pattern) == FromFirst(s, pattern) + more
    ensures exists i: nat :: Occurs(s + more, pattern, i)
    decreases |s|
  {
    var n := |pattern|;
    var i: nat :| Occurs(s, pattern, i);
    OccursInPrefix(s, more, pattern, i);
    OccursLater(s, pattern, i);
    assert (s + more)[..n] == s[..n];
    if s[..n] != pattern {
      var later: nat := i - 1;
      assert Occurs(s[1..], pattern, later);
      FromFirstGrows(s[1..], pattern, more);
      assert (s + more)[1..] == s[1..] + more;
    }
  }

  /** A byte more can only bring an occurrence that ends with it. */
  lemma LastOnly(s: seq<Byte>, b: Byte, pattern: seq<Byte>)
    requires pattern != [] && forall j: nat :: !Occurs(s, pattern, j)
    ensures forall j: nat | j + |pattern| != |s| + 1 :: !Occurs(s + [b], pattern, j)
  {
    forall j: nat | j + |pattern| != |s| + 1 ensures !Occurs(s + [b], pattern, j) {
      assert !Occurs(s, pattern, j);
      if j + |pattern| <= |s| {
        OccursInPrefix(s, [b], pattern, j);
      }
    }
  }

  /** There is no room for an occurrence beyond the end. */
  lemma OccursOnlyInside(s: seq<Byte>, pattern: seq<Byte>)
    ensures forall j: nat | j + |pattern| > |s| :: !Occurs(s, pattern, j)
  {
  }

  /** The first occurrence ends at i: the trusted stream is the pattern and what follows. */
  lemma Found(seen: seq<Byte>, rest: seq<Byte>, pattern: seq<Byte>)
    requires pattern != [] && |seen| >= |pattern| && Occurs(seen, pattern, |seen| - |pattern|)
    requires forall j: nat | j + |pattern| != |seen| :: !Occurs(seen, pattern, j)
    ensures FromFirst(seen + rest, pattern) == pattern + rest
    ensures Occurs(seen + rest, pattern, |seen| - |pattern|)
  {
    hide Occurs, FromFirst;
    var at := |seen| - |pattern|;
    OccursInPrefix(seen, rest, pattern, at);
    forall j: nat | j < at ensures !Occurs(seen + rest, pattern, j) {
      OccursInPrefix(seen, rest, pattern, j);
    }
    FirstOccurrence(seen + rest, pattern, at);
    TailOf(seen, rest, pattern);
  }

  lemma TailOf(seen: seq<Byte>, rest: seq<Byte>, pattern: seq<Byte>)
    requires |seen| >= |pattern| && Occurs(seen, pattern, |seen| - |pattern|)
    ensures (seen + rest)[|seen| - |pattern|..] == pattern + rest
  {
    var at := |seen| - |pattern|;
    assert (seen + rest)[at..] == seen[at..|seen|] + rest;
  }

  /** Feeding two stretches is feeding them joined. */
  lemma FeedJoins(verdict: Verdict, m: Machine, a: seq<Byte>, b: seq<Byte>)
    requires m.Suspended()
    ensures Feed(verdict, Feed(verdict, m, a), b) == Feed(verdict, m, a + b)
  {
    hide Drive;
    if a == [] {
      assert a + b == b;
    } else if b == [] {
      assert a + b == a;
    } else if !m.discard {
      DriveAppend(verdict, m.cont, m.held + a, b, m.log);
      JoinAssociates(m.held, a, b);
    }
  }

  lemma FeedNothing(verdict: Verdict, m: Machine)
    requires m.Suspended()
    ensures Feed(verdict, m, []) == m
  {
  }

  lemma OneMore(before: seq<Byte>, buffer: seq<Byte>, i: nat)
    requires i < |buffer|
    ensures (before + buffer[..i]) + [buffer[i]] == before + buffer[..i + 1]
    ensures (before + buffer[..i + 1]) + buffer[i + 1..] == before + buffer
  {
  }

  lemma FeedThenFinish(verdict: Verdict, log: seq<Event>, b: seq<Byte>)
    ensures Finish(Feed(verdict, Between(log), b)) == Between(ParseTransfer(verdict, log, b))
  {
    DriveIsParse(verdict, b, log);
    assert [] + b == b;
  }

  method MakeSessionStartAck(nonce: nat) returns (ack: seq<Byte>)
    requires nonce < WORD
    ensures |ack| == ACK_SIZE && SessionSpells(ack, START_ACK, nonce)
  {
    hide GetBits, SessionSpells, HeaderSpells, MemberSet;
    PowersOfTwo();
    var bytes := new Byte[ACK_SIZE](_ => 0);
    var field := Span(bytes, 0, ACK_SIZE);
    var session := WriteFieldHeader(field, SESSION);
    ghost var b0 := field.Bytes();
    field.Set(session, 4, 4, START_ACK);
    ghost var b1 := field.Bytes();
    field.Set(session, 8, 32, nonce);
    SessionHeaderWritten(START_ACK, nonce, b0, b1, field.Bytes());
    assert bytes[..] == field.Bytes();
    ack := bytes[..];
  }

  class Handler {
    const deserializer: Deserializer
    const expectedSessionStartAck: seq<Byte>
    const sessionStartAckWindow: array<Byte>
    var sessionStartAckWindowSize: nat
    var awaitingSessionStartAck: bool
    /** Everything received since the last restart, and what had been delivered by then. */
    ghost var stream: seq<Byte>
    ghost var base: seq<Event>

    ghost predicate Shaped()
      reads this, deserializer, deserializer.pendingBuffer, sessionStartAckWindow
    {
      && deserializer.Suspended()
      && deserializer.pendingBuffer != sessionStartAckWindow
      && |expectedSessionStartAck| == sessionStartAckWindow.Length == ACK_SIZE
    }

    ghost predicate Valid()
      reads this, deserializer, deserializer.pendingBuffer, sessionStartAckWindow
    {
      && Shaped()
      && deserializer.View()
         == Feed(deserializer.verdict, Between(base), FromFirst(stream, expectedSessionStartAck))
      && (awaitingSessionStartAck ==>
            && Searched(stream)
            && (forall j: nat :: !Occurs(stream, expectedSessionStartAck, j)))
      && (!awaitingSessionStartAck ==> exists i: nat :: Occurs(stream, expectedSessionStartAck, i))
    }

    /** Nothing was found and nothing fed since the last restart. */
    ghost predicate Searching()
      reads this, deserializer, deserializer.pendingBuffer, sessionStartAckWindow
    {
      && Shaped() && deserializer.View() == Between(base) && awaitingSessionStartAck
      && Searched(stream)
      && forall j: nat :: !Occurs(stream, expectedSessionStartAck, j)
    }

    lemma SearchingIsValid()
      requires Shaped() && awaitingSessionStartAck
      ensures Searching() <==> Valid()
    {
      hide Occurs, FromFirst, PeekMachine.Feed;
      FeedNothing(deserializer.verdict, Between(base));
      if forall j: nat :: !Occurs(stream, expectedSessionStartAck, j) {
        NoOccurrence(stream, expectedSessionStartAck);
      }
    }

    /** The window holds the last bytes of the stretch, as many as fit. */
    ghost predicate Searched(s: seq<Byte>)
      reads `sessionStartAckWindowSize, sessionStartAckWindow
    {
      && sessionStartAckWindowSize == (if |s| < ACK_SIZE then |s| else ACK_SIZE)
      && sessionStartAckWindow.Length == ACK_SIZE
      && sessionStartAckWindow[..sessionStartAckWindowSize] == s[|s| - sessionStartAckWindowSize..]
    }

    constructor (verdict: Verdict, nonce: nat)
      requires nonce < WORD
      ensures Valid() && fresh(deserializer) && fresh(deserializer.pendingBuffer) && fresh(sessionStartAckWindow)
      ensures deserializer.verdict == verdict && stream == [] && base == []
      ensures SessionSpells(expectedSessionStartAck, 1, nonce)
    {
      deserializer := new Deserializer(verdict);
      var ack := MakeSessionStartAck(nonce);
      expectedSessionStartAck := ack;
      sessionStartAckWindow := new Byte[ACK_SIZE];
      sessionStartAckWindowSize, awaitingSessionStartAck := 0, true;
      stream, base := [], [];
      new;
      hide Occurs, FromFirst, PeekMachine.Feed;
      Fresh();
    }

    /** Right after a restart nothing was found yet. */
    lemma Fresh()
      requires Shaped() && awaitingSessionStartAck && sessionStartAckWindowSize == 0
      requires stream == [] && deserializer.View() == Between(base)
      ensures Valid()
    {
      hide FromFirst, PeekMachine.Feed;
      OccursOnlyInside([], expectedSessionStartAck);
      forall j: nat ensures !Occurs(stream, expectedSessionStartAck, j) {
      }
      NoOccurrence([], expectedSessionStartAck);
      FeedNothing(deserializer.verdict, Between(base));
    }

    /** The restart callback: the transfer under way ends here. */
    method OnLinkRestart()
      requires Valid()
      modifies this, deserializer, deserializer.pendingBuffer
      ensures Valid() && stream == []
      ensures base == deserializer.log
      ensures deserializer.log
              == ParseTransfer(deserializer.verdict, old(base), FromFirst(old(stream), expectedSessionStartAck))
    {
      FeedThenFinish(deserializer.verdict, base, FromFirst(stream, expectedSessionStartAck));
      deserializer.FinishTransfer();
      awaitingSessionStartAck := true;
      sessionStartAckWindowSize := 0;
      stream, base := [], deserializer.log;
      Fresh();
    }

    method ReceiveStream(buffer: seq<Byte>)
      requires Valid()
      modifies this, deserializer, deserializer.pendingBuffer, sessionStartAckWindow
      ensures Valid() && base == old(base) && stream == old(stream) + buffer
    {
      hide Occurs, FromFirst, PeekMachine.Feed;
      ghost var before := stream;
      if !awaitingSessionStartAck {
        FromFirstGrows(before, expectedSessionStartAck, buffer);
        FeedJoins(deserializer.verdict, Between(base), FromFirst(before, expectedSessionStartAck), buffer);
        deserializer.Feed(buffer);
        stream := stream + buffer;
        return;
      }
      assert before + buffer[..0] == before;
      SearchingIsValid();
      for i := 0 to |buffer|
        invariant Searching() && base == old(base) && stream == before + buffer[..i]
      {
        OneMore(before, buffer, i);
        var found := Search(buffer[i]);
        if !found {
          continue;
        }
        Trust(buffer[i + 1..]);
        return;
      }
      assert before + buffer[..|buffer|] == before + buffer;
      SearchingIsValid();
    }

    /** Shifts one byte into the window and compares. */
    method Search(b: Byte) returns (found: bool)
      requires Searching()
      modifies `sessionStartAckWindowSize, `stream, sessionStartAckWindow
      ensures stream == old(stream) + [b] && Searched(stream)
      ensures !found ==> Searching()
      ensures found ==>
                && Shaped() && deserializer.View() == Between(base)
                && sessionStartAckWindow[..] == expectedSessionStartAck
                && |stream| >= ACK_SIZE && Occurs(stream, expectedSessionStartAck, |stream| - ACK_SIZE)
                && forall j: nat | j + ACK_SIZE != |stream| :: !Occurs(stream, expectedSessionStartAck, j)
    {
      hide Occurs, FromFirst, PeekMachine.Feed, Searched;
      LastOnly(stream, b, expectedSessionStartAck);
      Push(stream, b);
      stream := stream + [b];
      WindowTells(stream);
      found := sessionStartAckWindowSize == sessionStartAckWindow.Length
               && sessionStartAckWindow[..] == expectedSessionStartAck;
      if !found {
        OccursOnlyInside(stream, expectedSessionStartAck);
      }
    }

    /** The window just completed is a field boundary: from here on everything is fed. */
    method Trust(rest: seq<Byte>)
      requires Shaped() && awaitingSessionStartAck
      requires deserializer.View() == Between(base)
      requires sessionStartAckWindow[..] == expectedSessionStartAck
      requires |stream| >= ACK_SIZE && Occurs(stream, expectedSessionStartAck, |stream| - ACK_SIZE)
      requires forall j: nat | j + ACK_SIZE != |stream| :: !Occurs(stream, expectedSessionStartAck, j)
      modifies this, deserializer, deserializer.pendingBuffer
      ensures Valid() && base == old(base) && stream == old(stream) + rest
    {
      hide Occurs, FromFirst, PeekMachine.Feed;
      Found(stream, rest, expectedSessionStartAck);
      awaitingSessionStartAck := false;
      FeedJoins(deserializer.verdict, Between(base), expectedSessionStartAck, rest);
      deserializer.Feed(sessionStartAckWindow[..]);
      deserializer.Feed(rest);
      stream := stream + rest;
    }

    /** Shifts one byte into the window. */
    method Push(ghost s: seq<Byte>, b: Byte)
      requires Searched(s)
      modifies `sessionStartAckWindowSize, sessionStartAckWindow
      ensures Searched(s + [b])
    {
      ghost var held := sessionStartAckWindow[..sessionStartAckWindowSize];
      if sessionStartAckWindowSize < sessionStartAckWindow.Length {
        sessionStartAckWindow[sessionStartAckWindowSize] := b;
        sessionStartAckWindowSize := sessionStartAckWindowSize + 1;
        assert sessionStartAckWindow[..sessionStartAckWindowSize] == held + [b];
      } else {
        forall k | 0 <= k < ACK_SIZE - 1 {
          sessionStartAckWindow[k] := sessionStartAckWindow[k + 1];
        }
        sessionStartAckWindow[ACK_SIZE - 1] := b;
        assert sessionStartAckWindow[..] == held[1..] + [b];
      }
    }

    /** A full window equal to the pattern is an occurrence at the very end. */
    lemma WindowTells(seen: seq<Byte>)
      requires Searched(seen) && |expectedSessionStartAck| == ACK_SIZE
      ensures (sessionStartAckWindowSize == ACK_SIZE && sessionStartAckWindow[..] == expectedSessionStartAck)
              <==> |seen| >= ACK_SIZE && Occurs(seen, expectedSessionStartAck, |seen| - ACK_SIZE)
    {
      if |seen| >= ACK_SIZE {
        assert sessionStartAckWindow[..] == seen[|seen| - ACK_SIZE..];
        assert seen[|seen| - ACK_SIZE..|seen|] == seen[|seen| - ACK_SIZE..];
      }
    }
  }

  // ---------------------------------------------------------------------------------------
  // With the peer's writer

  lemma {:induction false} MemberBits(b: seq<Byte>, i: nat, w: nat, k: nat)
    requires i + w <= 8 * |b| && k < w
    ensures BitAt(b, i + k) == TestBit(GetBits(b, i, w), k)
    decreases w
  {
    hide BitAt, Pow2;
    var rest := GetBits(b, i + 1, w - 1);
    assert (BitAt(b, i) + 2 * rest) / 2 == rest;
    if k > 0 {
      MemberBits(b, i + 1, w - 1, k - 1);
    }
  }

  /** A session header leaves no bit open, so the expected bytes are the ones the peer's writer sends. */
  lemma SessionHeaderIsUnique(b: seq<Byte>, c: seq<Byte>, kind: nat, nonce: nat)
    requires |b| == |c| == ACK_SIZE && SessionSpells(b, kind, nonce) && SessionSpells(c, kind, nonce)
    ensures b == c
  {
    hide GetBits, TestBit, BitAt;
    forall n: nat | n < 8 * ACK_SIZE ensures BitAt(b, n) == BitAt(c, n) {
      var i, w := if n < 4 then 0 else if n < 12 then 4 else if n < 16 then 12 else 16,
                  if n < 4 then 4 else if n < 12 then 8 else if n < 16 then 4 else 32;
      MemberBits(b, i, w, n - i);
      MemberBits(c, i, w, n - i);
    }
    BitwiseEqual(b, c);
  }

  /**
   * After a restart the peer answers with StartAck and then its fields. Whatever stale bytes still
   * precede them, unless an acknowledgement of this very session starts among those, exactly the
   * acknowledgement and the fields are delivered, up to the first one the receiver refuses.
   */
  lemma ResyncDelivers(
    verdict: Verdict, log: seq<Event>, ack: seq<Byte>, nonce: nat, stale: seq<Byte>, pieces: seq<Piece>)
    requires |ack| == ACK_SIZE && SessionSpells(ack, START_ACK, nonce)
    requires AllGood(pieces) && pieces != [] && AllAddressed(Requests(pieces))
    requires pieces[0].request == WriteSessionControl(START_ACK, nonce)
    requires forall j: nat | j < |stale| :: !Occurs(stale + ack, ack, j)
    ensures Sendable(Requests(pieces))
    ensures ParseTransfer(verdict, log, FromFirst(stale + Image(pieces), ack))
            == EndToEnd.Deliver(verdict, log, Views(Requests(pieces)))
  {
    hide Occurs, FromFirst, ParseTransfer, Image, Views, EndToEnd.Deliver;
    RequestsGood(pieces);
    ImageCons(pieces);
    assert pieces[0].Good();
    SessionHeaderIsUnique(ack, pieces[0].bytes, START_ACK, nonce);
    var rest := Image(pieces[1..]);
    JoinAssociates(stale, ack, rest);
    OccursAt(stale, ack);
    OccursOnlyInside(stale + ack, ack);
    Found(stale + ack, rest, ack);
    PiecesDeliver(verdict, log, pieces);
  }

  lemma OccursAt(stale: seq<Byte>, pattern: seq<Byte>)
    ensures Occurs(stale + pattern, pattern, |stale|)
  {
  }
}
