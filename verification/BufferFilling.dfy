/**
 * How fields are divided over transmit buffers: the sizes of the fields alone, and when the transport
 * was asked for another buffer.
 */
module BufferFilling {
  /** Field sizes in each transmitted buffer and in the open one, if a buffer is held. */
  datatype Filling = Filling(sent: seq<seq<nat>>, open: seq<nat>, held: bool, attempts: nat)

  function Total(sizes: seq<nat>): nat {
    if sizes == [] then 0 else Total(sizes[..|sizes| - 1]) + sizes[|sizes| - 1]
  }

  /** What a writer has at its start; a cyclic one asks for its first buffer at once. */
  function Started(cyclic: bool, attempts: nat, grants: nat -> bool): Filling {
    if cyclic then Filling([], [], grants(attempts), attempts + 1) else Filling([], [], false, attempts)
  }

  /** The open buffer handed back: transmitted if there is a field in it. */
  function Close(f: Filling): Filling {
    Filling(if f.open == [] then f.sent else f.sent + [f.open], [], false, f.attempts)
  }

  /** Room for a field: in the open buffer if it fits there, else in the next one the transport grants. */
  function Room(f: Filling, size: nat, grants: nat -> bool): Filling {
    if f.held && Total(f.open) + size <= 1023 then f
    else Close(f).(held := grants(f.attempts), attempts := f.attempts + 1)
  }

  function Put(f: Filling, size: nat, grants: nat -> bool): Filling {
    var g := Room(f, size, grants);
    if g.held then g.(open := g.open + [size]) else g
  }

  function PutAll(f: Filling, sizes: seq<nat>, grants: nat -> bool): Filling
    decreases |sizes|
  {
    if sizes == [] then f else PutAll(Put(f, sizes[0], grants), sizes[1..], grants)
  }

  // ---------------------------------------------------------------------------------------
  // Fields share a buffer

  /** The first field of each buffer would not have fitted the one before. */
  ghost predicate Packed(sent: seq<seq<nat>>) {
    forall i, j | 0 <= i && j == i + 1 && j < |sent| :: Tight(sent[i], sent[j])
  }

  predicate Tight(earlier: seq<nat>, later: seq<nat>) {
    later != [] && Total(earlier) + later[0] > 1023
  }

  ghost predicate FieldSizes(sizes: seq<nat>) {
    forall n | n in sizes :: 0 < n <= 1023
  }

  /** A buffer is refused after one was granted, and another granted after that. */
  ghost predicate Interrupted(grants: nat -> bool, from: nat) {
    exists a: nat, b: nat, c: nat :: from <= a < b < c && grants(a) && !grants(b) && grants(c)
  }

  ghost predicate Granted(grants: nat -> bool, from: nat, to: nat) {
    exists a: nat :: from <= a < to && grants(a)
  }

  ghost predicate Dropped(grants: nat -> bool, from: nat, to: nat) {
    exists a: nat, b: nat :: from <= a < b < to && grants(a) && !grants(b)
  }

  /** What holds while no grant follows a refusal that follows a grant. */
  ghost predicate Sound(f: Filling, grants: nat -> bool, from: nat) {
    && Packed(Close(f).sent) && from <= f.attempts
    && (f.open != [] ==> f.held) && (f.held && f.open == [] ==> f.sent == [])
    && (f.held || f.sent != [] ==> Granted(grants, from, f.attempts))
    && (!f.held && f.sent != [] ==> Dropped(grants, from, f.attempts))
  }

  lemma PackedSnoc(sent: seq<seq<nat>>, last: seq<nat>)
    requires Packed(sent) && (sent != [] ==> Tight(sent[|sent| - 1], last))
    ensures Packed(sent + [last])
  {
    hide Tight;
  }

  lemma PackedOpen(sent: seq<seq<nat>>, last: seq<nat>, size: nat)
    requires Packed(sent + [last]) && last != []
    ensures Packed(sent + [last + [size]])
  {
    var all, more := sent + [last], sent + [last + [size]];
    forall i, j | 0 <= i && j == i + 1 && j < |more| ensures Tight(more[i], more[j]) {
      assert Tight(all[i], all[j]) && all[i] == more[i];
    }
  }

  lemma PutSound(f: Filling, size: nat, grants: nat -> bool, from: nat)
    requires Sound(f, grants, from) && !Interrupted(grants, from) && size <= 1023
    ensures Sound(Put(f, size, grants), grants, from)
  {
    hide Total, Packed;
    var g := Put(f, size, grants);
    if f.held && Total(f.open) + size <= 1023 {
      PutShared(f, size);
    } else {
      assert Granted(grants, from, f.attempts) ==> Granted(grants, from, g.attempts);
      assert Dropped(grants, from, f.attempts) ==> Dropped(grants, from, g.attempts);
      if grants(f.attempts) {
        assert Granted(grants, from, g.attempts);
        NotDropped(f, grants, from);
        PutNext(f, size);
        assert [] + [size] == [size];
      } else if Granted(grants, from, f.attempts) {
        var a: nat :| from <= a < f.attempts && grants(a);
        assert Dropped(grants, from, g.attempts);
      }
    }
  }

  lemma PutShared(f: Filling, size: nat)
    requires Packed(Close(f).sent) && (f.open == [] ==> f.sent == [])
    ensures Packed(Close(f.(open := f.open + [size])).sent)
  {
    if f.open != [] {
      PackedOpen(f.sent, f.open, size);
    } else {
      PackedSnoc([], [size]);
    }
  }

  lemma PutNext(f: Filling, size: nat)
    requires Packed(Close(f).sent)
    requires (f.open != [] && Total(f.open) + size > 1023) || Close(f).sent == []
    ensures Packed(Close(f).sent + [[size]])
  {
    PackedSnoc(Close(f).sent, [size]);
  }

  lemma NotDropped(f: Filling, grants: nat -> bool, from: nat)
    requires Sound(f, grants, from) && grants(f.attempts)
    ensures f.held || f.sent == [] || Interrupted(grants, from)
  {
    hide Packed;
  }

  lemma {:induction false} PutAllSound(f: Filling, sizes: seq<nat>, grants: nat -> bool, from: nat)
    requires Sound(f, grants, from) && !Interrupted(grants, from) && FieldSizes(sizes)
    ensures Sound(PutAll(f, sizes, grants), grants, from)
    decreases |sizes|
  {
    hide Sound, Put, Interrupted;
    if sizes != [] {
      assert sizes[0] in sizes && forall n | n in sizes[1..] :: n in sizes;
      PutSound(f, sizes[0], grants, from);
      PutAllSound(Put(f, sizes[0], grants), sizes[1..], grants, from);
    }
  }

  lemma StartSound(cyclic: bool, grants: nat -> bool, from: nat)
    ensures Sound(Started(cyclic, from, grants), grants, from)
  {
    assert cyclic && grants(from) ==> Granted(grants, from, from + 1);
  }

  // ---------------------------------------------------------------------------------------
  // And do not when the transport interrupts

  lemma {:induction false} PutAllJoins(f: Filling, a: seq<nat>, b: seq<nat>, grants: nat -> bool)
    ensures PutAll(f, a + b, grants) == PutAll(PutAll(f, a, grants), b, grants)
    decreases |a|
  {
    hide Put;
    if a == [] {
      assert a + b == b;
    } else {
      assert (a + b)[1..] == a[1..] + b;
      PutAllJoins(Put(f, a[0], grants), a[1..], b, grants);
    }
  }

  lemma PutOne(f: Filling, size: nat, grants: nat -> bool)
    ensures PutAll(f, [size], grants) == Put(f, size, grants)
  {
    assert [size][1..] == [];
  }

  lemma PutSnoc(f: Filling, sizes: seq<nat>, size: nat, grants: nat -> bool)
    requires FieldSizes(sizes) && 0 < size <= 1023
    ensures PutAll(f, sizes + [size], grants) == Put(PutAll(f, sizes, grants), size, grants)
    ensures FieldSizes(sizes + [size])
  {
    hide Put, PutAll;
    PutAllJoins(f, sizes, [size], grants);
    PutOne(PutAll(f, sizes, grants), size, grants);
  }

  lemma PackedBefore(f: Filling, grants: nat -> bool, from: nat)
    requires Sound(f, grants, from)
    ensures Packed(f.sent)
  {
    assert f.open != [] ==> forall i | 0 <= i < |f.sent| :: Close(f).sent[i] == f.sent[i];
  }

  /** No field of any size fits. */
  ghost predicate Full(f: Filling) {
    f.held ==> Total(f.open) == 1023
  }

  /** Full fields use up one acquisition each. */
  lemma {:induction false} FullFor(f: Filling, n: nat, grants: nat -> bool) returns (sizes: seq<nat>)
    requires Full(f)
    ensures FieldSizes(sizes) && Full(PutAll(f, sizes, grants))
    ensures PutAll(f, sizes, grants).attempts == f.attempts + n
    decreases n
  {
    sizes := [];
    if n > 0 {
      var g := Put(f, 1023, grants);
      assert [] + [1023] == [1023];
      OneField(1023);
      var rest := FullFor(g, n - 1, grants);
      sizes := [1023] + rest;
      assert sizes[1..] == rest;
    }
  }

  lemma OneField(n: nat)
    ensures Total([n]) == n
  {
    assert [n][..0] == [];
  }

  /** Until a buffer is granted, each field uses up one acquisition and is lost. */
  lemma {:induction false} LostFor(f: Filling, n: nat, grants: nat -> bool) returns (sizes: seq<nat>)
    requires !f.held && f.open == []
    requires grants(f.attempts + n) && forall a: nat | f.attempts <= a < f.attempts + n :: !grants(a)
    ensures FieldSizes(sizes) && PutAll(f, sizes, grants) == Filling(f.sent, [1], true, f.attempts + n + 1)
    decreases n
  {
    assert [] + [1] == [1];
    if n == 0 {
      sizes := [1];
      PutOne(f, 1, grants);
    } else {
      var rest := LostFor(f.(attempts := f.attempts + 1), n - 1, grants);
      sizes := [1] + rest;
      assert sizes[1..] == rest;
      assert Put(f, 1, grants) == f.(attempts := f.attempts + 1);
    }
  }

  lemma {:induction false} FirstRefused(grants: nat -> bool, a: nat, b: nat) returns (first: nat)
    requires a < b && grants(a) && !grants(b)
    ensures a < first <= b && grants(first - 1) && !grants(first)
    decreases b - a
  {
    if grants(a + 1) {
      first := FirstRefused(grants, a + 1, b);
    } else {
      first := a + 1;
    }
  }

  lemma {:induction false} FirstGranted(grants: nat -> bool, b: nat, c: nat) returns (first: nat)
    requires b <= c && grants(c)
    ensures b <= first <= c && grants(first) && forall a: nat | b <= a < first :: !grants(a)
    decreases c - b
  {
    if grants(b) {
      first := b;
    } else {
      first := FirstGranted(grants, b + 1, c);
    }
  }

  /** A buffer with one octet, which a full field closes in vain, and then another with one octet. */
  lemma Broken(f: Filling, b: nat, c: nat, grants: nat -> bool) returns (sizes: seq<nat>)
    requires f.held && f.open == [1] && f.attempts == b < c && !grants(b) && grants(c)
    ensures FieldSizes(sizes) && !Packed(Close(PutAll(f, sizes, grants)).sent)
  {
    OneField(1);
    var closed := Put(f, 1023, grants);
    assert closed == Filling(f.sent + [[1]], [], false, b + 1);
    var next := FirstGranted(grants, b + 1, c);
    var rest := LostFor(closed, next - b - 1, grants);
    sizes := [1023] + rest;
    assert sizes[1..] == rest;
    var sent := Close(PutAll(f, sizes, grants)).sent;
    assert sent == f.sent + [[1]] + [[1]];
    assert sent[|f.sent|] == [1] && sent[|f.sent| + 1] == [1];
  }

  /** From where nothing fits, full fields up to a grant, and one octet in the buffer granted. */
  lemma ToOne(f: Filling, n: nat, grants: nat -> bool) returns (sizes: seq<nat>)
    requires Full(f) && grants(f.attempts + n)
    ensures FieldSizes(sizes)
    ensures var g := PutAll(f, sizes, grants); g.held && g.open == [1] && g.attempts == f.attempts + n + 1
  {
    var before := FullFor(f, n, grants);
    PutAllJoins(f, before, [1], grants);
    PutOne(PutAll(f, before, grants), 1, grants);
    assert [] + [1] == [1];
    sizes := before + [1];
  }

  /** A writer whose open buffer, the one granted last before b, holds one octet. */
  lemma OneOpen(cyclic: bool, grants: nat -> bool, from: nat, b: nat) returns (sizes: seq<nat>)
    requires from < b && grants(b - 1)
    ensures FieldSizes(sizes)
    ensures var g := PutAll(Started(cyclic, from, grants), sizes, grants);
            g.held && g.open == [1] && g.attempts == b
  {
    var f := Started(cyclic, from, grants);
    if !f.held && f.attempts < b {
      sizes := ToOne(f, b - 1 - f.attempts, grants);
    } else if b == from + 1 {
      sizes := [1];
      PutOne(f, 1, grants);
      assert [] + [1] == [1];
    } else {
      OneField(1023);
      assert [] + [1023] == [1023];
      PutOne(f, 1023, grants);
      var g := Put(f, 1023, grants);
      var rest := ToOne(g, b - 1 - g.attempts, grants);
      PutAllJoins(f, [1023], rest, grants);
      sizes := [1023] + rest;
    }
  }

  lemma Unpacked(cyclic: bool, grants: nat -> bool, from: nat) returns (sizes: seq<nat>)
    requires Interrupted(grants, from)
    ensures FieldSizes(sizes) && !Packed(Close(PutAll(Started(cyclic, from, grants), sizes, grants)).sent)
  {
    hide Packed, PutAll, Started, FieldSizes, Close;
    var a: nat, b: nat, c: nat :| from <= a < b < c && grants(a) && !grants(b) && grants(c);
    var first := FirstRefused(grants, a, b);
    var before := OneOpen(cyclic, grants, from, first);
    var f := Started(cyclic, from, grants);
    var rest := Broken(PutAll(f, before, grants), first, c, grants);
    PutAllJoins(f, before, rest, grants);
    sizes := before + rest;
    SizesJoin(before, rest);
  }

  lemma SizesJoin(a: seq<nat>, b: seq<nat>)
    requires FieldSizes(a) && FieldSizes(b)
    ensures FieldSizes(a + b)
  {
  }

  /**
   * Whatever fields are written, no buffer's first field would have fitted the buffer before it, if
   * and only if the transport never refuses a buffer between two that it grants.
   */
  lemma PackedUnlessInterrupted(cyclic: bool, grants: nat -> bool, from: nat)
    ensures (forall sizes: seq<nat> | FieldSizes(sizes) ::
               Packed(Close(PutAll(Started(cyclic, from, grants), sizes, grants)).sent))
            <==> !Interrupted(grants, from)
  {
    hide Packed, PutAll, Close, Started, Interrupted, FieldSizes;
    if Interrupted(grants, from) {
      var sizes := Unpacked(cyclic, grants, from);
    } else {
      forall sizes: seq<nat> | FieldSizes(sizes)
        ensures Packed(Close(PutAll(Started(cyclic, from, grants), sizes, grants)).sent)
      {
        StartSound(cyclic, grants, from);
        PutAllSound(Started(cyclic, from, grants), sizes, grants, from);
      }
    }
  }
}
