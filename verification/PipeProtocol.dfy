/** Any number of readers and writers on one pipe, each holding the lock for one round of its loop at a time. */
module PipeProtocol {
  import opened Basics
  import opened Bytes
  import opened Pipes

  // ----- user buffers

  /** UserBufferIterator over the slices of a user buffer. */
  datatype Cursor = Cursor(slices: seq<seq<byte>>, buf: nat, idx: nat) {
    /** Iterator::next gives None. */
    predicate Exhausted() {
      buf >= |slices|
    }

    ghost predicate Proper() {
      && (forall i :: 0 <= i < |slices| ==> slices[i] != [])
      && buf <= |slices| && (if buf < |slices| then idx < |slices[buf]| else idx == 0)
    }

    function Byte(): byte
      requires Proper() && !Exhausted()
    {
      slices[buf][idx]
    }

    /** Iterator::next moves to the next byte, or to the next slice. */
    function Advance(): Cursor
      requires Proper() && !Exhausted()
    {
      if idx + 1 == |slices[buf]| then Cursor(slices, buf + 1, 0) else Cursor(slices, buf, idx + 1)
    }

    /** The bytes still to come. */
    ghost function Rest(): seq<byte>
      requires Proper()
    {
      if Exhausted() then [] else slices[buf][idx..] + FlattenFrom(slices, buf + 1)
    }
  }

  ghost function FlattenFrom(slices: seq<seq<byte>>, i: nat): seq<byte>
    decreases |slices| - i
  {
    if i >= |slices| then [] else slices[i] + FlattenFrom(slices, i + 1)
  }

  /** The bytes of all slices. */
  ghost function Flatten(slices: seq<seq<byte>>): seq<byte> {
    FlattenFrom(slices, 0)
  }

  lemma {:induction false} FlattenFromLast(slices: seq<seq<byte>>, last: seq<byte>, i: nat)
    requires i <= |slices|
    ensures FlattenFrom(slices + [last], i) == FlattenFrom(slices, i) + last
    decreases |slices| - i
  {
    if i < |slices| {
      FlattenFromLast(slices, last, i + 1);
      Associate(slices[i], FlattenFrom(slices, i + 1), last);
    } else {
      assert FlattenFrom(slices + [last], i + 1) == [];
    }
  }

  /** The bytes of a buffer are those of its slices, one slice after the other. */
  lemma {:induction false} FlattenIs(slices: seq<seq<byte>>, last: seq<byte>)
    ensures Flatten([]) == [] && Flatten(slices + [last]) == Flatten(slices) + last
  {
    FlattenFromLast(slices, last, 0);
  }

  /** The iterator visits the bytes of all slices in order, each once. */
  lemma {:induction false} AdvanceTakesOne(c: Cursor)
    requires c.Proper() && !c.Exhausted()
    ensures c.Advance().Proper() && c.Rest() == [c.Byte()] + c.Advance().Rest() && c.Advance().slices == c.slices
  {
    if c.idx + 1 == |c.slices[c.buf]| {
      LastOfSlice(c);
    } else {
      InsideSlice(c);
    }
  }

  lemma {:induction false} LastOfSlice(c: Cursor)
    requires c.Proper() && !c.Exhausted() && c.idx + 1 == |c.slices[c.buf]|
    ensures c.Advance().Proper() && c.Rest() == [c.Byte()] + c.Advance().Rest()
  {
    FromStart(c.slices, c.buf + 1);
    assert c.slices[c.buf][c.idx..] == [c.Byte()];
  }

  lemma {:induction false} InsideSlice(c: Cursor)
    requires c.Proper() && !c.Exhausted() && c.idx + 1 < |c.slices[c.buf]|
    ensures c.Advance().Proper() && c.Rest() == [c.Byte()] + c.Advance().Rest()
  {
    TailStep(c.slices[c.buf], c.idx, FlattenFrom(c.slices, c.buf + 1));
  }

  lemma {:induction false} TailStep(slice: seq<byte>, k: nat, rest: seq<byte>)
    requires k < |slice|
    ensures slice[k..] + rest == [slice[k]] + (slice[k + 1..] + rest)
  {
    OneFurther(slice, k);
    Associate([slice[k]], slice[k + 1..], rest);
  }

  lemma {:induction false} Associate(a: seq<byte>, b: seq<byte>, c: seq<byte>)
    ensures (a + b) + c == a + (b + c)
  {
  }

  lemma {:induction false} FromStart(slices: seq<seq<byte>>, i: nat)
    requires i <= |slices|
    ensures FlattenFrom(slices, i) == if i < |slices| then slices[i][0..] + FlattenFrom(slices, i + 1) else []
  {
    if i < |slices| {
      assert slices[i][0..] == slices[i];
    }
  }

  lemma {:induction false} OneFurther(a: seq<byte>, k: nat)
    requires k < |a|
    ensures a[k..] == [a[k]] + a[k + 1..] && a[..k + 1] == a[..k] + [a[k]]
  {
  }

  lemma {:induction false} StartsWithAll(slices: seq<seq<byte>>)
    requires forall i :: 0 <= i < |slices| ==> slices[i] != []
    ensures Cursor(slices, 0, 0).Proper() && Cursor(slices, 0, 0).Rest() == Flatten(slices)
  {
    if slices != [] {
      assert slices[0][0..] == slices[0];
    }
  }

  lemma {:induction false} ExhaustedHasNoRest(c: Cursor)
    requires c.Proper()
    ensures c.Exhausted() <==> c.Rest() == []
  {
  }

  // ----- histories

  /** A byte together with the call that wrote or read it. */
  datatype Tagged = Tagged(who: nat, b: byte)

  ghost function BytesOf(log: seq<Tagged>): seq<byte> {
    if log == [] then [] else BytesOf(log[..|log| - 1]) + [log[|log| - 1].b]
  }

  /** The bytes of one call. */
  ghost function Of(log: seq<Tagged>, who: nat): seq<byte> {
    if log == [] then [] else Of(log[..|log| - 1], who) + if log[|log| - 1].who == who then [log[|log| - 1].b] else []
  }

  lemma {:induction false} Logged(log: seq<Tagged>, x: Tagged, who: nat)
    ensures BytesOf(log + [x]) == BytesOf(log) + [x.b]
    ensures Of(log + [x], who) == Of(log, who) + if x.who == who then [x.b] else []
  {
    assert (log + [x])[..|log|] == log;
  }

  ghost predicate From(log: seq<Tagged>, n: nat) {
    forall i :: 0 <= i < |log| ==> log[i].who < n
  }

  lemma {:induction false} NotYet(log: seq<Tagged>, n: nat)
    requires From(log, n)
    ensures Of(log, n) == []
  {
    if log != [] {
      NotYet(log[..|log| - 1], n);
    }
  }

  // ----- calls in progress

  /** A call of write: how far its iterator is, and the count it will return. */
  datatype Writer = Writer(it: Cursor, size: nat, done: bool)

  /** A call of read: the bytes it has stored into the user buffer so far. */
  datatype Reader = Reader(it: Cursor, got: seq<byte>, done: bool)

  datatype State = State(readers: seq<Reader>, writers: seq<Writer>, ring: seq<byte>, writeEnds: nat,
                         sent: seq<Tagged>, received: seq<Tagged>)

  ghost predicate WriterOk(s: State, w: Writer, who: nat) {
    && w.it.Proper()
    && var data := Flatten(w.it.slices);
      && w.size <= |data| && w.it.Rest() == data[w.size..] && Of(s.sent, who) == data[..w.size]
      && (w.done ==> w.size == |data|) && (s.writeEnds == 0 ==> w.done)
  }

  ghost predicate ReaderOk(s: State, r: Reader, who: nat) {
    && r.it.Proper() && Of(s.received, who) == r.got && |r.got| + |r.it.Rest()| == |Flatten(r.it.slices)|
    && (r.done ==> r.it.Rest() == [] || (s.writeEnds == 0 && s.ring == []))
  }

  /** What was received is what was sent, in the same order, except for what is still in the ring; every write call has
      sent a first part of its buffer and every read call holds what it received. Sealed. */
  ghost predicate Inv(s: State) {
    forall j: nat {:trigger Open(j)} ::
      && BytesOf(s.sent) == BytesOf(s.received) + s.ring && |s.ring| <= 32
      && From(s.sent, |s.writers|) && From(s.received, |s.readers|)
      && (forall i :: 0 <= i < |s.writers| ==> WriterOk(s, s.writers[i], i))
      && (forall i :: 0 <= i < |s.readers| ==> ReaderOk(s, s.readers[i], i))
  }

  lemma {:induction false} InvOpens(s: State)
    requires Inv(s)
    ensures BytesOf(s.sent) == BytesOf(s.received) + s.ring && |s.ring| <= 32
    ensures From(s.sent, |s.writers|) && From(s.received, |s.readers|)
    ensures forall i :: 0 <= i < |s.writers| ==> WriterOk(s, s.writers[i], i)
    ensures forall i :: 0 <= i < |s.readers| ==> ReaderOk(s, s.readers[i], i)
  {
    assert Open(0);
  }

  // ----- what the invariant says to the callers

  /** The bytes read so far are a prefix of the bytes written so far, and the ring holds the difference. */
  ghost predicate InOrder(s: State) {
    BytesOf(s.received) <= BytesOf(s.sent) && BytesOf(s.sent)[|BytesOf(s.received)|..] == s.ring
  }

  lemma {:induction false} ReadsArePrefix(s: State)
    requires Inv(s)
    ensures InOrder(s)
  {
    InvOpens(s);
  }

  /** A finished write has put in its whole buffer. A finished read has filled its buffer, or nothing is left and
      nobody can write any more; in that case everything that was ever written has been read. */
  lemma {:induction false} Finished(s: State, w: nat, r: nat)
    requires Inv(s) && w < |s.writers| && r < |s.readers|
    ensures s.writers[w].done ==>
      Of(s.sent, w) == Flatten(s.writers[w].it.slices) && s.writers[w].size == |Of(s.sent, w)|
    ensures s.readers[r].done && |s.readers[r].got| < |Flatten(s.readers[r].it.slices)| ==>
      s.ring == [] && s.writeEnds == 0 && BytesOf(s.received) == BytesOf(s.sent)
  {
    InvOpens(s);
    assert WriterOk(s, s.writers[w], w) && ReaderOk(s, s.readers[r], r);
    assert s.writers[w].done ==> Of(s.sent, w) == Flatten(s.writers[w].it.slices);
    assert s.ring == [] ==> BytesOf(s.received) + s.ring == BytesOf(s.received);
  }

  // ----- the steps inside a round

  /** Write call w moves its next byte into the ring. */
  function Put(s: State, w: nat): State
    requires w < |s.writers| && s.writers[w].it.Proper() && !s.writers[w].it.Exhausted()
  {
    var me := s.writers[w];
    s.(writers := s.writers[w := Writer(me.it.Advance(), me.size + 1, me.done)],
       ring := s.ring + [me.it.Byte()], sent := s.sent + [Tagged(w, me.it.Byte())])
  }

  /** Read call r takes the oldest byte of the ring. */
  function Take(s: State, r: nat): State
    requires r < |s.readers| && s.readers[r].it.Proper() && !s.readers[r].it.Exhausted() && s.ring != []
  {
    var me := s.readers[r];
    s.(readers := s.readers[r := Reader(me.it.Advance(), me.got + [s.ring[0]], me.done)],
       ring := s.ring[1..], received := s.received + [Tagged(r, s.ring[0])])
  }

  lemma {:induction false} PutWriter(s: State, w: nat, i: nat)
    requires Inv(s) && w < |s.writers| && i < |s.writers| && s.writeEnds > 0 && !s.writers[w].done
    requires s.writers[w].it.Proper() && !s.writers[w].it.Exhausted()
    ensures WriterOk(Put(s, w), Put(s, w).writers[i], i)
  {
    InvOpens(s);
    assert WriterOk(s, s.writers[i], i);
    Logged(s.sent, Tagged(w, s.writers[w].it.Byte()), i);
    if i == w {
      var me := s.writers[w];
      AdvanceTakesOne(me.it);
      OneLess(Flatten(me.it.slices), me.size, me.it.Byte(), me.it.Advance().Rest());
    }
  }

  lemma {:induction false} PutKeeps(s: State, w: nat)
    requires Inv(s) && w < |s.writers| && s.writeEnds > 0 && |s.ring| < 32 && !s.writers[w].done
    requires s.writers[w].it.Proper() && !s.writers[w].it.Exhausted()
    ensures Inv(Put(s, w))
  {
    InvOpens(s);
    var u := Put(s, w);
    Logged(s.sent, Tagged(w, s.writers[w].it.Byte()), w);
    forall i | 0 <= i < |u.writers| ensures WriterOk(u, u.writers[i], i) {
      PutWriter(s, w, i);
    }
    forall i | 0 <= i < |u.readers| ensures ReaderOk(u, u.readers[i], i) {
      assert ReaderOk(s, s.readers[i], i);
    }
  }

  lemma {:induction false} TakeReader(s: State, r: nat, i: nat)
    requires Inv(s) && r < |s.readers| && i < |s.readers| && s.ring != [] && !s.readers[r].done
    requires s.readers[r].it.Proper() && !s.readers[r].it.Exhausted()
    ensures ReaderOk(Take(s, r), Take(s, r).readers[i], i)
  {
    InvOpens(s);
    assert ReaderOk(s, s.readers[i], i);
    Logged(s.received, Tagged(r, s.ring[0]), i);
    if i == r {
      AdvanceTakesOne(s.readers[r].it);
    }
  }

  lemma {:induction false} TakeKeeps(s: State, r: nat)
    requires Inv(s) && r < |s.readers| && s.ring != [] && !s.readers[r].done
    requires s.readers[r].it.Proper() && !s.readers[r].it.Exhausted()
    ensures Inv(Take(s, r))
  {
    InvOpens(s);
    var u := Take(s, r);
    Logged(s.received, Tagged(r, s.ring[0]), r);
    assert s.ring == [s.ring[0]] + u.ring;
    forall i | 0 <= i < |u.writers| ensures WriterOk(u, u.writers[i], i) {
      assert WriterOk(s, s.writers[i], i);
    }
    forall i | 0 <= i < |u.readers| ensures ReaderOk(u, u.readers[i], i) {
      TakeReader(s, r, i);
    }
  }

  // ----- the steps around a round

  /** Write call w returns: its iterator has come to the end. */
  lemma {:induction false} WriterReturns(s: State, w: nat)
    requires Inv(s) && w < |s.writers| && s.writers[w].it.Proper() && s.writers[w].it.Exhausted()
    ensures Inv(s.(writers := s.writers[w := s.writers[w].(done := true)]))
  {
    InvOpens(s);
    var u := s.(writers := s.writers[w := s.writers[w].(done := true)]);
    assert WriterOk(s, s.writers[w], w);
    forall i | 0 <= i < |u.writers| ensures WriterOk(u, u.writers[i], i) {
      assert WriterOk(s, s.writers[i], i);
    }
    forall i | 0 <= i < |u.readers| ensures ReaderOk(u, u.readers[i], i) {
      assert ReaderOk(s, s.readers[i], i);
    }
  }

  /** Read call r returns: its buffer is full, or the ring is empty for good. */
  lemma {:induction false} ReaderReturns(s: State, r: nat)
    requires Inv(s) && r < |s.readers| && s.readers[r].it.Proper()
    requires s.readers[r].it.Exhausted() || (s.ring == [] && s.writeEnds == 0)
    ensures Inv(s.(readers := s.readers[r := s.readers[r].(done := true)]))
  {
    InvOpens(s);
    var u := s.(readers := s.readers[r := s.readers[r].(done := true)]);
    forall i | 0 <= i < |u.writers| ensures WriterOk(u, u.writers[i], i) {
      assert WriterOk(s, s.writers[i], i);
    }
    forall i | 0 <= i < |u.readers| ensures ReaderOk(u, u.readers[i], i) {
      assert ReaderOk(s, s.readers[i], i);
    }
  }

  predicate NonEmpty(slices: seq<seq<byte>>) {
    forall i :: 0 <= i < |slices| ==> slices[i] != []
  }

  lemma {:induction false} WriterStarts(s: State, slices: seq<seq<byte>>)
    requires Inv(s) && s.writeEnds > 0 && NonEmpty(slices)
    ensures Inv(s.(writers := s.writers + [Writer(Cursor(slices, 0, 0), 0, false)]))
  {
    InvOpens(s);
    var u := s.(writers := s.writers + [Writer(Cursor(slices, 0, 0), 0, false)]);
    StartsWithAll(slices);
    NotYet(s.sent, |s.writers|);
    forall i | 0 <= i < |u.writers| ensures WriterOk(u, u.writers[i], i) {
      if i < |s.writers| {
        assert WriterOk(s, s.writers[i], i);
      }
    }
    forall i | 0 <= i < |u.readers| ensures ReaderOk(u, u.readers[i], i) {
      assert ReaderOk(s, s.readers[i], i);
    }
  }

  lemma {:induction false} ReaderStarts(s: State, slices: seq<seq<byte>>)
    requires Inv(s) && NonEmpty(slices)
    ensures Inv(s.(readers := s.readers + [Reader(Cursor(slices, 0, 0), [], false)]))
  {
    InvOpens(s);
    var u := s.(readers := s.readers + [Reader(Cursor(slices, 0, 0), [], false)]);
    StartsWithAll(slices);
    NotYet(s.received, |s.readers|);
    forall i | 0 <= i < |u.writers| ensures WriterOk(u, u.writers[i], i) {
      assert WriterOk(s, s.writers[i], i);
    }
    forall i | 0 <= i < |u.readers| ensures ReaderOk(u, u.readers[i], i) {
      if i < |s.readers| {
        assert ReaderOk(s, s.readers[i], i);
      }
    }
  }

  /** The number of write ends changes; the last one cannot go while a call on it is in progress. */
  lemma {:induction false} EndsChange(s: State, ends: nat)
    requires Inv(s) && s.writeEnds > 0 && (ends == 0 ==> forall i :: 0 <= i < |s.writers| ==> s.writers[i].done)
    ensures Inv(s.(writeEnds := ends))
  {
    InvOpens(s);
    var u := s.(writeEnds := ends);
    forall i | 0 <= i < |u.writers| ensures WriterOk(u, u.writers[i], i) {
      assert WriterOk(s, s.writers[i], i);
    }
    forall i | 0 <= i < |u.readers| ensures ReaderOk(u, u.readers[i], i) {
      assert ReaderOk(s, s.readers[i], i);
    }
  }

  lemma {:induction false} WriterIsProper(s: State, w: nat)
    requires Inv(s) && w < |s.writers|
    ensures s.writers[w].it.Proper() && (!s.writers[w].done ==> s.writeEnds > 0)
  {
    InvOpens(s);
    assert WriterOk(s, s.writers[w], w);
  }

  lemma {:induction false} ReaderIsProper(s: State, r: nat)
    requires Inv(s) && r < |s.readers|
    ensures s.readers[r].it.Proper()
  {
    InvOpens(s);
    assert ReaderOk(s, s.readers[r], r);
  }

  // ----- progress within a round

  lemma {:induction false} OneLess(a: seq<byte>, k: nat, b: byte, t: seq<byte>)
    requires k <= |a| && a[k..] == [b] + t
    ensures k < |a| && a[k] == b && a[k + 1..] == t && a[..k + 1] == a[..k] + [b]
  {
    assert a[k] == a[k..][0];
    OneFurther(a, k);
    assert t == ([b] + t)[1..];
  }

  lemma {:induction false} Twice<T>(q: seq<T>, i: nat, x: T, y: T)
    requires i < |q|
    ensures q[i := x][i := y] == q[i := y]
  {
  }

  /** Bytes as call `who` logs them. */
  ghost function TagAll(who: nat, bytes: seq<byte>): seq<Tagged> {
    seq(|bytes|, i requires 0 <= i < |bytes| => Tagged(who, bytes[i]))
  }

  lemma {:induction false} TagNext(who: nat, bytes: seq<byte>, k: nat)
    requires k < |bytes|
    ensures TagAll(who, bytes[..k + 1]) == TagAll(who, bytes[..k]) + [Tagged(who, bytes[k])]
  {
  }

  /** In this round write call w has moved k bytes since s0. Sealed. */
  ghost predicate Sending(s0: State, s: State, w: nat, k: nat) {
    && w < |s0.writers| == |s.writers| && s0.writers[w].it.Proper() && s.writers[w].it.Proper() && !s.writers[w].done
    && forall j: nat {:trigger Open(j)} ::
      && s == s0.(writers := s0.writers[w := s.writers[w]], ring := s.ring, sent := s.sent)
      && k <= |s0.writers[w].it.Rest()| && s.writers[w].it.Rest() == s0.writers[w].it.Rest()[k..]
      && s.writers[w].size == s0.writers[w].size + k && s.ring == s0.ring + s0.writers[w].it.Rest()[..k]
      && s.sent == s0.sent + TagAll(w, s0.writers[w].it.Rest()[..k])
  }

  lemma {:induction false} SendStarts(s: State, w: nat)
    requires w < |s.writers| && s.writers[w].it.Proper() && !s.writers[w].done
    ensures Sending(s, s, w, 0)
  {
    assert s.writers[w := s.writers[w]] == s.writers;
    assert TagAll(w, s.writers[w].it.Rest()[..0]) == [];
  }

  lemma {:induction false} SendsNext(s0: State, s: State, w: nat, k: nat)
    requires Sending(s0, s, w, k) && !s.writers[w].it.Exhausted()
    ensures Sending(s0, Put(s, w), w, k + 1)
  {
    var it, rest := s.writers[w].it, s0.writers[w].it.Rest();
    AdvanceTakesOne(it);
    SendsByte(s0, s, w, k);
    assert s == s0.(writers := s0.writers[w := s.writers[w]], ring := s.ring, sent := s.sent) by {
      assert Open(0);
    }
    Twice(s0.writers, w, s.writers[w], Put(s, w).writers[w]);
  }

  lemma {:induction false} SendsByte(s0: State, s: State, w: nat, k: nat)
    requires Sending(s0, s, w, k) && !s.writers[w].it.Exhausted()
    ensures var it, rest := s.writers[w].it, s0.writers[w].it.Rest();
      && it.Advance().Proper() && k + 1 <= |rest| && it.Advance().Rest() == rest[k + 1..]
      && s.writers[w].size + 1 == s0.writers[w].size + k + 1
      && s.ring + [it.Byte()] == s0.ring + rest[..k + 1]
      && s.sent + [Tagged(w, it.Byte())] == s0.sent + TagAll(w, rest[..k + 1])
  {
    var it, rest := s.writers[w].it, s0.writers[w].it.Rest();
    AdvanceTakesOne(it);
    assert k <= |rest| && it.Rest() == rest[k..] && s.writers[w].size == s0.writers[w].size + k by {
      assert Open(0);
    }
    OneLess(rest, k, it.Byte(), it.Advance().Rest());
    TagNext(w, rest, k);
    assert s.ring == s0.ring + rest[..k] && s.sent == s0.sent + TagAll(w, rest[..k]) by {
      assert Open(0);
    }
    Associate(s0.ring, rest[..k], [it.Byte()]);
    assert (s0.sent + TagAll(w, rest[..k])) + [Tagged(w, it.Byte())]
        == s0.sent + (TagAll(w, rest[..k]) + [Tagged(w, it.Byte())]);
  }

  /** The size of the ring while k bytes were moved, and whether bytes are left. */
  lemma {:induction false} SendCounts(s0: State, s: State, w: nat, k: nat)
    requires Sending(s0, s, w, k)
    ensures k <= |s0.writers[w].it.Rest()| && |s.ring| == |s0.ring| + k && s.writeEnds == s0.writeEnds
    ensures s.writers[w].it.Exhausted() <==> k == |s0.writers[w].it.Rest()|
  {
    assert Open(0);
    ExhaustedHasNoRest(s.writers[w].it);
  }

  /** What one round of write does. Sealed. */
  ghost predicate WroteRound(s0: State, s: State, w: nat)
    requires w < |s0.writers| && s0.writers[w].it.Proper()
  {
    forall j: nat {:trigger Open(j)} ::
      var rest, room := s0.writers[w].it.Rest(), 32 - |s0.ring|;
      && 0 <= room && |s.writers| == |s0.writers|
      && s == s0.(writers := s0.writers[w := s.writers[w]], ring := s.ring, sent := s.sent)
      && s.writers[w].done == (|rest| < room)
      && var moved := if |rest| < room then rest else rest[..room];
        && s.ring == s0.ring + moved && s.writers[w].size == s0.writers[w].size + |moved|
        && s.sent == s0.sent + TagAll(w, moved)
  }

  lemma {:induction false} RoundFills(s0: State, s: State, w: nat)
    requires |s0.ring| <= 32 && Sending(s0, s, w, 32 - |s0.ring|)
    ensures WroteRound(s0, s, w)
  {
    assert Open(0);
  }

  lemma {:induction false} RoundEnds(s0: State, s: State, w: nat, k: nat)
    requires Sending(s0, s, w, k) && s.writers[w].it.Exhausted() && k < 32 - |s0.ring|
    ensures WroteRound(s0, s.(writers := s.writers[w := s.writers[w].(done := true)]), w)
  {
    SendCounts(s0, s, w, k);
    assert Open(0);
    var rest := s0.writers[w].it.Rest();
    assert rest[..k] == rest;
  }

  /** In this round read call r has taken k bytes since s0. Sealed. */
  ghost predicate Receiving(s0: State, s: State, r: nat, k: nat) {
    && r < |s0.readers| == |s.readers| && s0.readers[r].it.Proper() && s.readers[r].it.Proper() && !s.readers[r].done
    && forall j: nat {:trigger Open(j)} ::
      && s == s0.(readers := s0.readers[r := s.readers[r]], ring := s.ring, received := s.received)
      && k <= |s0.readers[r].it.Rest()| && k <= |s0.ring| && s.readers[r].it.Rest() == s0.readers[r].it.Rest()[k..]
      && s.readers[r].got == s0.readers[r].got + s0.ring[..k] && s.ring == s0.ring[k..]
      && s.received == s0.received + TagAll(r, s0.ring[..k])
  }

  lemma {:induction false} ReceiveStarts(s: State, r: nat)
    requires r < |s.readers| && s.readers[r].it.Proper() && !s.readers[r].done
    ensures Receiving(s, s, r, 0)
  {
    assert s.readers[r := s.readers[r]] == s.readers;
    assert TagAll(r, s.ring[..0]) == [];
  }

  lemma {:induction false} ReceivesNext(s0: State, s: State, r: nat, k: nat)
    requires Receiving(s0, s, r, k) && !s.readers[r].it.Exhausted() && s.ring != []
    ensures Receiving(s0, Take(s, r), r, k + 1)
  {
    var it := s.readers[r].it;
    AdvanceTakesOne(it);
    ReceivesByte(s0, s, r, k);
    ReceivesIntoSpace(s0, s, r, k);
    assert s == s0.(readers := s0.readers[r := s.readers[r]], ring := s.ring, received := s.received) by {
      assert Open(0);
    }
    Twice(s0.readers, r, s.readers[r], Take(s, r).readers[r]);
  }

  lemma {:induction false} ReceivesByte(s0: State, s: State, r: nat, k: nat)
    requires Receiving(s0, s, r, k) && s.ring != []
    ensures k < |s0.ring| && s.ring[1..] == s0.ring[k + 1..]
    ensures s.readers[r].got + [s.ring[0]] == s0.readers[r].got + s0.ring[..k + 1]
    ensures s.received + [Tagged(r, s.ring[0])] == s0.received + TagAll(r, s0.ring[..k + 1])
  {
    assert k <= |s0.ring| && s.readers[r].got == s0.readers[r].got + s0.ring[..k] && s.ring == s0.ring[k..] by {
      assert Open(0);
    }
    OneFurther(s0.ring, k);
    assert s.ring[1..] == s0.ring[k + 1..];
    Associate(s0.readers[r].got, s0.ring[..k], [s.ring[0]]);
    TagNext(r, s0.ring, k);
    assert s.received == s0.received + TagAll(r, s0.ring[..k]) by {
      assert Open(0);
    }
    assert (s0.received + TagAll(r, s0.ring[..k])) + [Tagged(r, s.ring[0])]
        == s0.received + (TagAll(r, s0.ring[..k]) + [Tagged(r, s.ring[0])]);
  }

  lemma {:induction false} ReceivesIntoSpace(s0: State, s: State, r: nat, k: nat)
    requires Receiving(s0, s, r, k) && !s.readers[r].it.Exhausted()
    ensures s.readers[r].it.Advance().Proper() && k < |s0.readers[r].it.Rest()|
    ensures s.readers[r].it.Advance().Rest() == s0.readers[r].it.Rest()[k + 1..]
  {
    var it := s.readers[r].it;
    AdvanceTakesOne(it);
    assert k <= |s0.readers[r].it.Rest()| && it.Rest() == s0.readers[r].it.Rest()[k..] by {
      assert Open(0);
    }
    OneLess(s0.readers[r].it.Rest(), k, it.Byte(), it.Advance().Rest());
  }

  lemma {:induction false} ReceiveCounts(s0: State, s: State, r: nat, k: nat)
    requires Receiving(s0, s, r, k)
    ensures k <= |s0.readers[r].it.Rest()| && |s.ring| == |s0.ring| - k && s.writeEnds == s0.writeEnds
    ensures s.readers[r].it.Exhausted() <==> k == |s0.readers[r].it.Rest()|
  {
    assert Open(0);
    ExhaustedHasNoRest(s.readers[r].it);
  }

  /** What one round of read does. Sealed. */
  ghost predicate ReadARound(s0: State, s: State, r: nat)
    requires r < |s0.readers| && s0.readers[r].it.Proper()
  {
    forall j: nat {:trigger Open(j)} ::
      var space := |s0.readers[r].it.Rest()|;
      && |s.readers| == |s0.readers|
      && s == s0.(readers := s0.readers[r := s.readers[r]], ring := s.ring, received := s.received)
      && s.readers[r].done == (if s0.ring == [] then s0.writeEnds == 0 else space < |s0.ring|)
      && var taken := if space < |s0.ring| then s0.ring[..space] else s0.ring;
        && s.readers[r].got == s0.readers[r].got + taken && s.ring == s0.ring[|taken|..]
        && s.received == s0.received + TagAll(r, taken)
  }

  lemma {:induction false} NothingToRead(s: State, r: nat)
    requires r < |s.readers| && s.readers[r].it.Proper() && s.ring == [] && !s.readers[r].done
    ensures ReadARound(s, s.(readers := s.readers[r := s.readers[r].(done := s.writeEnds == 0)]), r)
  {
    assert s.readers[r].got + s.ring == s.readers[r].got;
    assert TagAll(r, s.ring) == [];
  }

  lemma {:induction false} RoundEmpties(s0: State, s: State, r: nat)
    requires Receiving(s0, s, r, |s0.ring|) && s0.ring != []
    ensures ReadARound(s0, s, r)
  {
    assert Open(0);
    assert s0.ring[..|s0.ring|] == s0.ring;
  }

  lemma {:induction false} RoundStops(s0: State, s: State, r: nat, k: nat)
    requires Receiving(s0, s, r, k) && s.readers[r].it.Exhausted() && k < |s0.ring|
    ensures ReadARound(s0, s.(readers := s.readers[r := s.readers[r].(done := true)]), r)
  {
    ReceiveCounts(s0, s, r, k);
    assert Open(0);
  }

  // ----- the pipe

  /** One pipe with all calls on it that are in progress or have returned. */
  class SharedPipe {
    const ring: PipeRingBuffer
    var readers: seq<Reader>
    var writers: seq<Writer>
    var writeEnds: nat
    ghost var sent: seq<Tagged>
    ghost var received: seq<Tagged>

    ghost function Now(): State
      reads this, ring
    {
      State(readers, writers, ring.contents, writeEnds, sent, received)
    }

    ghost predicate Valid()
      reads this, ring, ring.arr
    {
      ring.Valid() && Inv(Now())
    }

    /** make_pipe: one write end. */
    constructor ()
      ensures Valid() && Now() == State([], [], [], 1, [], []) && fresh(ring) && fresh(ring.arr)
    {
      ring := new PipeRingBuffer();
      readers, writers, writeEnds, sent, received := [], [], 1, [], [];
    }

    method StartWrite(slices: seq<seq<byte>>)
      requires Valid() && writeEnds > 0 && NonEmpty(slices)
      modifies this`writers
      ensures Valid() && writers == old(writers) + [Writer(Cursor(slices, 0, 0), 0, false)]
    {
      WriterStarts(Now(), slices);
      writers := writers + [Writer(Cursor(slices, 0, 0), 0, false)];
    }

    method StartRead(slices: seq<seq<byte>>)
      requires Valid() && NonEmpty(slices)
      modifies this`readers
      ensures Valid() && readers == old(readers) + [Reader(Cursor(slices, 0, 0), [], false)]
    {
      ReaderStarts(Now(), slices);
      readers := readers + [Reader(Cursor(slices, 0, 0), [], false)];
    }

    /** A write end is cloned by fork, or dropped. */
    method SetWriteEnds(ends: nat)
      requires Valid() && writeEnds > 0 && (ends == 0 ==> forall i :: 0 <= i < |writers| ==> writers[i].done)
      modifies this`writeEnds
      ensures Valid() && writeEnds == ends
    {
      EndsChange(Now(), ends);
      writeEnds := ends;
    }

    /** The next byte of write call w goes into the ring. */
    method PutByte(w: nat)
      requires Valid() && w < |writers| && !writers[w].done && writers[w].it.Proper() && !writers[w].it.Exhausted()
      requires writeEnds > 0 && |ring.contents| < 32
      modifies this`writers, this`sent, ring, ring.arr
      ensures Valid() && Now() == Put(old(Now()), w)
    {
      PutKeeps(Now(), w);
      var b := writers[w].it.Byte();
      ring.WriteByte(b);
      writers := writers[w := Writer(writers[w].it.Advance(), writers[w].size + 1, writers[w].done)];
      sent := sent + [Tagged(w, b)];
    }

    /** The oldest byte of the ring goes to read call r. */
    method TakeByte(r: nat)
      requires Valid() && r < |readers| && !readers[r].done && readers[r].it.Proper() && !readers[r].it.Exhausted()
      requires ring.contents != []
      modifies this`readers, this`received, ring
      ensures Valid() && Now() == Take(old(Now()), r)
    {
      TakeKeeps(Now(), r);
      var b := ring.ReadByte();
      readers := readers[r := Reader(readers[r].it.Advance(), readers[r].got + [b], readers[r].done)];
      received := received + [Tagged(r, b)];
    }

    /** One round of Pipe::write by call w. It moves as many bytes as there is room for. The call returns exactly
        when fewer bytes are left than there is room for; with nothing left to write but a full ring, or exactly as
        many bytes as room, it needs another round. */
    method WriteRound(w: nat)
      requires Valid() && w < |writers| && !writers[w].done && writers[w].it.Proper()
      modifies this`writers, this`sent, ring, ring.arr
      ensures Valid() && WroteRound(old(Now()), Now(), w)
    {
      ghost var s0 := Now();
      WriterIsProper(s0, w);
      SendStarts(s0, w);
      var room := ring.AvailableWrite();
      var k := 0;
      while k < room
        invariant Valid() && k <= room && Sending(s0, Now(), w, k) && writeEnds > 0
      {
        var more := SendOne(w, k, s0);
        if !more {
          return;
        }
        k := k + 1;
      }
      RoundFills(s0, Now(), w);
    }

    /** One byte of the round; false when there is none and the call returns. */
    method SendOne(w: nat, ghost k: nat, ghost s0: State) returns (more: bool)
      requires Valid() && Sending(s0, Now(), w, k) && k < 32 - |s0.ring| && writeEnds > 0
      modifies this`writers, this`sent, ring, ring.arr
      ensures Valid() && if more then Sending(s0, Now(), w, k + 1) else WroteRound(s0, Now(), w)
    {
      SendCounts(s0, Now(), w, k);
      more := !writers[w].it.Exhausted();
      if more {
        SendsNext(s0, Now(), w, k);
        PutByte(w);
      } else {
        WriterReturns(Now(), w);
        RoundEnds(s0, Now(), w, k);
        writers := writers[w := writers[w].(done := true)];
      }
    }

    /** One round of Pipe::read by call r. An empty ring ends the call only when all write ends are closed.
        Otherwise it takes what there is, as far as its buffer goes, and returns exactly when the buffer has less
        space than the ring has bytes; a buffer filled by the last byte of the ring needs another round. */
    method ReadRound(r: nat)
      requires Valid() && r < |readers| && !readers[r].done && readers[r].it.Proper()
      modifies this`readers, this`received, ring
      ensures Valid() && ReadARound(old(Now()), Now(), r)
    {
      ghost var s0 := Now();
      var available := ring.AvailableRead();
      if available == 0 {
        FindNothing(r);
        return;
      }
      ReceiveStarts(s0, r);
      var k := 0;
      while k < available
        invariant Valid() && k <= available && Receiving(s0, Now(), r, k)
      {
        var more := ReceiveOne(r, k, s0);
        if !more {
          return;
        }
        k := k + 1;
      }
      RoundEmpties(s0, Now(), r);
    }

    /** An empty ring: the call returns when all write ends are closed. */
    method FindNothing(r: nat)
      requires Valid() && r < |readers| && !readers[r].done && readers[r].it.Proper() && ring.contents == []
      modifies this`readers
      ensures Valid() && ReadARound(old(Now()), Now(), r)
    {
      NothingToRead(Now(), r);
      if writeEnds == 0 {
        ReaderReturns(Now(), r);
        readers := readers[r := readers[r].(done := true)];
      } else {
        assert readers[r := readers[r].(done := false)] == readers;
      }
    }

    /** One byte of the round; false when the buffer is full and the call returns. */
    method ReceiveOne(r: nat, ghost k: nat, ghost s0: State) returns (more: bool)
      requires Valid() && Receiving(s0, Now(), r, k) && k < |s0.ring|
      modifies this`readers, this`received, ring
      ensures Valid() && if more then Receiving(s0, Now(), r, k + 1) else ReadARound(s0, Now(), r)
    {
      ReceiveCounts(s0, Now(), r, k);
      more := !readers[r].it.Exhausted();
      if more {
        ReceivesNext(s0, Now(), r, k);
        TakeByte(r);
      } else {
        ReaderReturns(Now(), r);
        RoundStops(s0, Now(), r, k);
        readers := readers[r := readers[r].(done := true)];
      }
    }
  
    /** Whatever the scheduler lets the calls do next, as far as it is possible. */
    method Turn(move: Move)
      requires Valid()
      modifies this, ring, ring.arr
      ensures Valid() && Moved(old(Now()), Now(), move)
    {
      match move {
        case BeginWrite(slices) =>
          if writeEnds > 0 && NonEmpty(slices) {
            StartWrite(slices);
          }
        case BeginRead(slices) =>
          if NonEmpty(slices) {
            StartRead(slices);
          }
        case WriteTurn(w) =>
          if w < |writers| && !writers[w].done {
            WriterIsProper(Now(), w);
            WriteRound(w);
          }
        case ReadTurn(r) =>
          if r < |readers| && !readers[r].done {
            ReaderIsProper(Now(), r);
            ReadRound(r);
          }
        case Ends(n) =>
          if writeEnds > 0 && (n > 0 || forall i :: 0 <= i < |writers| ==> writers[i].done) {
            SetWriteEnds(n);
          }
      }
    }

    /** The next move of a schedule. */
    method OneMove(moves: seq<Move>, i: nat, ghost before: seq<State>) returns (ghost trace: seq<State>)
      requires Valid() && i < |moves| && |before| == i + 1 && before[i] == Now() && Traced(before, moves, i)
      modifies this, ring, ring.arr
      ensures Valid() && trace == before + [Now()] && Traced(trace, moves, i + 1)
    {
      Turn(moves[i]);
      ReadsArePrefix(Now());
      TracedOn(before, moves, i, Now());
      trace := before + [Now()];
    }

    /** Every schedule is carried out move by move, through sound states; in each of them the bytes read are a prefix of
        the bytes written, and the ring holds the rest. */
    method Run(moves: seq<Move>) returns (ghost trace: seq<State>)
      requires Valid()
      modifies this, ring, ring.arr
      ensures Valid() && |trace| == |moves| + 1 && trace[0] == old(Now()) && trace[|moves|] == Now()
      ensures forall i :: 0 <= i < |moves| ==> Moved(trace[i], trace[i + 1], moves[i])
      ensures forall i :: 0 <= i <= |moves| ==> InOrder(trace[i])
    {
      trace := [Now()];
      ReadsArePrefix(Now());
      var i := 0;
      while i < |moves|
        invariant i <= |moves| && Valid() && |trace| == i + 1 && trace[0] == old(Now()) && trace[i] == Now()
        invariant Traced(trace, moves, i)
      {
        trace := OneMove(moves, i, trace);
        i := i + 1;
      }
      TracedOpens(trace, moves, i);
    }
  }

  /** The first n moves lead through these states. Sealed. */
  ghost predicate Traced(trace: seq<State>, moves: seq<Move>, n: nat) {
    forall j: nat {:trigger Open(j)} ::
      && |trace| == n + 1 && n <= |moves|
      && (forall i :: 0 <= i < n ==> Moved(trace[i], trace[i + 1], moves[i]))
      && (forall i :: 0 <= i <= n ==> InOrder(trace[i]))
  }

  lemma {:induction false} TracedOpens(trace: seq<State>, moves: seq<Move>, n: nat)
    requires Traced(trace, moves, n)
    ensures |trace| == n + 1 && n <= |moves|
    ensures forall i :: 0 <= i < n ==> Moved(trace[i], trace[i + 1], moves[i])
    ensures forall i :: 0 <= i <= n ==> InOrder(trace[i])
  {
    assert Open(0);
  }

  lemma {:induction false} TracedOn(trace: seq<State>, moves: seq<Move>, n: nat, t: State)
    requires Traced(trace, moves, n) && n < |moves| && |trace| == n + 1 && Moved(trace[n], t, moves[n]) && InOrder(t)
    ensures Traced(trace + [t], moves, n + 1)
  {
    var all := trace + [t];
    forall i | 0 <= i < n + 1 ensures Moved(all[i], all[i + 1], moves[i]) && InOrder(all[i]) {
      assert all[i] == trace[i] && (i < n ==> all[i + 1] == trace[i + 1]);
      assert Open(0);
    }
  }

  /** What a move does to the pipe. One that is not possible does nothing. */
  ghost predicate Moved(s: State, t: State, move: Move) {
    match move
    case BeginWrite(slices) =>
      t == if s.writeEnds > 0 && NonEmpty(slices)
           then s.(writers := s.writers + [Writer(Cursor(slices, 0, 0), 0, false)]) else s
    case BeginRead(slices) =>
      t == if NonEmpty(slices) then s.(readers := s.readers + [Reader(Cursor(slices, 0, 0), [], false)]) else s
    case WriteTurn(w) =>
      if w < |s.writers| && !s.writers[w].done then s.writers[w].it.Proper() && WroteRound(s, t, w) else t == s
    case ReadTurn(r) =>
      if r < |s.readers| && !s.readers[r].done then s.readers[r].it.Proper() && ReadARound(s, t, r) else t == s
    case Ends(n) =>
      t == if s.writeEnds > 0 && (n > 0 || forall i :: 0 <= i < |s.writers| ==> s.writers[i].done)
           then s.(writeEnds := n) else s
  }

  datatype Move =
    | BeginWrite(data: seq<seq<byte>>)
    | BeginRead(space: seq<seq<byte>>)
    | WriteTurn(w: nat)
    | ReadTurn(r: nat)
    | Ends(n: nat)
}
