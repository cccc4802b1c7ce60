/**
  The read worker's byte decoder: the tag switch applied to each received
  byte in order, writing assembled samples into the double buffer and
  posting read-complete messages. `high` is the worker's retained high
  register (`tmp_high`).
*/
module Decoder {
  import opened Results
  import opened Wire
  import opened Buffers
  import opened Messages

  /** Decoder state after some input: buffers, high register, messages posted. */
  datatype Decoded = Decoded(bufs: BufferSet, high: int, events: seq<Notice>)

  /** The cursor after a sample that does not end the frame: advance, and wrap to 0 on overflow. */
  function Advance(index: int, length: int): (r: int)
    requires 0 <= index < length
    ensures 0 <= r < length
    ensures r == 0 <==> index + 1 == length
    ensures r != 0 ==> r == index + 1
  {
    if index + 1 >= length then 0 else index + 1
  }

  /** The buffer a commit tag stores into: the back buffer for burst tags, the front one otherwise. */
  function Target(bs: BufferSet, t: Tag): Bit {
    if t == BurstLow || t == BurstEnd then bs.active else 1 - bs.active
  }

  /**
    The cursor, selector and mode after a commit byte with tag `t` has
    stored its sample: an end of record swaps the buffers, an end of
    record or of sweep rewinds the cursor, any other sample advances it.
  */
  function Settle(w: BufferSet, t: Tag): BufferSet
    requires 0 <= w.index < w.length
  {
    w.(active := if t == BurstEnd then 1 - w.active else w.active,
       index := if t == BurstEnd || t == ContinuousWrap then 0 else Advance(w.index, w.length),
       mode := if t == BurstLow || t == BurstEnd then Burst else Continuous)
  }

  /** The decoder's handling of one byte (one pass of the `switch`). */
  function Step(bs: BufferSet, high: int, b: Byte): (r: Result<Decoded>)
    requires bs.Valid() && 0 <= high < 32
    ensures r.Ok? ==> r.value.bufs.Valid() && r.value.bufs.length == bs.length
    ensures r.Ok? ==> 0 <= r.value.high < 32
    ensures r.Ok? ==> r.value.high == (if TagOf(b) == High then Payload(b) else high)
    ensures r.Ok? ==> r.value.events == (if TagOf(b).Completes() then [ReadComplete] else [])
    ensures r.Err? <==> TagOf(b).Commits() && bs.length == 0
  {
    var t := TagOf(b);
    match t
    case High =>
      Ok(Decoded(bs, Payload(b), []))
    case Discard =>
      Ok(Decoded(bs.(index := 0), high, []))
    case Unused =>
      Ok(Decoded(bs, high, []))
    case _ =>
      var w :- bs.Store(Target(bs, t), bs.index, Assemble(high, b));
      Ok(Decoded(Settle(w, t), high, if t.Completes() then [ReadComplete] else []))
  }

  /** `after` differs from `before` only in slot `i` of buffer `k`, which now holds `v`. */
  ghost predicate WroteOnly(before: BufferSet, after: BufferSet, k: Bit, i: int, v: int) {
    && 0 <= i < |before.Buffer(k)|
    && |after.Buffer(k)| == |before.Buffer(k)|
    && after.Buffer(k)[i] == v
    && (forall j :: 0 <= j < |before.Buffer(k)| && j != i ==> after.Buffer(k)[j] == before.Buffer(k)[j])
    && after.Buffer(1 - k) == before.Buffer(1 - k)
  }

  /** A high byte only loads the high register. */
  lemma StepHigh(bs: BufferSet, high: int, b: Byte)
    requires bs.Valid() && 0 <= high < 32 && TagOf(b) == High
    ensures Step(bs, high, b) == Ok(Decoded(bs, Payload(b), []))
  {
  }

  /** `StepBurstLow` with the cursor given by `Advance`, free of modular arithmetic for the inductive proofs. */
  lemma StepBurstLowCore(bs: BufferSet, high: int, b: Byte)
    requires bs.Valid() && bs.length > 0 && 0 <= high < 32 && TagOf(b) == BurstLow
    ensures Step(bs, high, b).Ok?
    ensures var d := Step(bs, high, b).value;
      && WroteOnly(bs, d.bufs, bs.active, bs.index, high * 32 + Payload(b))
      && d.bufs.active == bs.active
      && d.bufs.Front() == bs.Front()
      && d.bufs.index == Advance(bs.index, bs.length)
      && d.bufs.mode == Burst
      && d.high == high
      && d.events == []
  {
  }

  /**
    A burst sample (0x20) stores into the back buffer at the cursor and
    advances the cursor with wrap-around; the front buffer the renderer
    reads, the selector and the high register stay as they were.
  */
  lemma StepBurstLow(bs: BufferSet, high: int, b: Byte)
    requires bs.Valid() && bs.length > 0 && 0 <= high < 32 && TagOf(b) == BurstLow
    ensures Step(bs, high, b).Ok?
    ensures var d := Step(bs, high, b).value;
      && WroteOnly(bs, d.bufs, bs.active, bs.index, high * 32 + Payload(b))
      && d.bufs.active == bs.active
      && d.bufs.Front() == bs.Front()
      && d.bufs.index == (bs.index + 1) % bs.length
      && d.bufs.mode == Burst
      && d.high == high
      && d.events == []
  {
    StepBurstLowCore(bs, high, b);
    AdvanceWraps(bs.index, bs.length);
  }

  /**
    A burst end of record (0x40) stores into the back buffer at the
    cursor, then swaps the buffers, rewinds the cursor and posts one
    read-complete message: the renderer now reads the buffer just written.
  */
  lemma StepBurstEnd(bs: BufferSet, high: int, b: Byte)
    requires bs.Valid() && bs.length > 0 && 0 <= high < 32 && TagOf(b) == BurstEnd
    ensures Step(bs, high, b).Ok?
    ensures var d := Step(bs, high, b).value;
      && WroteOnly(bs, d.bufs, bs.active, bs.index, high * 32 + Payload(b))
      && d.bufs.active == 1 - bs.active
      && d.bufs.index == 0
      && d.bufs.mode == Burst
      && d.high == high
      && d.events == [ReadComplete]
      && (forall i :: 0 <= i < bs.length ==>
            BuffData(d.bufs, i) == Ok(if i == bs.index then high * 32 + Payload(b) else bs.Buffer(bs.active)[i]))
  {
  }

  /**
    Continuous samples (0x60, 0x80) store into the front buffer at the
    cursor and advance it with wrap-around, never touching the selector;
    only the end-of-segment byte posts a read-complete message.
  */
  lemma StepContinuous(bs: BufferSet, high: int, b: Byte)
    requires bs.Valid() && bs.length > 0 && 0 <= high < 32
    requires TagOf(b) == ContinuousLow || TagOf(b) == ContinuousEnd
    ensures Step(bs, high, b).Ok?
    ensures var d := Step(bs, high, b).value;
      && WroteOnly(bs, d.bufs, 1 - bs.active, bs.index, high * 32 + Payload(b))
      && d.bufs.active == bs.active
      && d.bufs.index == (bs.index + 1) % bs.length
      && d.bufs.mode == Continuous
      && d.high == high
      && (d.events == [ReadComplete] <==> TagOf(b) == ContinuousEnd)
      && (d.events == [] <==> TagOf(b) == ContinuousLow)
  {
    AdvanceWraps(bs.index, bs.length);
  }

  /**
    A continuous end of sweep (0xA0) stores into the front buffer at the
    cursor, rewinds the cursor without swapping, and posts one message.
  */
  lemma StepContinuousWrap(bs: BufferSet, high: int, b: Byte)
    requires bs.Valid() && bs.length > 0 && 0 <= high < 32 && TagOf(b) == ContinuousWrap
    ensures Step(bs, high, b).Ok?
    ensures var d := Step(bs, high, b).value;
      && WroteOnly(bs, d.bufs, 1 - bs.active, bs.index, high * 32 + Payload(b))
      && d.bufs.active == bs.active
      && d.bufs.index == 0
      && d.bufs.mode == Continuous
      && d.high == high
      && d.events == [ReadComplete]
  {
  }

  /** A force-discard byte (0xC0) rewinds the cursor and changes nothing else, whatever the cursor was. */
  lemma StepDiscard(bs: BufferSet, high: int, b: Byte)
    requires bs.Valid() && 0 <= high < 32 && TagOf(b) == Discard
    ensures Step(bs, high, b) == Ok(Decoded(bs.(index := 0), high, []))
  {
  }

  /** A byte with tag 0xE0 matches no case and leaves the whole decoder state alone. */
  lemma StepUnused(bs: BufferSet, high: int, b: Byte)
    requires bs.Valid() && 0 <= high < 32 && TagOf(b) == Unused
    ensures Step(bs, high, b) == Ok(Decoded(bs, high, []))
  {
  }

  /** Continue a decoding result with the messages an earlier part of the input posted. */
  function Prepend(events: seq<Notice>, r: Result<Decoded>): Result<Decoded> {
    match r
    case Ok(d) => Ok(d.(events := events + d.events))
    case Err(f) => Err(f)
  }

  /**
    The decoder run over a byte sequence in arrival order: the state after
    the last byte, with every message posted; the first out-of-range store
    aborts the run with its exception.
  */
  function Feed(bs: BufferSet, high: int, bytes: seq<Byte>): (r: Result<Decoded>)
    requires bs.Valid() && 0 <= high < 32
    ensures r.Ok? ==> r.value.bufs.Valid() && r.value.bufs.length == bs.length
    ensures r.Ok? ==> 0 <= r.value.high < 32
    ensures bs.length > 0 ==> r.Ok?
    decreases |bytes|
  {
    if |bytes| == 0 then Ok(Decoded(bs, high, []))
    else
      var d :- Feed(bs, high, bytes[..|bytes| - 1]);
      Prepend(d.events, Step(d.bufs, d.high, bytes[|bytes| - 1]))
  }

  /** Feeding one more byte: run the prefix, then step on the byte. */
  lemma FeedSnoc(bs: BufferSet, high: int, init: seq<Byte>, b: Byte)
    requires bs.Valid() && 0 <= high < 32
    ensures Feed(bs, high, init + [b]) ==
      (var r := Feed(bs, high, init);
       if r.Err? then r else Prepend(r.value.events, Step(r.value.bufs, r.value.high, b)))
  {
    assert (init + [b])[..|init|] == init;
    assert (init + [b])[|init|] == b;
  }

  /** Feeding two pieces one after the other is feeding their concatenation. */
  lemma {:induction false} FeedConcat(bs: BufferSet, high: int, a: seq<Byte>, b: seq<Byte>)
    requires bs.Valid() && 0 <= high < 32
    ensures Feed(bs, high, a + b) ==
      (var ra := Feed(bs, high, a);
       if ra.Err? then ra else Prepend(ra.value.events, Feed(ra.value.bufs, ra.value.high, b)))
    decreases |b|
  {
    if |b| == 0 {
      assert a + b == a;
      var ra := Feed(bs, high, a);
      if ra.Ok? {
        assert ra.value.events + [] == ra.value.events;
      }
    } else {
      var b', last := b[..|b| - 1], b[|b| - 1];
      assert (a + b)[..|a + b| - 1] == a + b';
      assert (a + b)[|a + b| - 1] == last;
      FeedConcat(bs, high, a, b');
      var ra := Feed(bs, high, a);
      if ra.Ok? {
        var da := ra.value;
        var rb := Feed(da.bufs, da.high, b');
        if rb.Ok? {
          var e := rb.value;
          PrependAssoc(da.events, e.events, Step(e.bufs, e.high, last));
        }
      }
    }
  }

  /** Prepending two message lists one after the other is prepending their concatenation. */
  lemma PrependAssoc(x: seq<Notice>, y: seq<Notice>, r: Result<Decoded>)
    ensures Prepend(x, Prepend(y, r)) == Prepend(x + y, r)
  {
    if r.Ok? {
      assert x + (y + r.value.events) == x + y + r.value.events;
    }
  }

  /** The number of bytes whose tag posts a read-complete message. */
  function Completions(bytes: seq<Byte>): (n: nat)
    ensures n <= |bytes|
  {
    if |bytes| == 0 then 0
    else Completions(bytes[..|bytes| - 1]) + (if TagOf(bytes[|bytes| - 1]).Completes() then 1 else 0)
  }

  /**
    A decoding run posts only read-complete messages, exactly one per
    end-of-record, end-of-segment and end-of-sweep byte.
  */
  lemma {:induction false} FeedEvents(bs: BufferSet, high: int, bytes: seq<Byte>)
    requires bs.Valid() && 0 <= high < 32
    ensures Feed(bs, high, bytes).Ok? ==>
      && |Feed(bs, high, bytes).value.events| == Completions(bytes)
      && forall i :: 0 <= i < |Feed(bs, high, bytes).value.events| ==> Feed(bs, high, bytes).value.events[i] == ReadComplete
    decreases |bytes|
  {
    if |bytes| > 0 {
      FeedEvents(bs, high, bytes[..|bytes| - 1]);
    }
  }

  /**
    `h` is what the high register holds after `bytes`, starting from
    `high`: the payload of the last high byte, or `high` if there is none.
  */
  ghost predicate HighAfter(high: int, bytes: seq<Byte>, h: int) {
    && ((forall i :: 0 <= i < |bytes| ==> TagOf(bytes[i]) != High) ==> h == high)
    && (forall j :: (0 <= j < |bytes| && TagOf(bytes[j]) == High &&
                     (forall k :: j < k < |bytes| ==> TagOf(bytes[k]) != High)) ==> h == Payload(bytes[j]))
  }

  /** Extending `HighAfter` by the register update of one more byte. */
  lemma HighAfterSnoc(high: int, bytes: seq<Byte>, prev: int, h: int)
    requires |bytes| > 0 && HighAfter(high, bytes[..|bytes| - 1], prev)
    requires h == (if TagOf(bytes[|bytes| - 1]) == High then Payload(bytes[|bytes| - 1]) else prev)
    ensures HighAfter(high, bytes, h)
  {
    var init, last := bytes[..|bytes| - 1], bytes[|bytes| - 1];
    forall j | 0 <= j < |bytes| && TagOf(bytes[j]) == High && (forall k :: j < k < |bytes| ==> TagOf(bytes[k]) != High)
      ensures h == Payload(bytes[j])
    {
      if j < |bytes| - 1 {
        assert TagOf(last) != High;
        assert forall k :: j < k < |init| ==> init[k] == bytes[k];
        assert init[j] == bytes[j];
      }
    }
    if forall i :: 0 <= i < |bytes| ==> TagOf(bytes[i]) != High {
      assert TagOf(last) != High;
      assert forall i :: 0 <= i < |init| ==> init[i] == bytes[i];
    }
  }

  /**
    Only a high byte loads the high register: after a run it holds the
    payload of the last high byte, or its old value if there was none.
  */
  lemma {:induction false} FeedHigh(bs: BufferSet, high: int, bytes: seq<Byte>)
    requires bs.Valid() && 0 <= high < 32
    ensures Feed(bs, high, bytes).Ok? ==>
      && ((forall i :: 0 <= i < |bytes| ==> TagOf(bytes[i]) != High) ==> Feed(bs, high, bytes).value.high == high)
      && (forall j :: (0 <= j < |bytes| && TagOf(bytes[j]) == High &&
                       (forall k :: j < k < |bytes| ==> TagOf(bytes[k]) != High)) ==>
            Feed(bs, high, bytes).value.high == Payload(bytes[j]))
    decreases |bytes|
  {
    var r := Feed(bs, high, bytes);
    if r.Ok? {
      assert HighAfter(high, bytes, r.value.high) by {
        if |bytes| > 0 {
          FeedHigh(bs, high, bytes[..|bytes| - 1]);
          var d := Feed(bs, high, bytes[..|bytes| - 1]).value;
          HighAfterSnoc(high, bytes, d.high, r.value.high);
        }
      }
    }
  }

  /** One step keeps every stored value a 10-bit sample. */
  lemma StepInRange(bs: BufferSet, high: int, b: Byte)
    requires bs.Valid() && 0 <= high < 32
    ensures bs.InRange() && Step(bs, high, b).Ok? ==> Step(bs, high, b).value.bufs.InRange()
  {
    var s := Step(bs, high, b);
    if bs.InRange() && s.Ok? {
      var e := s.value.bufs;
      forall k: Bit, i | 0 <= i < |e.Buffer(k)|
        ensures 0 <= e.Buffer(k)[i] <= 1023
      {
        assert e.Buffer(k)[i] == bs.Buffer(k)[i] || e.Buffer(k)[i] == Assemble(high, b);
      }
      assert e.buf0 == e.Buffer(0) && e.buf1 == e.Buffer(1);
    }
  }

  /** Decoding keeps every stored value a 10-bit sample. */
  lemma {:induction false} FeedInRange(bs: BufferSet, high: int, bytes: seq<Byte>)
    requires bs.Valid() && 0 <= high < 32
    ensures bs.InRange() && Feed(bs, high, bytes).Ok? ==> Feed(bs, high, bytes).value.bufs.InRange()
    decreases |bytes|
  {
    if |bytes| > 0 {
      FeedInRange(bs, high, bytes[..|bytes| - 1]);
      var r := Feed(bs, high, bytes[..|bytes| - 1]);
      if r.Ok? {
        StepInRange(r.value.bufs, r.value.high, bytes[|bytes| - 1]);
      }
    }
  }

  /**
    The only exception decoding can raise is the store into an empty
    buffer set: a run fails exactly when the buffers have length 0 and
    some byte carries a sample.
  */
  lemma {:induction false} FeedFaults(bs: BufferSet, high: int, bytes: seq<Byte>)
    requires bs.Valid() && 0 <= high < 32
    ensures Feed(bs, high, bytes).Err? <==>
      bs.length == 0 && exists i :: 0 <= i < |bytes| && TagOf(bytes[i]).Commits()
    decreases |bytes|
  {
    if |bytes| > 0 {
      var init := bytes[..|bytes| - 1];
      FeedFaults(bs, high, init);
      if exists i :: 0 <= i < |init| && TagOf(init[i]).Commits() {
        var i :| 0 <= i < |init| && TagOf(init[i]).Commits();
        assert TagOf(bytes[i]).Commits();
      }
      if exists i :: 0 <= i < |bytes| && TagOf(bytes[i]).Commits() {
        var i :| 0 <= i < |bytes| && TagOf(bytes[i]).Commits();
        if i < |init| {
          assert TagOf(init[i]).Commits();
        }
      }
    }
  }

  /** Every byte of the sequence has tag `t`. */
  predicate AllTagged(bytes: seq<Byte>, t: Tag) {
    forall i :: 0 <= i < |bytes| ==> TagOf(bytes[i]) == t
  }

  lemma MulBound(a: int, n: int)
    requires n > 0
    ensures a >= 1 ==> a * n >= n
    ensures a <= -1 ==> a * n <= -n
  {
  }

  /** Euclidean division is unique: a quotient and remainder pair with `0 <= r < n` is the one `/` and `%` give. */
  lemma DivModUnique(x: int, n: int, q: int, r: int)
    requires n > 0 && 0 <= r < n && x == q * n + r
    ensures x / n == q && x % n == r
  {
    var q', r' := x / n, x % n;
    assert x == q' * n + r';
    assert (q - q') * n == r' - r;
    MulBound(q - q', n);
  }

  lemma ModSmall(x: int, n: int)
    requires 0 <= x < n
    ensures x % n == x
  {
    DivModUnique(x, n, 0, x);
  }

  /** The cursor advance is the increment modulo the buffer length. */
  lemma AdvanceWraps(index: int, length: int)
    requires 0 <= index < length
    ensures Advance(index, length) == (index + 1) % length
  {
    if index + 1 < length {
      ModSmall(index + 1, length);
    } else {
      DivModUnique(index + 1, length, 1, 0);
    }
  }

  /** The cursor after `count` advances from `index`. */
  ghost function AdvanceBy(index: int, count: nat, length: int): (r: int)
    requires 0 <= index < length
    ensures 0 <= r < length
  {
    if count == 0 then index else Advance(AdvanceBy(index, count - 1, length), length)
  }

  /** `count` advances move the cursor by `count` modulo the length. */
  lemma {:induction false} AdvanceByMod(index: int, count: nat, length: int)
    requires 0 <= index < length
    ensures AdvanceBy(index, count, length) == (index + count) % length
  {
    if count == 0 {
      ModSmall(index, length);
    } else {
      AdvanceByMod(index, count - 1, length);
      AdvanceWraps(AdvanceBy(index, count - 1, length), length);
      ModSucc(index + count - 1, length);
    }
  }

  lemma ModSucc(x: nat, n: int)
    requires n > 0
    ensures (x % n + 1) % n == (x + 1) % n
  {
    var q, r := x / n, x % n;
    assert x == q * n + r;
    if r + 1 < n {
      DivModUnique(x + 1, n, q, r + 1);
      DivModUnique(r + 1, n, 0, r + 1);
    } else {
      assert x + 1 == (q + 1) * n + 0;
      DivModUnique(x + 1, n, q + 1, 0);
      DivModUnique(n, n, 1, 0);
    }
  }

  /**
    What a run of `count` burst samples leaves behind: the cursor moved
    `count` slots modulo the buffer length (samples past the end wrap
    and overwrite from slot 0), and the renderer's buffer, the selector,
    the high register and the message list as they were.
  */
  predicate BurstOutcome(bs: BufferSet, high: int, count: nat, d: Decoded)
    requires bs.Valid() && bs.length > 0
  {
    && d.bufs.index == (bs.index + count) % bs.length
    && d.bufs.active == bs.active
    && d.bufs.Front() == bs.Front()
    && d.high == high
    && d.events == []
    && (count > 0 ==> d.bufs.mode == Burst)
  }

  /** A run of burst samples without an end of record has the `BurstOutcome`. */
  lemma BurstRun(bs: BufferSet, high: int, bytes: seq<Byte>)
    requires bs.Valid() && bs.length > 0 && 0 <= high < 32 && AllTagged(bytes, BurstLow)
    ensures Feed(bs, high, bytes).Ok?
    ensures BurstOutcome(bs, high, |bytes|, Feed(bs, high, bytes).value)
  {
    BurstRunCore(bs, high, bytes);
    BurstAfterMod(bs, high, |bytes|, Feed(bs, high, bytes).value);
  }

  /** `count` advances from the cursor are `count` slots modulo the length. */
  lemma BurstAfterMod(bs: BufferSet, high: int, count: nat, d: Decoded)
    requires bs.Valid() && bs.length > 0 && BurstAfter(bs, high, count, d)
    ensures BurstOutcome(bs, high, count, d)
  {
    AdvanceByMod(bs.index, count, bs.length);
  }

  /** What `count` burst samples leave behind: the cursor moved, everything but the back buffer untouched. */
  ghost predicate BurstAfter(bs: BufferSet, high: int, count: nat, d: Decoded)
    requires bs.Valid() && bs.length > 0
  {
    && d.bufs.index == AdvanceBy(bs.index, count, bs.length)
    && d.bufs.active == bs.active
    && d.bufs.Front() == bs.Front()
    && d.high == high
    && d.events == []
    && (count > 0 ==> d.bufs.mode == Burst)
  }

  /** Feeding one more burst sample keeps `BurstAfter`, one advance further. */
  lemma BurstRunSnoc(bs: BufferSet, high: int, bytes: seq<Byte>)
    requires bs.Valid() && bs.length > 0 && 0 <= high < 32
    requires |bytes| > 0 && TagOf(bytes[|bytes| - 1]) == BurstLow
    requires Feed(bs, high, bytes[..|bytes| - 1]).Ok?
    requires BurstAfter(bs, high, |bytes| - 1, Feed(bs, high, bytes[..|bytes| - 1]).value)
    ensures Feed(bs, high, bytes).Ok?
    ensures BurstAfter(bs, high, |bytes|, Feed(bs, high, bytes).value)
  {
    var d := Feed(bs, high, bytes[..|bytes| - 1]).value;
    StepBurstLowCore(d.bufs, d.high, bytes[|bytes| - 1]);
  }

  /** `BurstRun` with the cursor given by repeated `Advance`. */
  lemma {:induction false} BurstRunCore(bs: BufferSet, high: int, bytes: seq<Byte>)
    requires bs.Valid() && bs.length > 0 && 0 <= high < 32 && AllTagged(bytes, BurstLow)
    ensures Feed(bs, high, bytes).Ok?
    ensures BurstAfter(bs, high, |bytes|, Feed(bs, high, bytes).value)
    decreases |bytes|
  {
    if |bytes| > 0 {
      BurstRunCore(bs, high, bytes[..|bytes| - 1]);
      BurstRunSnoc(bs, high, bytes);
    }
  }

  /** Feeding `length + k` burst samples from cursor 0 leaves the cursor at `k mod length`. */
  lemma OverflowWraps(bs: BufferSet, high: int, bytes: seq<Byte>, k: nat)
    requires bs.Valid() && bs.length > 0 && bs.index == 0 && 0 <= high < 32
    requires AllTagged(bytes, BurstLow) && |bytes| == bs.length + k
    ensures Feed(bs, high, bytes).Ok?
    ensures Feed(bs, high, bytes).value.bufs.index == k % bs.length
  {
    BurstRun(bs, high, bytes);
    var i := Feed(bs, high, bytes).value.bufs.index;
    assert i == (bs.length + k) % bs.length;
    assert i == k % bs.length by {
      ModAddPeriod(k, bs.length);
    }
  }

  lemma ModAddPeriod(k: nat, n: int)
    requires n > 0
    ensures (n + k) % n == k % n
  {
    var q, r := k / n, k % n;
    assert k == q * n + r;
    assert n + k == (q + 1) * n + r;
    DivModUnique(n + k, n, q + 1, r);
  }

  /** Advances that stay below the length never wrap. */
  lemma {:induction false} AdvanceBySmall(index: int, count: nat, length: int)
    requires 0 <= index && index + count < length
    ensures AdvanceBy(index, count, length) == index + count
  {
    if count > 0 {
      AdvanceBySmall(index, count - 1, length);
    }
  }

  /**
    `back` is `orig` with the samples of `bytes`, assembled with `high`,
    written from slot `from` on, and nothing else changed.
  */
  ghost predicate Filled(orig: seq<int>, back: seq<int>, from: int, high: int, bytes: seq<Byte>) {
    && |back| == |orig|
    && 0 <= from && from + |bytes| <= |orig|
    && (forall i :: 0 <= i < |bytes| ==> back[from + i] == high * 32 + Payload(bytes[i]))
    && (forall j :: 0 <= j < |orig| && !(from <= j < from + |bytes|) ==> back[j] == orig[j])
  }

  lemma FilledSnoc(orig: seq<int>, prev: seq<int>, back: seq<int>, from: int, high: int, bytes: seq<Byte>)
    requires |bytes| > 0 && Filled(orig, prev, from, high, bytes[..|bytes| - 1]) && from + |bytes| <= |orig|
    requires |back| == |prev| && back[from + |bytes| - 1] == high * 32 + Payload(bytes[|bytes| - 1])
    requires forall j :: 0 <= j < |prev| && j != from + |bytes| - 1 ==> back[j] == prev[j]
    ensures Filled(orig, back, from, high, bytes)
  {
    var init := bytes[..|bytes| - 1];
    forall i | 0 <= i < |bytes|
      ensures back[from + i] == high * 32 + Payload(bytes[i])
    {
      if i < |init| {
        assert bytes[i] == init[i];
      }
    }
  }

  /** One more burst sample under the cursor extends the run written so far by one slot. */
  lemma FillStep(orig: seq<int>, d: BufferSet, k: Bit, from: int, high: int, bytes: seq<Byte>)
    requires d.Valid() && 0 <= high < 32 && |bytes| > 0 && TagOf(bytes[|bytes| - 1]) == BurstLow
    requires d.active == k && d.index == from + |bytes| - 1 < d.length
    requires Filled(orig, d.Buffer(k), from, high, bytes[..|bytes| - 1])
    ensures Step(d, high, bytes[|bytes| - 1]).Ok?
    ensures Filled(orig, Step(d, high, bytes[|bytes| - 1]).value.bufs.Buffer(k), from, high, bytes)
  {
    StepBurstLowCore(d, high, bytes[|bytes| - 1]);
    var e := Step(d, high, bytes[|bytes| - 1]).value.bufs;
    FilledSnoc(orig, d.Buffer(k), e.Buffer(k), from, high, bytes);
  }

  /** Feeding one more burst sample extends a run that `Filled` describes by one slot. */
  lemma BurstFillSnoc(bs: BufferSet, high: int, bytes: seq<Byte>)
    requires bs.Valid() && 0 <= high < 32 && AllTagged(bytes, BurstLow)
    requires 0 < |bytes| && bs.index + |bytes| <= bs.length
    requires Feed(bs, high, bytes[..|bytes| - 1]).Ok?
    requires Filled(bs.Buffer(bs.active), Feed(bs, high, bytes[..|bytes| - 1]).value.bufs.Buffer(bs.active),
                    bs.index, high, bytes[..|bytes| - 1])
    ensures Feed(bs, high, bytes).Ok?
    ensures Filled(bs.Buffer(bs.active), Feed(bs, high, bytes).value.bufs.Buffer(bs.active), bs.index, high, bytes)
  {
    var init := bytes[..|bytes| - 1];
    var d := Feed(bs, high, init).value;
    assert d.bufs.active == bs.active && d.bufs.index == bs.index + |init| && d.high == high by {
      BurstRunCore(bs, high, init);
      AdvanceBySmall(bs.index, |init|, bs.length);
    }
    FillStep(bs.Buffer(bs.active), d.bufs, bs.active, bs.index, high, bytes);
  }

  /**
    A run of burst samples that fits before the end of the back buffer
    stores the i-th sample at slot `index + i`, assembled with the
    retained high part, and leaves every other slot alone.
  */
  lemma {:induction false} BurstFill(bs: BufferSet, high: int, bytes: seq<Byte>)
    requires bs.Valid() && 0 <= high < 32 && AllTagged(bytes, BurstLow)
    requires bs.index + |bytes| <= bs.length
    ensures Feed(bs, high, bytes).Ok?
    ensures Filled(bs.Buffer(bs.active), Feed(bs, high, bytes).value.bufs.Buffer(bs.active), bs.index, high, bytes)
    decreases |bytes|
  {
    if |bytes| > 0 {
      BurstFill(bs, high, bytes[..|bytes| - 1]);
      BurstFillSnoc(bs, high, bytes);
    }
  }

  /** Every commit byte stores the assembled sample under the cursor of its target buffer. */
  lemma StepCommit(bs: BufferSet, high: int, b: Byte)
    requires bs.Valid() && bs.length > 0 && 0 <= high < 32 && TagOf(b).Commits()
    ensures Step(bs, high, b).Ok?
    ensures var d := Step(bs, high, b).value;
      && d.bufs.Buffer(Target(bs, TagOf(b)))[bs.index] == Assemble(high, b)
      && d.high == high
      && d.events == (if TagOf(b).Completes() then [ReadComplete] else [])
  {
    match TagOf(b)
    case BurstLow => StepBurstLow(bs, high, b);
    case BurstEnd => StepBurstEnd(bs, high, b);
    case ContinuousLow => StepContinuous(bs, high, b);
    case ContinuousEnd => StepContinuous(bs, high, b);
    case ContinuousWrap => StepContinuousWrap(bs, high, b);
  }

  /** Feeding a single byte is one step. */
  lemma FeedOne(bs: BufferSet, high: int, b: Byte)
    requires bs.Valid() && 0 <= high < 32
    ensures Feed(bs, high, [b]) == Step(bs, high, b)
  {
    FeedSnoc(bs, high, [], b);
    assert [] + [b] == [b];
    var s := Step(bs, high, b);
    if s.Ok? {
      assert [] + s.value.events == s.value.events;
    }
  }

  /**
    Any 10-bit sample sent as a high byte followed by a commit byte lands
    unchanged in the slot under the cursor of the buffer the tag selects.
  */
  lemma SampleRoundTrip(bs: BufferSet, high: int, v: int, t: Tag)
    requires bs.Valid() && bs.length > 0 && 0 <= high < 32
    requires 0 <= v <= SampleMax && t.Commits()
    ensures Feed(bs, high, EncodeSample(v, t)).Ok?
    ensures var d := Feed(bs, high, EncodeSample(v, t)).value;
      && d.bufs.Buffer(Target(bs, t))[bs.index] == v
      && d.high == v / 32
      && d.events == (if t.Completes() then [ReadComplete] else [])
  {
    var bytes := EncodeSample(v, t);
    FeedOne(bs, high, bytes[0]);
    StepHigh(bs, high, bytes[0]);
    assert Feed(bs, high, [bytes[0]]) == Ok(Decoded(bs, v / 32, []));
    FeedSnoc(bs, high, [bytes[0]], bytes[1]);
    assert [bytes[0]] + [bytes[1]] == bytes;
    StepCommit(bs, v / 32, bytes[1]);
    var e := Step(bs, v / 32, bytes[1]).value;
    assert [] + e.events == e.events;
  }

  /** The all-zero sample pair: `0x00 0x20` stores 0 at the cursor of the back buffer and advances it. */
  lemma ZeroSampleScenario(bs: BufferSet, high: int)
    requires bs.Valid() && bs.length > 1 && bs.index == 0 && 0 <= high < 32
    ensures Feed(bs, high, [0x00, 0x20]).Ok?
    ensures var d := Feed(bs, high, [0x00, 0x20]).value;
      && d.bufs.Buffer(bs.active)[0] == 0
      && d.bufs.index == 1 && d.bufs.mode == Burst && d.bufs.active == bs.active
      && d.events == []
  {
    var bytes: seq<Byte> := [0x00, 0x20];
    FeedOne(bs, high, bytes[0]);
    StepHigh(bs, high, bytes[0]);
    FeedSnoc(bs, high, [bytes[0]], bytes[1]);
    assert [bytes[0]] + [bytes[1]] == bytes;
    StepBurstLow(bs, 0, bytes[1]);
    DivModUnique(1, bs.length, 0, 1);
  }

  /** Full scale as an end of record: `0x1F 0x5F` stores 1023, swaps the buffers and posts one message. */
  lemma FullScaleScenario(bs: BufferSet, high: int)
    requires bs.Valid() && bs.length > 0 && 0 <= high < 32
    ensures Feed(bs, high, [0x1F, 0x5F]).Ok?
    ensures var d := Feed(bs, high, [0x1F, 0x5F]).value;
      && d.bufs.Buffer(bs.active)[bs.index] == 1023
      && d.bufs.active == 1 - bs.active && d.bufs.index == 0 && d.bufs.mode == Burst
      && d.events == [ReadComplete]
      && BuffData(d.bufs, bs.index) == Ok(1023)
  {
    var bytes: seq<Byte> := [0x1F, 0x5F];
    assert bytes[..1] == [0x1F];
    FeedOne(bs, high, 0x1F);
    StepHigh(bs, high, 0x1F);
    StepBurstEnd(bs, 31, 0x5F);
  }

  /**
    The receive loop's inner `for`: decode one chunk byte by byte. It
    computes the same result as the sequence-level run, so a chunk
    boundary never changes what is decoded.
  */
  method DecodeChunk(bs: BufferSet, high: int, chunk: seq<Byte>) returns (r: Result<Decoded>)
    requires bs.Valid() && 0 <= high < 32
    ensures r == Feed(bs, high, chunk)
    ensures bs.length > 0 ==> r.Ok? && r.value.bufs.Valid() && r.value.bufs.length == bs.length
  {
    var d := Decoded(bs, high, []);
    var i := 0;
    while i < |chunk|
      invariant 0 <= i <= |chunk|
      invariant d.bufs.Valid() && 0 <= d.high < 32
      invariant Feed(bs, high, chunk[..i]) == Ok(d)
    {
      assert chunk[..i + 1][..i] == chunk[..i];
      var s := Step(d.bufs, d.high, chunk[i]);
      if s.Err? {
        FeedConcat(bs, high, chunk[..i + 1], chunk[i + 1..]);
        assert chunk[..i + 1] + chunk[i + 1..] == chunk;
        return Err(s.fault);
      }
      d := Decoded(s.value.bufs, s.value.high, d.events + s.value.events);
      i := i + 1;
    }
    assert chunk[..i] == chunk;
    r := Ok(d);
  }
}
