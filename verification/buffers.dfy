/**
  The receive double buffer of the connection object: two sample arrays of
  the same length, the index of the one being written in burst mode, the
  shared write cursor and the transfer mode, with the accessors the
  renderer polls.
*/
module Buffers {
  import opened Results

  /** The value every slot holds after initialisation (mid-rail, 0 V on screen). */
  const MidScale := 512

  /** The transfer-mode codes `getXferMode` returns. */
  const ModeBurstCode := 0
  const ModeContinuousCode := 1

  /** A Java int restricted to the two buffer indices. */
  type Bit = x: int | 0 <= x <= 1

  datatype Mode = Burst | Continuous

  /**
    The double buffer. `length` is the separately stored length field,
    `active` the buffer written in burst mode (the back buffer), `index`
    the write cursor both buffers share.
  */
  datatype BufferSet = BufferSet(
    length: int,
    buf0: seq<int>,
    buf1: seq<int>,
    active: Bit,
    index: int,
    mode: Mode)
  {
    /** The array `mBuff[k]`. */
    function Buffer(k: Bit): seq<int> {
      if k == 0 then buf0 else buf1
    }

    /** The buffer the renderer reads, `mBuff[1 - mBuffActive]`. */
    function Front(): seq<int> {
      Buffer(1 - active)
    }

    /**
      Shape every reachable buffer set has: both arrays as long as the
      length field, and the cursor inside them (or 0 when they are empty).
    */
    predicate Valid() {
      && |buf0| == length
      && |buf1| == length
      && 0 <= index
      && (index < length || index == 0)
    }

    /** Every stored value is a 10-bit sample. */
    predicate InRange() {
      && (forall i :: 0 <= i < |buf0| ==> 0 <= buf0[i] <= 1023)
      && (forall i :: 0 <= i < |buf1| ==> 0 <= buf1[i] <= 1023)
    }

    /** The Java store `mBuff[k][i] = v`, which throws when `i` is outside the array. */
    function Store(k: Bit, i: int, v: int): (r: Result<BufferSet>)
      ensures r.Ok? <==> 0 <= i < |Buffer(k)|
      ensures r.Err? ==> r.fault == IndexOutOfRange(i, |Buffer(k)|)
      ensures r.Ok? ==>
        && |r.value.Buffer(k)| == |Buffer(k)|
        && r.value.Buffer(k)[i] == v
        && (forall j :: 0 <= j < |Buffer(k)| && j != i ==> r.value.Buffer(k)[j] == Buffer(k)[j])
        && r.value.Buffer(1 - k) == Buffer(1 - k)
        && r.value.length == length && r.value.active == active
        && r.value.index == index && r.value.mode == mode
    {
      if 0 <= i < |Buffer(k)| then
        if k == 0 then Ok(this.(buf0 := buf0[i := v])) else Ok(this.(buf1 := buf1[i := v]))
      else
        Err(IndexOutOfRange(i, |Buffer(k)|))
    }
  }

  /** A sequence of `n` mid-scale samples. */
  ghost predicate AllMidScale(s: seq<int>, n: int) {
    |s| == n && forall i :: 0 <= i < n ==> s[i] == MidScale
  }

  /** The buffer set `initBuffer(n)` builds, for a length Java can allocate. */
  function Initial(n: nat): (r: BufferSet)
    ensures r.Valid() && r.InRange()
    ensures r.length == n && AllMidScale(r.buf0, n) && AllMidScale(r.buf1, n)
    ensures r.active == 0 && r.index == 0 && r.mode == Burst
  {
    BufferSet(n, seq(n, _ => MidScale), seq(n, _ => MidScale), 0, 0, Burst)
  }

  /**
    `initBuffer(buflen)`: allocate two arrays of `buflen` ints, fill both
    with the mid-scale value, and reset the selector, the cursor and the
    mode. A negative length makes the allocation throw.
  */
  method InitBuffer(buflen: int) returns (r: Result<BufferSet>)
    ensures r.Err? <==> buflen < 0
    ensures r.Err? ==> r.fault == NegativeArraySize(buflen)
    ensures r.Ok? ==>
      && r.value.Valid() && r.value.InRange()
      && r.value.length == buflen
      && AllMidScale(r.value.buf0, buflen) && AllMidScale(r.value.buf1, buflen)
      && r.value.active == 0 && r.value.index == 0 && r.value.mode == Burst
    ensures r.Ok? ==> r.value == Initial(buflen)
  {
    if buflen < 0 {
      return Err(NegativeArraySize(buflen));
    }
    var b0: seq<int> := [];
    var b1: seq<int> := [];
    var i := 0;
    while i < buflen
      invariant 0 <= i <= buflen
      invariant AllMidScale(b0, i) && AllMidScale(b1, i)
    {
      b0 := b0 + [MidScale];
      b1 := b1 + [MidScale];
      i := i + 1;
    }
    r := Ok(BufferSet(buflen, b0, b1, 0, 0, Burst));
  }

  /** `getBuffData(index)`: the renderer's read of the front buffer. */
  function BuffData(bs: BufferSet, index: int): (r: Result<int>)
    ensures r.Ok? <==> 0 <= index < |bs.Front()|
    ensures r.Ok? ==> r.value == bs.Buffer(1 - bs.active)[index]
  {
    if 0 <= index < |bs.Front()| then Ok(bs.Front()[index])
    else Err(IndexOutOfRange(index, |bs.Front()|))
  }

  /**
    `getBuffLength()`: the stored length field, which in a reachable
    buffer set is the length of both arrays.
  */
  function BuffLength(bs: BufferSet): (n: int)
    ensures bs.Valid() ==> n == |bs.Buffer(0)| == |bs.Buffer(1)| == |bs.Front()|
  {
    bs.length
  }

  /**
    `getBuffIndex()`: the shared write cursor, which in a reachable buffer
    set is a readable position of the front buffer unless that is empty.
  */
  function BuffIndex(bs: BufferSet): (i: int)
    ensures bs.Valid() ==> 0 <= i && (i < |bs.Front()| || i == 0)
    ensures bs.Valid() && 0 < BuffLength(bs) ==> BuffData(bs, i).Ok?
  {
    bs.index
  }

  /** `getXferMode()`: the mode as its integer code. */
  function XferMode(bs: BufferSet): (code: int)
    ensures code == ModeBurstCode <==> bs.mode == Burst
    ensures code == ModeContinuousCode <==> bs.mode == Continuous
  {
    match bs.mode
    case Burst => ModeBurstCode
    case Continuous => ModeContinuousCode
  }

  /**
    What the renderer sees right after initialisation: `n` mid-scale
    samples, reads outside them throwing, cursor 0 and burst mode.
  */
  lemma InitialView(n: nat, i: int)
    ensures BuffLength(Initial(n)) == n
    ensures BuffIndex(Initial(n)) == 0
    ensures XferMode(Initial(n)) == ModeBurstCode
    ensures 0 <= i < n ==> BuffData(Initial(n), i) == Ok(MidScale)
    ensures !(0 <= i < n) ==> BuffData(Initial(n), i).Err?
  {
  }
}
