/**
  The oscilloscope's wire format: every byte carries a 3-bit tag in its top
  bits and a 5-bit payload in its low bits; a 10-bit sample travels as a
  high byte (tag 0x00, sample bits 9..5) followed by one commit byte whose
  tag says where the sample goes (sample bits 4..0).
*/
module Wire {

  /** One byte of the input stream, as the unsigned value the masks see. */
  type Byte = bv8

  const TagMask: bv8 := 0xE0
  const PayloadMask: bv8 := 0x1F

  /** Largest sample a high byte and a commit byte can carry (10 bits). */
  const SampleMax := 1023

  /** The roles a byte can have, one per value of its top three bits. */
  datatype Tag =
    | High           // 0x00: upper five bits of the next sample
    | BurstLow       // 0x20: burst sample, more to follow
    | BurstEnd       // 0x40: burst end of record
    | ContinuousLow  // 0x60: continuous sample
    | ContinuousEnd  // 0x80: continuous end of segment
    | ContinuousWrap // 0xA0: continuous end of sweep
    | Discard        // 0xC0: force discard
    | Unused         // 0xE0: no case in the decoder's switch
  {
    /** The tag's bit pattern, as the `case` labels of the decoder's switch write it. */
    function Bits(): (r: bv8)
      ensures r & PayloadMask == 0
    {
      match this
      case High => 0x00
      case BurstLow => 0x20
      case BurstEnd => 0x40
      case ContinuousLow => 0x60
      case ContinuousEnd => 0x80
      case ContinuousWrap => 0xA0
      case Discard => 0xC0
      case Unused => 0xE0
    }

    /** Tags that store a sample into one of the two buffers. */
    predicate Commits() {
      BurstLow? || BurstEnd? || ContinuousLow? || ContinuousEnd? || ContinuousWrap?
    }

    /** Tags that post a read-complete message. */
    predicate Completes() {
      BurstEnd? || ContinuousEnd? || ContinuousWrap?
    }
  }

  /** The tag of a byte, `b & 0xE0`. */
  function TagOf(b: Byte): (t: Tag)
    ensures t.Bits() == b & TagMask
  {
    var bits := b & TagMask;
    if bits == 0x00 then High
    else if bits == 0x20 then BurstLow
    else if bits == 0x40 then BurstEnd
    else if bits == 0x60 then ContinuousLow
    else if bits == 0x80 then ContinuousEnd
    else if bits == 0xA0 then ContinuousWrap
    else if bits == 0xC0 then Discard
    else Unused
  }

  /** The payload of a byte, `b & 0x1F`, as a Java int. */
  function Payload(b: Byte): (p: int)
    ensures 0 <= p < 32
  {
    (b & PayloadMask) as int
  }

  /** The payload is the byte's value modulo 32. */
  lemma PayloadIsLowBits(b: Byte)
    ensures Payload(b) == b as int % 32
  {
  }

  /** The byte a sender puts on the wire for a tag and a 5-bit payload. */
  function ByteOf(t: Tag, p: int): (b: Byte)
    requires 0 <= p < 32
    ensures TagOf(b) == t && Payload(b) == p
  {
    t.Bits() | p as bv8
  }

  /** A byte is exactly its tag and its payload: splitting loses nothing. */
  lemma SplitJoin(b: Byte)
    ensures ByteOf(TagOf(b), Payload(b)) == b
  {
  }

  /** The sample a commit byte completes: `(high << 5) + (b & 0x1F)`. */
  function Assemble(high: int, b: Byte): (v: int)
    requires 0 <= high < 32
    ensures 0 <= v <= SampleMax
    ensures v / 32 == high && v % 32 == Payload(b)
  {
    high * 32 + Payload(b)
  }

  /** The two bytes that carry sample `v` to the buffer slot selected by commit tag `t`. */
  function EncodeSample(v: int, t: Tag): (bytes: seq<Byte>)
    requires 0 <= v <= SampleMax && t.Commits()
    ensures |bytes| == 2 && TagOf(bytes[0]) == High && TagOf(bytes[1]) == t
    ensures Assemble(Payload(bytes[0]), bytes[1]) == v
  {
    [ByteOf(High, v / 32), ByteOf(t, v % 32)]
  }

  /**
    Java's `byte` is signed: `buffer[i] & 0xe0` first widens the byte to a
    32-bit int with sign extension. This is that widening.
  */
  function JavaWiden(b: Byte): (w: bv32)
    ensures w as int % 256 == b as int
    ensures b < 0x80 ==> w == b as bv32
    ensures b >= 0x80 ==> w >= 0xFFFF_FF80
  {
    if b < 0x80 then b as bv32 else 0xFFFF_FF00 | b as bv32
  }

  /** Both masks read the same bits from the widened int as from the unsigned byte. */
  lemma SignExtensionIsMasked(b: Byte)
    ensures JavaWiden(b) & 0xE0 == (b & TagMask) as bv32
    ensures JavaWiden(b) & 0x1F == (b & PayloadMask) as bv32
  {
  }
}
