/** Byte-level vocabulary shared by every part of the merger: bytes, the
    16-bit unsigned integers the on-disk formats use (little-endian), the
    fatal errors that end a run, and a Result type to propagate them. */
module Bytes {

  newtype byte = x: int | 0 <= x < 0x100

  /** The C type U16: every arithmetic result stored into one wraps modulo 2^16. */
  type u16 = x: int | 0 <= x < 0x1_0000

  /** Magic number that starts every patch set (a U32 read little-endian). */
  const PatchMagic: int := 0x67fb49ad

  /** The reasons a run dies; each corresponds to a call of `die` in the merger. */
  datatype Fault =
    | ShortRead                  // a read met the end of its stream ("Error while reading")
    | Overrun                    // a run decoded more bytes than the record declares ("Oops, got too many bytes")
    | UnknownVersion(version: u16)
    | BadNameLength              // the name-length byte is negative as a signed char
    | NotPatchFile               // the first patch set has the wrong magic
    | CannotCreateTemp           // the temporary output file cannot be opened for writing
    | DeletionDeclined           // renaming to the backup failed and the user refused deletion
    | DeleteFailed               // the old target could not be removed
    | RenameFailed               // the temporary file could not be renamed to the target

  datatype Result<T> = Success(value: T) | Failure(fault: Fault)

  datatype Option<T> = None | Some(value: T)

  /** `x` stored into a U16 variable. */
  function Wrap16(x: int): u16
  {
    x % 0x1_0000
  }

  /** The U16 stored little-endian at `s[p]`, `s[p + 1]`. */
  function U16At(s: seq<byte>, p: nat): (v: u16)
    requires p + 2 <= |s|
  {
    s[p] as int + 0x100 * s[p + 1] as int
  }

  /** The U32 stored little-endian at `s[p..p + 4]`. */
  function U32At(s: seq<byte>, p: nat): (v: nat)
    requires p + 4 <= |s|
  {
    U16At(s, p) + 0x1_0000 * U16At(s, p + 2)
  }

  /** The two bytes that store `v` little-endian. */
  function LE16(v: u16): (b: seq<byte>)
    ensures |b| == 2 && U16At(b, 0) == v
  {
    [(v % 0x100) as byte, (v / 0x100) as byte]
  }

  /** The four bytes that store `v` little-endian. */
  function LE32(v: nat): (b: seq<byte>)
    requires v < 0x1_0000_0000
    ensures |b| == 4 && U32At(b, 0) == v
  {
    LE16(v % 0x1_0000) + LE16(v / 0x1_0000)
  }

  /** Reading a U16 back from anywhere its encoding was placed. */
  lemma U16AtLE16(s: seq<byte>, p: nat, v: u16)
    requires p + 2 <= |s| && s[p..p + 2] == LE16(v)
    ensures U16At(s, p) == v
  {
    assert s[p] == LE16(v)[0] && s[p + 1] == LE16(v)[1];
  }

  /** Every U16 field is its own little-endian encoding. */
  lemma LE16U16At(s: seq<byte>, p: nat)
    requires p + 2 <= |s|
    ensures LE16(U16At(s, p)) == s[p..p + 2]
  {
  }

  /** `info & 2` on a byte. */
  predicate HasBit1(b: byte)
  {
    (b as int / 2) % 2 == 1
  }

  /** Two pieces laid side by side at `p` can be read back one by one. */
  lemma SliceSplit(src: seq<byte>, p: nat, a: seq<byte>, b: seq<byte>)
    requires p + |a| + |b| <= |src| && src[p..p + |a| + |b|] == a + b
    ensures src[p..p + |a|] == a && src[p + |a|..p + |a| + |b|] == b
  {
    assert src[p..p + |a| + |b|][..|a|] == a;
    assert src[p..p + |a| + |b|][|a|..] == b;
  }

  /** Adjacent slices join into one. */
  lemma SliceJoin(src: seq<byte>, p: nat, q: nat, r: nat)
    requires p <= q <= r <= |src|
    ensures src[p..r] == src[p..q] + src[q..r]
  {
  }
}
