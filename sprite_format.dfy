/** The sprite layout the codec walks, as values: what a well-formed sprite
    is, how it is laid out in a sprite file, and the proof that the codec's
    measurement accepts exactly these layouts. A sprite is a U16 size field,
    an `info` byte and a payload whose length depends on `info`
    (src/grfmerge.cpp:199-236). */
module SpriteFormat {
  import opened Bytes
  import opened RecordCodec

  /** One run of a compressed payload: a literal of 1..128 bytes, or a
      back-reference given by its (negative) code byte and an offset byte. */
  datatype Run = Literal(bytes: seq<byte>) | BackRef(code: byte, offset: byte)

  datatype Sprite =
    | Verbatim(data: seq<byte>)                                 // info 0xFF: size counts the data
    | Stored(info: byte, body: seq<byte>)                       // info & 2: size counts info and body
    | Compressed(info: byte, header: seq<byte>, runs: seq<Run>) // otherwise: size is the decoded length

  predicate RunWellFormed(run: Run)
  {
    match run
    case Literal(bytes) => 1 <= |bytes| <= 128
    case BackRef(code, _) => code >= 128
  }

  /** The code byte a run starts with; a 128-byte literal is written as 0. */
  function RunCode(run: Run): byte
    requires RunWellFormed(run)
  {
    match run
    case Literal(bytes) => if |bytes| == 128 then 0 else |bytes| as byte
    case BackRef(code, _) => code
  }

  function EncodeRun(run: Run): seq<byte>
    requires RunWellFormed(run)
  {
    match run
    case Literal(bytes) => [RunCode(run)] + bytes
    case BackRef(code, offset) => [code, offset]
  }

  predicate RunsWellFormed(runs: seq<Run>)
  {
    forall i :: 0 <= i < |runs| ==> RunWellFormed(runs[i])
  }

  function EncodeRuns(runs: seq<Run>): seq<byte>
    requires RunsWellFormed(runs)
  {
    if runs == [] then [] else EncodeRun(runs[0]) + EncodeRuns(runs[1..])
  }

  /** Decoded bytes the runs stand for. */
  function DecodedLength(runs: seq<Run>): nat
    requires RunsWellFormed(runs)
  {
    if runs == [] then 0 else RunLength(RunCode(runs[0])) + DecodedLength(runs[1..])
  }

  /** The size field of a compressed sprite is its decoded length: 8 plus the
      runs' decoded bytes, stored in a U16. */
  predicate WellFormed(s: Sprite)
  {
    match s
    case Verbatim(data) => 1 <= |data| < 0x1_0000
    case Stored(info, body) => info != 0xFF && HasBit1(info) && 1 + |body| < 0x1_0000
    case Compressed(info, header, runs) =>
      && !HasBit1(info)
      && |header| == SubHeader
      && RunsWellFormed(runs)
      && DecodedLength(runs) < 0x1_0000
      && Wrap16(8 + DecodedLength(runs)) != 0
  }

  function SizeField(s: Sprite): u16
    requires WellFormed(s)
  {
    match s
    case Verbatim(data) => |data|
    case Stored(_, body) => 1 + |body|
    case Compressed(_, _, runs) => Wrap16(8 + DecodedLength(runs))
  }

  function Info(s: Sprite): byte
  {
    match s
    case Verbatim(_) => 0xFF
    case Stored(info, _) => info
    case Compressed(info, _, _) => info
  }

  function Payload(s: Sprite): seq<byte>
    requires WellFormed(s)
  {
    match s
    case Verbatim(data) => data
    case Stored(_, body) => body
    case Compressed(_, header, runs) => header + EncodeRuns(runs)
  }

  /** A sprite as it is stored in a sprite file. */
  function Encode(s: Sprite): (b: seq<byte>)
    requires WellFormed(s)
    ensures |b| >= 3 && U16At(b, 0) != 0
  {
    LE16(SizeField(s)) + [Info(s)] + Payload(s)
  }

  /** The end-of-stream marker: a zero size field. */
  const Terminator: seq<byte> := [0, 0]

  /** One turn of the accounting loop. */
  lemma RunsEndStep(src: seq<byte>, p: nat, remaining: u16)
    requires p < |src| && 0 < remaining
    requires p + RunSize(src[p]) <= |src| && RunLength(src[p]) <= remaining
    ensures RunsEnd(src, p, remaining) == RunsEnd(src, p + RunSize(src[p]), remaining - RunLength(src[p]))
  {
  }

  /** One turn of the accounting loop, when where the rest ends is known. */
  lemma RunsEndStepTo(src: seq<byte>, p: nat, remaining: u16, q: nat, rest: u16, end: nat)
    requires p < |src| && 0 < remaining
    requires q == p + RunSize(src[p]) <= |src| && RunLength(src[p]) <= remaining
    requires rest == remaining - RunLength(src[p])
    requires RunsEnd(src, q, rest).Success? && RunsEnd(src, q, rest).value == end
    ensures RunsEnd(src, p, remaining).Success? && RunsEnd(src, p, remaining).value == end
  {
  }

  /** Where the first run and the other runs lie when encoded runs sit at `p`. */
  lemma EncodedRunsSplit(src: seq<byte>, p: nat, runs: seq<Run>)
    requires RunsWellFormed(runs) && runs != []
    requires p + |EncodeRuns(runs)| <= |src| && src[p..p + |EncodeRuns(runs)|] == EncodeRuns(runs)
    ensures src[p] == RunCode(runs[0]) && RunSize(src[p]) == |EncodeRun(runs[0])|
    ensures src[p..p + |EncodeRun(runs[0])|] == EncodeRun(runs[0])
    ensures DecodedLength(runs) == RunLength(src[p]) + DecodedLength(runs[1..])
    ensures |EncodeRuns(runs)| == |EncodeRun(runs[0])| + |EncodeRuns(runs[1..])|
    ensures src[p + |EncodeRun(runs[0])|..p + |EncodeRuns(runs)|] == EncodeRuns(runs[1..])
  {
    hide Encode, Measure, RunsEnd, PayloadEnd;
    var first, rest := EncodeRun(runs[0]), EncodeRuns(runs[1..]);
    assert EncodeRuns(runs) == first + rest;
    SliceSplit(src, p, first, rest);
    assert src[p] == src[p..p + |first|][0];
  }

  /** Run accounting on encoded runs: with exactly their decoded length left
      to account for, the loop consumes exactly their bytes and ends with
      nothing left, whatever follows them. */
  lemma {:induction false} RunsEndOfEncoding(src: seq<byte>, p: nat, runs: seq<Run>)
    requires RunsWellFormed(runs) && DecodedLength(runs) < 0x1_0000
    requires p + |EncodeRuns(runs)| <= |src| && src[p..p + |EncodeRuns(runs)|] == EncodeRuns(runs)
    ensures RunsEnd(src, p, DecodedLength(runs)).Success?
    ensures RunsEnd(src, p, DecodedLength(runs)).value == p + |EncodeRuns(runs)|
    decreases runs
  {
    if runs != [] {
      hide EncodeRuns, EncodeRun, DecodedLength, RunsEnd, Encode, Measure;
      EncodedRunsSplit(src, p, runs);
      var q, rest := p + |EncodeRun(runs[0])|, DecodedLength(runs[1..]);
      RunsEndOfEncoding(src, q, runs[1..]);
      RunsEndStepTo(src, p, DecodedLength(runs), q, rest, p + |EncodeRuns(runs)|);
    }
  }

  /** The fields of an encoded sprite placed at `p`. */
  lemma EncodedSpriteSplit(src: seq<byte>, p: nat, s: Sprite)
    requires WellFormed(s)
    requires p + |Encode(s)| <= |src| && src[p..p + |Encode(s)|] == Encode(s)
    ensures U16At(src, p) == SizeField(s) && src[p + 2] == Info(s)
    ensures src[p + 3..p + |Encode(s)|] == Payload(s)
  {
    hide Measure, RunsEnd, EncodeRuns, DecodedLength;
    SliceSplit(src, p, LE16(SizeField(s)) + [Info(s)], Payload(s));
    SliceSplit(src, p, LE16(SizeField(s)), [Info(s)]);
    U16AtLE16(src, p, SizeField(s));
  }

  /** A decoded length stored in a U16 as `8 + d` gives `d` back under `size -= 8`. */
  lemma WrapBack(d: nat)
    requires d < 0x1_0000
    ensures Wrap16(Wrap16(8 + d) as int - 8) == d
  {
  }

  /** The codec measures an encoded sprite exactly, whatever surrounds it. */
  lemma MeasureOfEncoding(src: seq<byte>, p: nat, s: Sprite)
    requires WellFormed(s)
    requires p + |Encode(s)| <= |src| && src[p..p + |Encode(s)|] == Encode(s)
    ensures Measure(src, p).Success? && Measure(src, p).value == Step(true, p + |Encode(s)|)
  {
    hide EncodeRuns, RunsEnd, DecodedLength;
    EncodedSpriteSplit(src, p, s);
    if s.Compressed? {
      MeasureOfCompressed(src, p, s);
    }
  }

  lemma MeasureOfCompressed(src: seq<byte>, p: nat, s: Sprite)
    requires WellFormed(s) && s.Compressed?
    requires p + |Encode(s)| <= |src| && src[p..p + |Encode(s)|] == Encode(s)
    ensures Measure(src, p).Success? && Measure(src, p).value == Step(true, p + |Encode(s)|)
  {
    hide Measure, RunsEnd, EncodeRuns;
    EncodedSpriteSplit(src, p, s);
    var body := EncodeRuns(s.runs);
    SliceSplit(src, p + 3, s.header, body);
    assert HasBit1(0xFF);
    WrapBack(DecodedLength(s.runs));
    RunsEndOfEncoding(src, p + 3 + SubHeader, s.runs);
    MeasureOfRuns(src, p, SizeField(s), p + |Encode(s)|);
  }

  /** The measurement of a sprite whose runs are known to end at `end`. */
  lemma MeasureOfRuns(src: seq<byte>, p: nat, size: u16, end: nat)
    requires p + 3 + SubHeader <= |src| && U16At(src, p) == size != 0
    requires src[p + 2] != 0xFF && !HasBit1(src[p + 2])
    requires RunsEnd(src, p + 3 + SubHeader, Wrap16(size as int - 8)).Success?
    requires RunsEnd(src, p + 3 + SubHeader, Wrap16(size as int - 8)).value == end
    ensures Measure(src, p).Success? && Measure(src, p).value == Step(true, end)
  {
  }

  /** Conversely, a zero size field is the only thing measured as absent. */
  lemma MeasureAbsent(src: seq<byte>, p: nat)
    requires p <= |src|
    ensures (exists q :: Measure(src, p) == Success(Step(false, q)))
        <==> p + 2 <= |src| && src[p..p + 2] == Terminator
    ensures Measure(src, p).Success? && !Measure(src, p).value.present ==> Measure(src, p).value.next == p + 2
  {
    if p + 2 <= |src| && src[p..p + 2] == Terminator {
      assert Measure(src, p) == Success(Step(false, p + 2));
    }
  }

  /** The run that starts at `p`, read back as a value. */
  function RunAt(src: seq<byte>, p: nat): (run: Run)
    requires p < |src| && p + RunSize(src[p]) <= |src|
    ensures RunWellFormed(run) && RunCode(run) == src[p]
    ensures EncodeRun(run) == src[p..p + RunSize(src[p])]
  {
    var code := src[p];
    if code >= 128 then BackRef(code, src[p + 1])
    else Literal(src[p + 1..p + RunSize(code)])
  }

  /** The runs the accounting loop walked over, read back as values. */
  function ParseRuns(src: seq<byte>, p: nat, remaining: u16): (runs: seq<Run>)
    requires p <= |src| && RunsEnd(src, p, remaining).Success?
    ensures RunsWellFormed(runs) && DecodedLength(runs) == remaining
    ensures EncodeRuns(runs) == src[p..RunsEnd(src, p, remaining).value]
    decreases remaining
  {
    if remaining == 0 then []
    else
      var q := p + RunSize(src[p]);
      var rest := ParseRuns(src, q, remaining - RunLength(src[p]));
      RunsEndStep(src, p, remaining);
      SliceJoin(src, p, q, RunsEnd(src, p, remaining).value);
      [RunAt(src, p)] + rest
  }

  /** A size field read back through `size -= 8` and stored again as `8 + d`. */
  lemma WrapForth(size: u16)
    ensures Wrap16(8 + Wrap16(size as int - 8)) == size
  {
  }

  /** The converse of `EncodedSpriteSplit`: fields found in place make up the
      sprite's encoding. */
  lemma EncodingInPlace(src: seq<byte>, p: nat, next: nat, s: Sprite)
    requires WellFormed(s) && p + 3 <= next <= |src|
    requires U16At(src, p) == SizeField(s) && src[p + 2] == Info(s)
    requires src[p + 3..next] == Payload(s)
    ensures Encode(s) == src[p..next]
  {
    LE16U16At(src, p);
    SliceJoin(src, p, p + 2, next);
    SliceJoin(src, p + 2, p + 3, next);
  }

  /** Every sprite the codec measures as present is the encoding of a
      well-formed sprite: the measurement accepts exactly the layouts above. */
  function Parse(src: seq<byte>, p: nat): (s: Sprite)
    requires p <= |src| && Measure(src, p).Success? && Measure(src, p).value.present
    ensures WellFormed(s) && Encode(s) == src[p..Measure(src, p).value.next]
  {
    var size := U16At(src, p);
    var info := src[p + 2];
    var next := Measure(src, p).value.next;
    if info == 0xFF then
      var s := Verbatim(src[p + 3..next]);
      EncodingInPlace(src, p, next, s);
      s
    else if HasBit1(info) then
      var s := Stored(info, src[p + 3..next]);
      EncodingInPlace(src, p, next, s);
      s
    else
      ParseCompressed(src, p)
  }

  function ParseCompressed(src: seq<byte>, p: nat): (s: Sprite)
    requires p <= |src| && Measure(src, p).Success? && Measure(src, p).value.present
    requires src[p + 2] != 0xFF && !HasBit1(src[p + 2])
    ensures WellFormed(s) && Encode(s) == src[p..Measure(src, p).value.next]
  {
    var size := U16At(src, p);
    var next := Measure(src, p).value.next;
    var left := Wrap16(size as int - 8);
    assert next == RunsEnd(src, p + 3 + SubHeader, left).value;
    var runs := ParseRuns(src, p + 3 + SubHeader, left);
    var s := Compressed(src[p + 2], src[p + 3..p + 3 + SubHeader], runs);
    assert DecodedLength(runs) == left;
    WrapForth(size);
    assert SizeField(s) == Wrap16(8 + left) == size;
    assert WellFormed(s);
    SliceJoin(src, p + 3, p + 3 + SubHeader, next);
    EncodingInPlace(src, p, next, s);
    s
  }

  /** A run's encoding is as long as its code byte announces. */
  lemma EncodeRunSize(run: Run)
    requires RunWellFormed(run)
    ensures EncodeRun(run)[0] == RunCode(run) && |EncodeRun(run)| == RunSize(RunCode(run))
  {
  }

  /** A run is determined by its encoding. */
  lemma EncodeRunInjective(x: Run, y: Run)
    requires RunWellFormed(x) && RunWellFormed(y) && EncodeRun(x) == EncodeRun(y)
    ensures x == y
  {
    var e := EncodeRun(x);
    assert e[0] == RunCode(x) && e[0] == RunCode(y);
    if x.Literal? {
      assert y.Literal? && x.bytes == e[1..] == y.bytes;
    } else {
      assert y.BackRef? && x.code == e[0] == y.code && x.offset == e[1] == y.offset;
    }
  }

  /** Runs are prefix-free: equal encodings are equal runs. */
  lemma {:induction false} EncodeRunsInjective(a: seq<Run>, b: seq<Run>)
    requires RunsWellFormed(a) && RunsWellFormed(b) && EncodeRuns(a) == EncodeRuns(b)
    ensures a == b
    decreases a
  {
    if a == [] {
      if b != [] {
        EncodeRunSize(b[0]);
      }
    } else {
      EncodeRunSize(a[0]);
      assert b != [];
      EncodeRunSize(b[0]);
      var e := EncodeRuns(a);
      var k := |EncodeRun(a[0])|;
      assert e == EncodeRun(a[0]) + EncodeRuns(a[1..]) == EncodeRun(b[0]) + EncodeRuns(b[1..]);
      assert RunCode(a[0]) == e[0] == RunCode(b[0]);
      assert EncodeRun(a[0]) == e[..k] == EncodeRun(b[0]);
      assert EncodeRuns(a[1..]) == e[k..] == EncodeRuns(b[1..]);
      EncodeRunInjective(a[0], b[0]);
      EncodeRunsInjective(a[1..], b[1..]);
      assert a == [a[0]] + a[1..];
      assert b == [b[0]] + b[1..];
    }
  }

  /** The sprite layout is unambiguous: equal encodings are equal sprites. */
  lemma EncodeInjective(a: Sprite, b: Sprite)
    requires WellFormed(a) && WellFormed(b) && Encode(a) == Encode(b)
    ensures a == b
  {
    hide Measure, RunsEnd, PayloadEnd, EncodeRuns, DecodedLength, Parse, ParseCompressed, ParseRuns;
    var e := Encode(a);
    EncodedSpriteSplit(e, 0, a);
    EncodedSpriteSplit(e, 0, b);
    assert HasBit1(0xFF);
    if a.Compressed? {
      assert b.Compressed?;
      SliceSplit(e, 3, a.header, EncodeRuns(a.runs));
      SliceSplit(e, 3, b.header, EncodeRuns(b.runs));
      EncodeRunsInjective(a.runs, b.runs);
    }
  }

  /** Reading back an encoded sprite gives the sprite itself. */
  lemma ParseOfEncoding(src: seq<byte>, p: nat, s: Sprite)
    requires WellFormed(s)
    requires p + |Encode(s)| <= |src| && src[p..p + |Encode(s)|] == Encode(s)
    ensures Measure(src, p).Success? && Measure(src, p).value.present
    ensures Parse(src, p) == s
  {
    hide Parse, ParseCompressed, Encode, Measure, EncodeRuns, RunsEnd;
    MeasureOfEncoding(src, p, s);
    EncodeInjective(Parse(src, p), s);
  }
}
