/** The configuration and result handling of webp/encode.go: functional options applied to a
    zero-valued Encoder, the quality clamp written back into the encoder, the arguments handed to
    the native encoder, and the classification of its reply. The native encoder is a parameter:
    a total function from the arguments it is given to the reply it makes. */
module WebpEncode {
  import opened LittleEndian

  /** An `EncodeOption`: `Quality(q)` sets the quality, `Lossless` sets the lossless flag. */
  datatype EncodeOption = Quality(q: real) | Lossless

  /** The values of an Encoder's two fields. */
  datatype Settings = Settings(quality: real, lossless: bool)

  /** The zero value of an Encoder, where `Encode` starts. */
  const ZeroSettings := Settings(0.0, false)

  /** What one option does to the encoder's fields. */
  function ApplyOption(s: Settings, op: EncodeOption): (t: Settings)
    ensures op.Quality? ==> t.quality == op.q && t.lossless == s.lossless
    ensures op.Lossless? ==> t.lossless && t.quality == s.quality
  {
    match op
    case Quality(q) => s.(quality := q)
    case Lossless => s.(lossless := true)
  }

  /** The options applied one after another, first to last. */
  function ApplyOptions(s: Settings, ops: seq<EncodeOption>): (t: Settings)
    ensures s.lossless ==> t.lossless
    ensures t.quality == s.quality || Quality(t.quality) in ops
    decreases |ops|
  {
    if ops == [] then s else ApplyOptions(ApplyOption(s, ops[0]), ops[1..])
  }

  /** Applying one more option after a run of them is applying it to the result of the run. */
  lemma {:induction false} ApplyOptionsSnoc(s: Settings, ops: seq<EncodeOption>, op: EncodeOption)
    ensures ApplyOptions(s, ops + [op]) == ApplyOption(ApplyOptions(s, ops), op)
    decreases |ops|
  {
    if ops != [] {
      assert (ops + [op])[1..] == ops[1..] + [op];
      ApplyOptionsSnoc(ApplyOption(s, ops[0]), ops[1..], op);
    }
  }

  /** Applying two runs of options one after the other is applying their concatenation. */
  lemma {:induction false} ApplyOptionsAppend(s: Settings, a: seq<EncodeOption>, b: seq<EncodeOption>)
    ensures ApplyOptions(s, a + b) == ApplyOptions(ApplyOptions(s, a), b)
    decreases |a|
  {
    if a == [] {
      assert a + b == b;
    } else {
      assert (a + b)[1..] == a[1..] + b;
      ApplyOptionsAppend(ApplyOption(s, a[0]), a[1..], b);
    }
  }

  /** `ops[i]` is a `Quality` option and no later option is. */
  ghost predicate LastQualityAt(ops: seq<EncodeOption>, i: nat)
  {
    i < |ops| && ops[i].Quality? && forall j :: i < j < |ops| ==> !ops[j].Quality?
  }

  /** The last `Quality` option wins; without one the quality is left as it was. */
  lemma {:induction false} LastQualityWins(s: Settings, ops: seq<EncodeOption>)
    ensures forall i: nat :: LastQualityAt(ops, i) ==> ApplyOptions(s, ops).quality == ops[i].q
    ensures (forall j :: 0 <= j < |ops| ==> !ops[j].Quality?) ==> ApplyOptions(s, ops).quality == s.quality
    decreases |ops|
  {
    if ops != [] {
      var t, tail := ApplyOption(s, ops[0]), ops[1..];
      LastQualityWins(t, tail);
      forall i: nat | LastQualityAt(ops, i) ensures ApplyOptions(s, ops).quality == ops[i].q {
        if i > 0 {
          assert LastQualityAt(tail, i - 1);
        } else {
          assert forall j :: 0 <= j < |tail| ==> !tail[j].Quality? by {
            forall j | 0 <= j < |tail| ensures !tail[j].Quality? { assert tail[j] == ops[j + 1]; }
          }
        }
      }
      if forall j :: 0 <= j < |ops| ==> !ops[j].Quality? {
        assert forall j :: 0 <= j < |tail| ==> !tail[j].Quality? by {
          forall j | 0 <= j < |tail| ensures !tail[j].Quality? { assert tail[j] == ops[j + 1]; }
        }
      }
    }
  }

  /** The encoder ends up lossless exactly when it started so or some option is `Lossless`. */
  lemma {:induction false} LosslessIffOption(s: Settings, ops: seq<EncodeOption>)
    ensures ApplyOptions(s, ops).lossless <==> s.lossless || Lossless in ops
    decreases |ops|
  {
    if ops != [] {
      LosslessIffOption(ApplyOption(s, ops[0]), ops[1..]);
      assert ops == [ops[0]] + ops[1..];
    }
  }

  /** The quality clamp: values in (0,1] are kept, anything else becomes 1. */
  function ClampQuality(q: real): (r: real)
    ensures 0.0 < r <= 1.0
    ensures 0.0 < q <= 1.0 ==> r == q
  {
    if q <= 0.0 || q > 1.0 then 1.0 else q
  }

  /** Clamping twice is clamping once, and out-of-range values become exactly 1. */
  lemma ClampProperties(q: real)
    ensures ClampQuality(ClampQuality(q)) == ClampQuality(q)
    ensures q <= 0.0 || q > 1.0 ==> ClampQuality(q) == 1.0
  {
  }

  /** `boolToInt32`. */
  function BoolToInt32(b: bool): (r: int32)
    ensures r == 0 || r == 1
    ensures r == 1 <==> b
  {
    if b then 1 else 0
  }

  /** The configuration values passed to the native encoder: quality on its [0,100] scale and the
      lossless flag as an int32. */
  datatype NativeArgs = NativeArgs(quality: real, lossless: int32)

  /** The arguments built from the encoder's fields. */
  function NativeArgsOf(s: Settings): (a: NativeArgs)
    ensures 0.0 < s.quality <= 1.0 ==> 0.0 < a.quality <= 100.0
    ensures a.lossless == 1 <==> s.lossless
  {
    NativeArgs(s.quality * 100.0, BoolToInt32(s.lossless))
  }

  /** The native encoder's reply: the size it returns and whether it left the output pointer nil. */
  datatype NativeReply = NativeReply(size: int32, outIsNull: bool)

  /** How `Encode` treats the reply. */
  datatype Outcome =
    | EncodeFailed          // the native encoder produced no bytes
    | AllocationFailed      // a size came back but no output buffer
    | Produced(size: int32) // `size` bytes at the output pointer go on to the writer

  /** A zero size is an encode failure whatever the pointer; a non-zero size with a nil pointer is an
      allocation failure; only a non-zero size with a pointer reaches the write. */
  function Classify(reply: NativeReply): (o: Outcome)
    ensures o.EncodeFailed? <==> reply.size == 0
    ensures o.AllocationFailed? <==> reply.size != 0 && reply.outIsNull
    ensures o.Produced? <==> reply.size != 0 && !reply.outIsNull
    ensures o.Produced? ==> o.size == reply.size
  {
    if reply.size == 0 then EncodeFailed
    else if reply.outIsNull then AllocationFailed
    else Produced(reply.size)
  }

  /** The encoder of webp/encode.go, with its two exported fields. */
  class Encoder {
    var quality: real
    var lossless: bool

    /** `var enc Encoder`: the zero value. */
    constructor ()
      ensures quality == 0.0 && !lossless
    {
      quality, lossless := 0.0, false;
    }

    /** The values of the fields. */
    function Current(): Settings
      reads this
    {
      Settings(quality, lossless)
    }

    /** Calling the option closure `op(&enc)`. */
    method Apply(op: EncodeOption)
      modifies this
      ensures Current() == ApplyOption(old(Current()), op)
    {
      match op
      case Quality(q) => quality := q;
      case Lossless => lossless := true;
    }

    /** `(*Encoder).Encode`, with the image and the writer left out: clamp the quality in place,
        call the native encoder and classify what it returns. Also returns the arguments the native
        encoder was called with. */
    method Encode(native: NativeArgs -> NativeReply) returns (args: NativeArgs, outcome: Outcome)
      modifies this
      ensures quality == ClampQuality(old(quality)) && lossless == old(lossless)
      ensures args == NativeArgsOf(Current()) && 0.0 < args.quality <= 100.0
      ensures outcome == Classify(native(args))
    {
      if quality <= 0.0 || quality > 1.0 {
        quality := 1.0;
      }
      args := NativeArgs(quality * 100.0, BoolToInt32(lossless));
      var reply := native(args);
      if reply.size == 0 {
        return args, EncodeFailed;
      }
      if reply.outIsNull {
        return args, AllocationFailed;
      }
      outcome := Produced(reply.size);
    }
  }

  /** The package-level `Encode`: apply the options in order to a zero-valued Encoder, then encode.
      Returns the arguments the native encoder saw and the outcome. */
  method Encode(opts: seq<EncodeOption>, native: NativeArgs -> NativeReply)
    returns (args: NativeArgs, outcome: Outcome)
    ensures var s := ApplyOptions(ZeroSettings, opts);
      args == NativeArgsOf(Settings(ClampQuality(s.quality), s.lossless))
    ensures outcome == Classify(native(args))
  {
    var enc := new Encoder();
    var n := 0;
    while n < |opts|
      invariant 0 <= n <= |opts|
      invariant enc.Current() == ApplyOptions(ZeroSettings, opts[..n])
    {
      ApplyOptionsSnoc(ZeroSettings, opts[..n], opts[n]);
      assert opts[..n + 1] == opts[..n] + [opts[n]];
      enc.Apply(opts[n]);
      n := n + 1;
    }
    assert opts[..n] == opts;
    args, outcome := enc.Encode(native);
  }

  /** What reaches the native encoder: a quality in (0,100], never 0, so the native divide-by-zero
      on a zero quality with the lossless flag set cannot be triggered through `Encode`; with no
      options the call is lossy at quality 100. */
  lemma NativeArgsInRange(opts: seq<EncodeOption>)
    ensures var s := ApplyOptions(ZeroSettings, opts);
      var a := NativeArgsOf(Settings(ClampQuality(s.quality), s.lossless));
      0.0 < a.quality <= 100.0 && (a.lossless == 1 <==> Lossless in opts)
    ensures opts == [] ==> NativeArgsOf(Settings(ClampQuality(ApplyOptions(ZeroSettings, opts).quality),
      ApplyOptions(ZeroSettings, opts).lossless)) == NativeArgs(100.0, 0)
  {
    LosslessIffOption(ZeroSettings, opts);
  }
}
