/** Streams that let bytes through up to a limit, where the limit may depend on a sample of the bytes themselves. */
module ByteLimiter {
  import opened Wrappers
  import opened Bytes

  const FILE_TYPE_SAMPLE_SIZE: nat := 4100
  const MEGABYTE: nat := 1024 * 1024
  const POSTER_PDF_LIMIT: nat := 50 * MEGABYTE
  const IMAGE_PDF_LIMIT: nat := 100 * MEGABYTE

  datatype AssetKind = Thumbnail | Image | Poster | Game | Video | Webgl | Document | Attachment

  datatype Mime = Pdf | Other(name: string)

  datatype UploadLimits = UploadLimits(posterMaxBytes: int, imageMaxBytes: int, gameMaxBytes: int, videoMaxBytes: int)

  datatype StreamError = PayloadTooLarge(limit: int) | DetectionFailed

  /** What the detector makes of a sample: an error, nothing, or a type. */
  type Detector = seq<Byte> -> Result<Option<Mime>, ()>

  function Max(a: int, b: int): int {
    if a < b then b else a
  }

  function KindLimit(limits: UploadLimits, kind: AssetKind): int {
    match kind
    case Document | Attachment => 50 * MEGABYTE
    case Game => limits.gameMaxBytes
    case Video => limits.videoMaxBytes
    case Poster | Thumbnail => limits.posterMaxBytes
    case Image | Webgl => limits.imageMaxBytes
  }

  function KindLimitForMime(limits: UploadLimits, kind: AssetKind, mime: Option<Mime>): int {
    var base := KindLimit(limits, kind);
    if kind == Poster && mime == Some(Pdf) then Max(base, POSTER_PDF_LIMIT)
    else if kind == Image && mime == Some(Pdf) then Max(base, IMAGE_PDF_LIMIT)
    else base
  }

  /** The verdict on a whole byte string, with no streams in sight. */
  function LimitOf(s: seq<Byte>, limits: UploadLimits, kind: AssetKind, detect: Detector): Result<int, ()> {
    match detect(First(s, FILE_TYPE_SAMPLE_SIZE))
    case Success(mime) => Success(KindLimitForMime(limits, kind, mime))
    case Failure(e) => Failure(e)
  }

  /** Knowing the type can only widen the limit, only for PDF posters and images, and then to the ceiling for those. */
  lemma PdfOnlyWidens(limits: UploadLimits, kind: AssetKind, mime: Option<Mime>)
    ensures KindLimitForMime(limits, kind, mime) >= KindLimit(limits, kind)
    ensures KindLimitForMime(limits, kind, mime) > KindLimit(limits, kind) ==>
              KindLimitForMime(limits, kind, mime) == if kind == Poster then 52_428_800 else 104_857_600
    ensures KindLimitForMime(limits, kind, mime) != KindLimit(limits, kind)
            <==> mime == Some(Pdf) && ((kind == Poster && limits.posterMaxBytes < POSTER_PDF_LIMIT)
                                       || (kind == Image && limits.imageMaxBytes < IMAGE_PDF_LIMIT))
  {
  }

  /** Once the sample is full, more bytes cannot change the limit. */
  lemma LimitOfPrefix(p: seq<Byte>, s: seq<Byte>, limits: UploadLimits, kind: AssetKind, detect: Detector)
    requires p <= s && |p| >= FILE_TYPE_SAMPLE_SIZE
    ensures LimitOf(p, limits, kind, detect) == LimitOf(s, limits, kind, detect)
  {
    assert First(p, FILE_TYPE_SAMPLE_SIZE) == First(s, FILE_TYPE_SAMPLE_SIZE);
  }

  class KindAwareByteLimiter {
    const limits: UploadLimits
    const kind: AssetKind
    const detect: Detector
    var sample: seq<Byte>
    var pendingChunks: seq<seq<Byte>>
    var total: nat
    var effectiveLimit: Option<int>
    var output: seq<Byte>        // what has been pushed downstream
    ghost var seen: seq<Byte>    // what has come in

    constructor (limits: UploadLimits, kind: AssetKind, detect: Detector)
      ensures Flowing() && seen == [] && output == []
      ensures this.limits == limits && this.kind == kind && this.detect == detect
    {
      this.limits, this.kind, this.detect := limits, kind, detect;
      sample, pendingChunks, total, effectiveLimit, output := [], [], 0, None, [];
      seen := [];
    }

    /** A stream that has not failed: it holds everything back until it knows the limit, and nothing afterwards. */
    ghost predicate Flowing()
      reads this
    {
      && total == |seen|
      && sample == First(seen, FILE_TYPE_SAMPLE_SIZE)
      && (effectiveLimit.None? ==> |seen| < FILE_TYPE_SAMPLE_SIZE && Flatten(pendingChunks) == seen && output == [])
      && (effectiveLimit.Some? ==>
            |seen| >= FILE_TYPE_SAMPLE_SIZE && pendingChunks == [] && output == seen
            && LimitOf(seen, limits, kind, detect) == Success(effectiveLimit.value) && total <= effectiveLimit.value)
    }

    /** What a failed stream leaves behind, and why it failed. */
    ghost predicate Broken(e: StreamError)
      reads this
    {
      && output <= seen
      && match LimitOf(seen, limits, kind, detect)
         case Success(limit) => e == PayloadTooLarge(limit) && |seen| > limit && |output| <= Max(limit, 0)
         case Failure(_) => e == DetectionFailed && output == []
    }

    method ResolveLimit() returns (r: Result<int, StreamError>)
      requires sample == First(seen, FILE_TYPE_SAMPLE_SIZE)
      requires effectiveLimit.Some? ==> LimitOf(seen, limits, kind, detect) == Success(effectiveLimit.value)
      modifies this`effectiveLimit
      ensures match LimitOf(seen, limits, kind, detect)
              case Success(limit) => r == Success(limit) && effectiveLimit == Some(limit)
              case Failure(_) => r == Failure(DetectionFailed) && effectiveLimit == old(effectiveLimit)
    {
      if effectiveLimit.Some? {
        return Success(effectiveLimit.value);
      }
      match detect(sample)
      case Failure(_) =>
        return Failure(DetectionFailed);
      case Success(mime) =>
        effectiveLimit := Some(KindLimitForMime(limits, kind, mime));
        return Success(effectiveLimit.value);
    }

    /** Releases what was held back, once the limit is known and not exceeded. */
    method Release() returns (r: Option<StreamError>)
      requires total == |seen| && sample == First(seen, FILE_TYPE_SAMPLE_SIZE)
      requires effectiveLimit.Some? ==> LimitOf(seen, limits, kind, detect) == Success(effectiveLimit.value)
      requires output + Flatten(pendingChunks) == seen && (effectiveLimit.Some? ==> total <= effectiveLimit.value)
      requires effectiveLimit.None? ==> output == []
      modifies this`effectiveLimit, this`pendingChunks, this`output
      ensures r.None? ==>
                output == seen && pendingChunks == [] && effectiveLimit.Some? && total <= effectiveLimit.value
                && LimitOf(seen, limits, kind, detect) == Success(effectiveLimit.value)
      ensures r.Some? ==> Broken(r.value)
    {
      hide LimitOf, First, Flatten;
      var resolved := ResolveLimit();
      if resolved.Failure? {
        return Some(resolved.error);
      }
      if total > resolved.value {
        return Some(PayloadTooLarge(resolved.value));
      }
      ghost var before := output;
      assert pendingChunks[..0] == [];
      FlattenNothing<Byte>();
      for i := 0 to |pendingChunks|
        invariant pendingChunks == old(pendingChunks) && effectiveLimit == Some(resolved.value)
        invariant output == before + Flatten(pendingChunks[..i])
      {
        FlattenPush(pendingChunks[..i], pendingChunks[i]);
        assert pendingChunks[..i + 1] == pendingChunks[..i] + [pendingChunks[i]];
        output := output + pendingChunks[i];
      }
      assert pendingChunks[..|pendingChunks|] == pendingChunks;
      assert output == seen;
      pendingChunks := [];
      return None;
    }

    method Transform(chunk: seq<Byte>) returns (r: Option<StreamError>)
      requires Flowing()
      modifies this
      ensures seen == old(seen) + chunk
      ensures if r.None? then Flowing() else Broken(r.value) && |seen| >= FILE_TYPE_SAMPLE_SIZE
    {
      hide First;
      FirstOfExtension(seen, chunk, FILE_TYPE_SAMPLE_SIZE);
      total, seen := total + |chunk|, seen + chunk;
      if effectiveLimit.Some? {
        if total > effectiveLimit.value {
          return Some(PayloadTooLarge(effectiveLimit.value));
        }
        output := output + chunk;
        return None;
      }
      FlattenPush(pendingChunks, chunk);
      pendingChunks := pendingChunks + [chunk];
      if |sample| < FILE_TYPE_SAMPLE_SIZE {
        var remaining := FILE_TYPE_SAMPLE_SIZE - |sample|;
        sample := sample + First(chunk, remaining);
      }
      if |sample| < FILE_TYPE_SAMPLE_SIZE {
        return None;
      }
      r := Release();
    }

    method Flush() returns (r: Option<StreamError>)
      requires Flowing()
      modifies this`effectiveLimit, this`pendingChunks, this`output
      ensures match r
              case None =>
                && output == seen
                && exists limit :: LimitOf(seen, limits, kind, detect) == Success(limit) && |seen| <= limit
              case Some(e) => Broken(e)
    {
      r := Release();
    }
  }

  /** A run of the stream over a byte string cut into chunks: nothing it shows depends on where the cuts are. */
  method Pipe(chunks: seq<seq<Byte>>, limits: UploadLimits, kind: AssetKind, detect: Detector)
    returns (failure: Option<StreamError>, output: seq<Byte>)
    ensures var s := Flatten(chunks);
            match LimitOf(s, limits, kind, detect)
            case Failure(_) => failure == Some(DetectionFailed) && output == []
            case Success(limit) =>
              if |s| <= limit then failure == None && output == s
              else failure == Some(PayloadTooLarge(limit)) && output <= s && |output| <= Max(limit, 0)
  {
    var stream := new KindAwareByteLimiter(limits, kind, detect);
    for i := 0 to |chunks|
      invariant stream.Flowing() && stream.seen == Flatten(chunks[..i])
      invariant stream.limits == limits && stream.kind == kind && stream.detect == detect
      invariant fresh(stream)
    {
      FlattenPush(chunks[..i], chunks[i]);
      assert chunks[..i + 1] == chunks[..i] + [chunks[i]];
      failure := stream.Transform(chunks[i]);
      if failure.Some? {
        FlattenPrefix(chunks, i + 1);
        LimitOfPrefix(stream.seen, Flatten(chunks), limits, kind, detect);
        return failure, stream.output;
      }
    }
    assert chunks[..|chunks|] == chunks;
    failure := stream.Flush();
    output := stream.output;
  }

  /** The limiter for a bound known beforehand. */
  class PlainByteLimiter {
    const maxBytes: int
    var total: nat
    var output: seq<Byte>

    constructor (maxBytes: int)
      ensures this.maxBytes == maxBytes && total == 0 && output == []
    {
      this.maxBytes, total, output := maxBytes, 0, [];
    }

    method Transform(chunk: seq<Byte>) returns (r: Option<StreamError>)
      modifies this
      ensures total == old(total) + |chunk|
      ensures if total > maxBytes then r == Some(PayloadTooLarge(maxBytes)) && output == old(output)
              else r == None && output == old(output) + chunk
    {
      total := total + |chunk|;
      if total > maxBytes {
        return Some(PayloadTooLarge(maxBytes));
      }
      output := output + chunk;
      return None;
    }
  }

  /** Chunking does not matter here either; a stream of no chunks is never compared with the limit. */
  method PipePlain(chunks: seq<seq<Byte>>, maxBytes: int) returns (failure: Option<StreamError>, output: seq<Byte>)
    ensures var s := Flatten(chunks);
            if |s| <= maxBytes || chunks == [] then failure == None && output == s
            else failure == Some(PayloadTooLarge(maxBytes)) && output <= s && |output| <= Max(maxBytes, 0)
  {
    var stream := new PlainByteLimiter(maxBytes);
    for i := 0 to |chunks|
      invariant fresh(stream) && stream.maxBytes == maxBytes && stream.total == |stream.output|
      invariant stream.output == Flatten(chunks[..i]) && (i > 0 ==> stream.total <= maxBytes)
    {
      FlattenPush(chunks[..i], chunks[i]);
      assert chunks[..i + 1] == chunks[..i] + [chunks[i]];
      FlattenPrefix(chunks, i);
      FlattenPrefix(chunks, i + 1);
      failure := stream.Transform(chunks[i]);
      if failure.Some? {
        return failure, stream.output;
      }
    }
    assert chunks[..|chunks|] == chunks;
    return None, stream.output;
  }

  // ----- the limits in numbers -----

  /** The first 4100 bytes decide: 50 MB for documents, 50 and 100 MB at least for PDF posters and images. */
  lemma LimitExact(s: seq<Byte>, limits: UploadLimits, kind: AssetKind, detect: Detector)
    ensures var detected := detect(if |s| < 4100 then s else s[..4100]);
            && (LimitOf(s, limits, kind, detect).Success? <==> detected.Success?)
            && (detected.Success? ==>
                  var pdf := detected.value == Some(Pdf);
                  LimitOf(s, limits, kind, detect).value ==
                  match kind
                  case Document => 52_428_800
                  case Attachment => 52_428_800
                  case Game => limits.gameMaxBytes
                  case Video => limits.videoMaxBytes
                  case Thumbnail => limits.posterMaxBytes
                  case Webgl => limits.imageMaxBytes
                  case Poster => if pdf && limits.posterMaxBytes < 52_428_800 then 52_428_800 else limits.posterMaxBytes
                  case Image => if pdf && limits.imageMaxBytes < 104_857_600 then 104_857_600 else limits.imageMaxBytes)
  {
    assert s[..|s|] == s;
  }
}
