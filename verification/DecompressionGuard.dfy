/**
  * The reader that watches a decoder's output: it counts the bytes that pass and compares the
  * total with the size and ratio limits each time an interval's worth has gone by.
  */
module DecompressionGuard {
  datatype Config = Config(
    maxRatio: real, maxDecompressed: nat, maxCompressed: nat, maxDepth: nat, interval: nat)

  datatype Fault =
    | SizeExceeded(size: nat, maxSize: nat)
    | RatioExceeded(ratio: real, maxRatio: real)
    | DepthExceeded(depth: nat, maxDepth: nat)
    | InputTooLarge(size: nat, maxSize: nat)
    | DecoderFailed

  datatype Check = Pass | Fault(fault: Fault)

  /** What the decoder answers to one read; an empty chunk means the end. */
  datatype Answer<B> = Chunk(bytes: seq<B>) | Interrupted | Broken

  /** What the guarded reader answers. */
  datatype ReadResult<B> = Delivered(bytes: seq<B>) | Retry | ReadFailed(fault: Fault)

  datatype Decoded<B> = Output(bytes: seq<B>) | Rejected(fault: Fault)

  /** The guard's counters. */
  datatype Guard = Guard(decompressed: nat, sinceCheck: nat)

  function CheckLimits(config: Config, compressed: nat, decompressed: nat): Check {
    if decompressed > config.maxDecompressed then
      Fault(SizeExceeded(decompressed, config.maxDecompressed))
    else if compressed > 0 && decompressed > 0 && decompressed as real / compressed as real > config.maxRatio then
      Fault(RatioExceeded(decompressed as real / compressed as real, config.maxRatio))
    else Pass
  }

  /** The check on the finished output, which asks for the ratio of an empty output too. */
  function ValidateResult(config: Config, compressed: nat, decompressed: nat): Check {
    if decompressed > config.maxDecompressed then
      Fault(SizeExceeded(decompressed, config.maxDecompressed))
    else if compressed > 0 && decompressed as real / compressed as real > config.maxRatio then
      Fault(RatioExceeded(decompressed as real / compressed as real, config.maxRatio))
    else Pass
  }

  /** One read: count first, then check if an interval's worth has passed. */
  function GuardAfter<B>(config: Config, compressed: nat, g: Guard, answer: Answer<B>): Guard {
    if !answer.Chunk? then g
    else
      var total, since := g.decompressed + |answer.bytes|, g.sinceCheck + |answer.bytes|;
      if since >= config.interval && CheckLimits(config, compressed, total) == Pass
      then Guard(total, 0) else Guard(total, since)
  }

  function ReadAnswer<B>(config: Config, compressed: nat, g: Guard, answer: Answer<B>): ReadResult<B> {
    match answer
    case Interrupted => Retry
    case Broken => ReadFailed(DecoderFailed)
    case Chunk(bytes) =>
      var total, since := g.decompressed + |bytes|, g.sinceCheck + |bytes|;
      if since < config.interval then Delivered(bytes)
      else
        match CheckLimits(config, compressed, total)
        case Pass => Delivered(bytes)
        case Fault(fault) => ReadFailed(fault)
  }

  class CompressionBombProtector {
    const config: Config
    const compressed: nat
    const depth: nat
    var decompressed: nat
    var sinceCheck: nat

    function Counters(): Guard
      reads this
    {
      Guard(decompressed, sinceCheck)
    }

    constructor (config: Config, compressed: nat, depth: nat)
      ensures this.config == config && this.compressed == compressed && this.depth == depth
      ensures Counters() == Guard(0, 0)
    {
      this.config, this.compressed, this.depth := config, compressed, depth;
      decompressed, sinceCheck := 0, 0;
    }

    method Read<B>(answer: Answer<B>) returns (result: ReadResult<B>)
      modifies this
      ensures Counters() == GuardAfter(config, compressed, old(Counters()), answer)
      ensures result == ReadAnswer(config, compressed, old(Counters()), answer)
    {
      if answer.Interrupted? { return Retry; }
      if answer.Broken? { return ReadFailed(DecoderFailed); }
      decompressed := decompressed + |answer.bytes|;
      sinceCheck := sinceCheck + |answer.bytes|;
      if sinceCheck >= config.interval {
        var check := CheckLimits(config, compressed, decompressed);
        if check.Fault? { return ReadFailed(check.fault); }
        sinceCheck := 0;
      }
      result := Delivered(answer.bytes);
    }
  }

  // ---------------------------------------------------------------- runs of reads

  function Counters<B>(config: Config, compressed: nat, run: seq<Answer<B>>): Guard {
    if run == [] then Guard(0, 0)
    else GuardAfter(config, compressed, Counters(config, compressed, run[..|run| - 1]), run[|run| - 1])
  }

  /** The last read of the run delivers its bytes. */
  predicate Succeeds<B>(config: Config, compressed: nat, run: seq<Answer<B>>) {
    run != [] &&
    ReadAnswer(config, compressed, Counters(config, compressed, run[..|run| - 1]), run[|run| - 1]).Delivered?
  }

  /** The last read of the run trips a limit. */
  predicate Trips<B>(config: Config, compressed: nat, run: seq<Answer<B>>) {
    run != [] && run[|run| - 1].Chunk? && !Succeeds(config, compressed, run)
  }

  predicate Allows(config: Config, compressed: nat, decompressed: nat) {
    CheckLimits(config, compressed, decompressed) == Pass
  }

  lemma {:induction false} RatioMonotone(a: nat, b: nat, c: nat)
    requires a <= b && c > 0
    ensures a as real / c as real <= b as real / c as real
  {
    var x, y := a as real / c as real, b as real / c as real;
    assert x * c as real == a as real && y * c as real == b as real;
    NonNegativeFactor(y - x, c as real);
  }

  lemma NonNegativeFactor(d: real, c: real)
    requires c > 0.0 && d * c >= 0.0
    ensures d >= 0.0
  {
  }

  /** What is allowed stays allowed when less of it has come through. */
  lemma {:induction false} AllowsLess(config: Config, compressed: nat, less: nat, more: nat)
    requires less <= more && Allows(config, compressed, more)
    ensures Allows(config, compressed, less)
  {
    if compressed > 0 { RatioMonotone(less, more, compressed); }
  }

  /** A total made of a checked base and fewer unchecked bytes than an interval. */
  predicate Attainable(config: Config, compressed: nat, base: nat, total: nat) {
    base <= total && Allows(config, compressed, base) && (base == 0 || base >= config.interval) &&
    (total == base || total - base < config.interval)
  }

  /** The counters are those of a guard that never tripped. */
  predicate Healthy(config: Config, compressed: nat, g: Guard) {
    g.sinceCheck <= g.decompressed && Attainable(config, compressed, g.decompressed - g.sinceCheck, g.decompressed)
  }

  /** The counters are those of a guard that tripped: a check is due and cannot pass. */
  predicate Tripped(config: Config, compressed: nat, g: Guard) {
    g.sinceCheck >= config.interval && !Allows(config, compressed, g.decompressed)
  }

  lemma {:induction false} ReadHealthy<B>(config: Config, compressed: nat, g: Guard, answer: Answer<B>)
    requires Healthy(config, compressed, g)
    ensures var next := GuardAfter(config, compressed, g, answer);
            if answer.Chunk? && !ReadAnswer(config, compressed, g, answer).Delivered?
            then Tripped(config, compressed, next) else Healthy(config, compressed, next)
  {
  }

  lemma {:induction false} ReadTripped<B>(config: Config, compressed: nat, g: Guard, answer: Answer<B>)
    requires Tripped(config, compressed, g)
    ensures Tripped(config, compressed, GuardAfter(config, compressed, g, answer))
    ensures !ReadAnswer(config, compressed, g, answer).Delivered?
  {
    if answer.Chunk? && Allows(config, compressed, g.decompressed + |answer.bytes|) {
      AllowsLess(config, compressed, g.decompressed, g.decompressed + |answer.bytes|);
      assert false;
    }
  }

  lemma {:induction false} RunHealth<B>(config: Config, compressed: nat, run: seq<Answer<B>>)
    ensures var g := Counters(config, compressed, run);
            && (Healthy(config, compressed, g) || Tripped(config, compressed, g))
            && (Succeeds(config, compressed, run) ==> Healthy(config, compressed, g))
            && (Trips(config, compressed, run) ==> Tripped(config, compressed, g))
  {
    if run == [] {
      assert Attainable(config, compressed, 0, 0);
    } else {
      hide Healthy, Tripped, GuardAfter, ReadAnswer;
      var before, answer := run[..|run| - 1], run[|run| - 1];
      var g := Counters(config, compressed, before);
      RunHealth(config, compressed, before);
      if Healthy(config, compressed, g) {
        ReadHealthy(config, compressed, g, answer);
        OnlyChunksDeliver(config, compressed, g, answer);
      } else {
        ReadTripped(config, compressed, g, answer);
      }
    }
  }

  lemma OnlyChunksDeliver<B>(config: Config, compressed: nat, g: Guard, answer: Answer<B>)
    ensures ReadAnswer(config, compressed, g, answer).Delivered? ==> answer.Chunk?
  {
  }

  /** Once a limit check has failed, no later read delivers anything. */
  lemma {:induction false} Sticky<B>(config: Config, compressed: nat, run: seq<Answer<B>>, later: seq<Answer<B>>)
    requires Trips(config, compressed, run)
    ensures Tripped(config, compressed, Counters(config, compressed, run + later))
    ensures later != [] ==> !Succeeds(config, compressed, run + later)
  {
    if later == [] {
      assert run + later == run;
      RunHealth(config, compressed, run);
    } else {
      var n := |later| - 1;
      assert (run + later)[..|run| + n] == run + later[..n];
      Sticky(config, compressed, run, later[..n]);
      ReadTripped(config, compressed, Counters(config, compressed, run + later[..n]), later[n]);
    }
  }

  /** Some run of reads ends in success with this many bytes delivered in all. */
  ghost predicate Reaches<B(!new)>(config: Config, compressed: nat, total: nat) {
    exists run: seq<Answer<B>> ::
      Succeeds(config, compressed, run) && Counters(config, compressed, run).decompressed == total
  }

  /** Exactly the totals made of a checked base and a short unchecked tail are ever delivered. */
  lemma {:induction false} ReachesIff<B(!new)>(config: Config, compressed: nat, total: nat, b: B)
    ensures Reaches<B>(config, compressed, total)
       <==> exists base :: Attainable(config, compressed, base, total)
  {
    if Reaches<B>(config, compressed, total) {
      var run: seq<Answer<B>> :|
        Succeeds(config, compressed, run) && Counters(config, compressed, run).decompressed == total;
      RunHealth(config, compressed, run);
      assert Attainable(config, compressed, total - Counters(config, compressed, run).sinceCheck, total);
    }
    if base :| Attainable(config, compressed, base, total) {
      ReachTotal(config, compressed, base, total, b);
    }
  }

  lemma {:induction false} ReachTotal<B(!new)>(config: Config, compressed: nat, base: nat, total: nat, b: B)
    requires Attainable(config, compressed, base, total)
    ensures Reaches<B>(config, compressed, total)
  {
    var head: Answer<B> := Chunk(seq(base, _ => b));
    var tail: Answer<B> := Chunk(seq(total - base, _ => b));
    var run := [head, tail];
    assert run[..1] == [head] && [head][..0] == [];
    assert Counters(config, compressed, [head]) == Guard(base, 0);
    assert Counters(config, compressed, run).decompressed == total;
    assert Succeeds(config, compressed, run);
  }

  /** The most bytes past a limit that may be delivered before the next check. */
  function Slack(config: Config): nat { if config.interval == 0 then 0 else config.interval - 1 }

  /** After every successful read the total is within each limit but for the slack. */
  lemma {:induction false} OvershootBounded<B>(config: Config, compressed: nat, run: seq<Answer<B>>)
    requires Succeeds(config, compressed, run)
    ensures var total := Counters(config, compressed, run).decompressed;
            && total <= config.maxDecompressed + Slack(config)
            && (compressed > 0 && config.maxRatio >= 0.0 ==>
                  total as real <= config.maxRatio * compressed as real + Slack(config) as real)
  {
    RunHealth(config, compressed, run);
    var g := Counters(config, compressed, run);
    AllowedProduct(config, compressed, g.decompressed - g.sinceCheck);
  }

  lemma {:induction false} AllowedProduct(config: Config, compressed: nat, n: nat)
    requires Allows(config, compressed, n)
    ensures n <= config.maxDecompressed
    ensures compressed > 0 && config.maxRatio >= 0.0 ==> n as real <= config.maxRatio * compressed as real
  {
    if compressed > 0 && config.maxRatio >= 0.0 {
      var c := compressed as real;
      var x := n as real / c;
      assert x * c == n as real;
      assert x <= config.maxRatio;
      assert (config.maxRatio - x) * c >= 0.0;
    }
  }

  // ---------------------------------------------------------------- protected decompression

  /** The decoder's whole output, up to its end or its failure; `Interrupted` is retried. */
  function Produced<B>(source: seq<Answer<B>>): seq<B> {
    if source == [] || source[0].Broken? || source[0] == Chunk([]) then []
    else (if source[0].Chunk? then source[0].bytes else []) + Produced(source[1..])
  }

  predicate Finishes<B>(source: seq<Answer<B>>) {
    source == [] || source[0] == Chunk([]) || (!source[0].Broken? && Finishes(source[1..]))
  }

  /** What a validated output is: within the size limit and within the ratio limit. */
  lemma {:induction false} ValidatedIff(config: Config, compressed: nat, n: nat)
    ensures ValidateResult(config, compressed, n) == Pass
       <==> n <= config.maxDecompressed
            && (compressed > 0 ==> n as real <= config.maxRatio * compressed as real)
  {
    if compressed > 0 {
      var c := compressed as real;
      var x := n as real / c;
      assert x * c == n as real;
      if x <= config.maxRatio {
        assert (config.maxRatio - x) * c >= 0.0;
      } else {
        assert (x - config.maxRatio) * c > 0.0;
      }
    }
  }

  /** Each rejection names a limit that really is exceeded, by the amount it says. */
  predicate Deserved<B>(config: Config, compressed: nat, source: seq<Answer<B>>, depth: nat, fault: Fault) {
    if compressed > config.maxCompressed then fault == InputTooLarge(compressed, config.maxCompressed)
    else if depth > config.maxDepth then fault == DepthExceeded(depth, config.maxDepth)
    else OverLimit(config, fault) || (fault == DecoderFailed && !Finishes(source))
  }

  predicate OverLimit(config: Config, fault: Fault) {
    match fault
    case SizeExceeded(size, maxSize) => maxSize == config.maxDecompressed && size > maxSize
    case RatioExceeded(ratio, maxRatio) => maxRatio == config.maxRatio && ratio > maxRatio
    case _ => false
  }

  /** The periodic check: size first, then the ratio of what has come through, if anything has. */
  lemma {:induction false} AllowedIff(config: Config, compressed: nat, n: nat)
    ensures Allows(config, compressed, n)
       <==> n <= config.maxDecompressed
            && (compressed > 0 && n > 0 ==> n as real <= config.maxRatio * compressed as real)
    ensures n > config.maxDecompressed ==>
              CheckLimits(config, compressed, n) == Fault(SizeExceeded(n, config.maxDecompressed))
    ensures n <= config.maxDecompressed && !Allows(config, compressed, n) ==>
              && compressed > 0
              && CheckLimits(config, compressed, n)
                 == Fault(RatioExceeded(n as real / compressed as real, config.maxRatio))
  {
    if n > 0 {
      ValidatedIff(config, compressed, n);
    }
  }

  function AnswersOf<B>(chunks: seq<seq<B>>): seq<Answer<B>> {
    if chunks == [] then [] else [Chunk(chunks[0])] + AnswersOf(chunks[1..])
  }

  function Joined<B>(chunks: seq<seq<B>>): seq<B> {
    if chunks == [] then [] else chunks[0] + Joined(chunks[1..])
  }

  lemma {:induction false} ChunkFirst<B>(chunk: seq<B>, rest: seq<Answer<B>>)
    requires chunk != []
    ensures Produced([Chunk(chunk)] + rest) == chunk + Produced(rest)
    ensures Finishes([Chunk(chunk)] + rest) <==> Finishes(rest)
  {
    assert ([Chunk(chunk)] + rest)[1..] == rest;
  }

  /** Non-empty chunks are produced joined, ahead of whatever follows them. */
  lemma {:induction false} ProducedChunks<B>(chunks: seq<seq<B>>, rest: seq<Answer<B>>)
    requires forall i :: 0 <= i < |chunks| ==> chunks[i] != []
    ensures Produced(AnswersOf(chunks) + rest) == Joined(chunks) + Produced(rest)
    ensures Finishes(AnswersOf(chunks) + rest) <==> Finishes(rest)
  {
    if chunks == [] {
      assert AnswersOf(chunks) + rest == rest;
      assert [] + Produced(rest) == Produced(rest);
    } else {
      hide Produced, Finishes;
      var tail := AnswersOf(chunks[1..]) + rest;
      ProducedChunks(chunks[1..], rest);
      assert AnswersOf(chunks) + rest == [Chunk(chunks[0])] + tail;
      ChunkFirst(chunks[0], tail);
      assert chunks[0] + (Joined(chunks[1..]) + Produced(rest)) == Joined(chunks) + Produced(rest);
    }
  }

  /** The end of the stream, reported or not, finishes it; breaking off does not; an interruption
      counts for nothing. */
  lemma {:induction false} SourceEnds<B>(rest: seq<Answer<B>>)
    ensures Produced<B>([]) == [] && Finishes<B>([])
    ensures Produced([Chunk([])] + rest) == [] && Finishes([Chunk([])] + rest)
    ensures Produced([Broken] + rest) == [] && !Finishes([Broken] + rest)
    ensures Produced([Interrupted] + rest) == Produced(rest) && (Finishes([Interrupted] + rest) <==> Finishes(rest))
  {
    assert ([Interrupted] + rest)[1..] == rest && [] + Produced(rest) == Produced(rest);
  }

  /**
    * Decodes through a guarded reader: reads to the end, then validates the result. A source
    * with no more answers has ended; a call that is not nested has depth 0.
    */
  method DecodeWithProtection<B>(
    config: Config, compressed: nat, source: seq<Answer<B>>, depth: nat) returns (result: Decoded<B>)
    ensures result.Output? <==>
              && compressed <= config.maxCompressed && depth <= config.maxDepth
              && Finishes(source) && |Produced(source)| <= config.maxDecompressed
              && (compressed > 0 ==> |Produced(source)| as real <= config.maxRatio * compressed as real)
    ensures result.Output? ==> result.bytes == Produced(source)
    ensures result.Rejected? ==> Deserved(config, compressed, source, depth, result.fault)
  {
    ValidatedIff(config, compressed, |Produced(source)|);
    if compressed > config.maxCompressed {
      return Rejected(InputTooLarge(compressed, config.maxCompressed));
    }
    if depth > config.maxDepth {
      return Rejected(DepthExceeded(depth, config.maxDepth));
    }
    var protector := new CompressionBombProtector(config, compressed, depth);
    var out: seq<B> := [];
    var i := 0;
    var ended := false;
    assert source[0..] == source;
    while !ended
      invariant i <= |source|
      invariant protector.decompressed == |out|
      invariant out + (if ended then [] else Produced(source[i..])) == Produced(source)
      invariant Finishes(source) <==> (ended || Finishes(source[i..]))
      decreases |source| - i, !ended
    {
      hide Produced, Finishes, ValidateResult, CheckLimits;
      var answer := if i < |source| then source[i] else Chunk([]);
      ghost var g := protector.Counters();
      Unfold(source, i, out);
      var read := protector.Read(answer);
      if read.ReadFailed? {
        FailureJustified(config, compressed, g, source[i..], answer, out);
        return Rejected(read.fault);
      }
      if read.Delivered? && read.bytes == [] {
        ended := true;
      } else {
        if read.Delivered? { out := out + read.bytes; }
        i := i + 1;
      }
    }
    var check := ValidateResult(config, compressed, |out|);
    result := if check.Fault? then Rejected(check.fault) else Output(out);
  }

  /** What one more answer says about the rest of the output. */
  lemma {:induction false} Unfold<B>(source: seq<Answer<B>>, i: nat, out: seq<B>)
    requires i <= |source|
    ensures i == |source| || source[i] == Chunk([]) ==> Produced(source[i..]) == [] && Finishes(source[i..])
    ensures i < |source| && source[i].Chunk? && source[i].bytes != [] ==>
              && out + Produced(source[i..]) == out + source[i].bytes + Produced(source[i + 1..])
              && (Finishes(source[i..]) <==> Finishes(source[i + 1..]))
    ensures i < |source| && source[i].Interrupted? ==>
              && Produced(source[i..]) == Produced(source[i + 1..])
              && (Finishes(source[i..]) <==> Finishes(source[i + 1..]))
  {
    if i < |source| {
      assert source[i..][0] == source[i] && source[i..][1..] == source[i + 1..];
      assert [] + Produced(source[i + 1..]) == Produced(source[i + 1..]);
      if source[i].Chunk? {
        assert out + (source[i].bytes + Produced(source[i + 1..])) == out + source[i].bytes + Produced(source[i + 1..]);
      }
    }
  }

  /** A failed read means that the decoder broke or that its whole output is over a limit. */
  lemma {:induction false} FailureJustified<B>(
    config: Config, compressed: nat, g: Guard, rest: seq<Answer<B>>, answer: Answer<B>, out: seq<B>)
    requires g.decompressed == |out| && answer == (if rest == [] then Chunk([]) else rest[0])
    requires ReadAnswer(config, compressed, g, answer).ReadFailed?
    ensures !Finishes(rest) || ValidateResult(config, compressed, |out + Produced(rest)|) != Pass
    ensures var fault := ReadAnswer(config, compressed, g, answer).fault;
            OverLimit(config, fault) || (fault == DecoderFailed && !Finishes(rest))
  {
    if answer.Chunk? {
      var total := |out + Produced(rest)|;
      assert g.decompressed + |answer.bytes| <= total;
      if ValidateResult(config, compressed, total) == Pass {
        AllowsLess(config, compressed, g.decompressed + |answer.bytes|, total);
        assert false;
      }
    }
  }
}
