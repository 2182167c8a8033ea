/**
 * Bitrate analysis: the per-file aggregation of `get_source_bitrate_and_codec`
 * over probe results given as values, and the codec-efficiency ladder of
 * `calculate_optimal_aac_bitrate`.
 */
module Bitrate {
  import opened Wrappers
  import opened Text

  const DefaultBitrate := 128
  const DefaultCodec := "mp3"
  const QuickBitrate := 16
  const MaxCodecNameLength := 20
  const Brackets: set<int> := {32, 48, 64, 96, 128}

  /** The `bit_rate` field of the first audio stream. */
  datatype BitRateField = NoBitRate | Malformed | BitsPerSecond(bps: int)

  /** The first audio stream as the probe reports it. */
  datatype Stream = Stream(bitRate: BitRateField, codecName: Option<string>)

  /**
   * What analysing one file yields: skipped by the safety gate or a failed
   * probe, or the probe's stream list (only its first entry is read).
   */
  datatype Probe = Skipped | Streams(streams: seq<Stream>)

  /** `codec.isalnum() or codec in [...]`; every whitelisted name is itself alphanumeric. */
  predicate AcceptedCodec(c: string) {
    (c != [] && forall i :: 0 <= i < |c| ==> IsAsciiAlnum(c[i]))
    || c in ["aac", "mp3", "flac", "wav", "ogg", "wma", "opus", "vorbis"]
  }

  /** The kbps value a file contributes, if any: `int(bit_rate) // 1000` when strictly between 0 and 10000. */
  function RateOf(p: Probe): (r: Option<int>)
    ensures r.Some? ==> 0 < r.value < 10000
  {
    if p.Skipped? || |p.streams| == 0 then None
    else match p.streams[0].bitRate
      case BitsPerSecond(bps) => if 0 < bps / 1000 < 10000 then Some(bps / 1000) else None
      case _ => None
  }

  /** The codec name a file contributes, if any; a malformed bitrate skips the codec too. */
  function CodecOf(p: Probe): (r: Option<string>)
    ensures r.Some? ==> AcceptedCodec(r.value) && |r.value| <= MaxCodecNameLength
  {
    if p.Skipped? || |p.streams| == 0 || p.streams[0].bitRate.Malformed? then None
    else match p.streams[0].codecName
      case None => None
      case Some(name) =>
        var c := Take(name, MaxCodecNameLength);
        if AcceptedCodec(c) then Some(c) else None
  }

  /** The value a file contributes, as a list of zero or one elements. */
  function Counted<T>(o: Option<T>): seq<T> {
    if o.Some? then [o.value] else []
  }

  /** The counted bitrates, in file order. */
  function Rates(ps: seq<Probe>): (r: seq<int>)
    ensures forall i :: 0 <= i < |r| ==> 0 < r[i] < 10000
  {
    if ps == [] then []
    else Rates(ps[..|ps| - 1]) + Counted(RateOf(ps[|ps| - 1]))
  }

  /** The counted codec names, in file order. */
  function Codecs(ps: seq<Probe>): seq<string> {
    if ps == [] then []
    else Codecs(ps[..|ps| - 1]) + Counted(CodecOf(ps[|ps| - 1]))
  }

  function Sum(s: seq<int>): int {
    if s == [] then 0 else Sum(s[..|s| - 1]) + s[|s| - 1]
  }

  /** The distinct names of `cs` in order of first appearance: the dict's key order. */
  function FirstSeen(cs: seq<string>): (r: seq<string>)
    ensures forall c :: c in r <==> c in cs
    ensures forall i, j :: 0 <= i < j < |r| ==> r[i] != r[j]
  {
    if cs == [] then []
    else
      var r := FirstSeen(cs[..|cs| - 1]);
      assert forall c :: c in cs <==> c in cs[..|cs| - 1] || c == cs[|cs| - 1];
      if cs[|cs| - 1] in r then r else r + [cs[|cs| - 1]]
  }

  /** `codec_count`: `counts[c] = counts.get(c, 0) + 1` for each counted name. */
  function CountMap(cs: seq<string>): (m: map<string, nat>)
    ensures forall c :: c in m <==> c in cs
  {
    if cs == [] then map[]
    else
      var m := CountMap(cs[..|cs| - 1]);
      var c := cs[|cs| - 1];
      assert forall x :: x in cs <==> x in cs[..|cs| - 1] || x == c;
      m[c := (if c in m then m[c] else 0) + 1]
  }

  lemma {:induction false} CountMapCounts(cs: seq<string>)
    ensures forall c :: c in CountMap(cs) ==> CountMap(cs)[c] == multiset(cs)[c]
  {
    if cs != [] {
      CountMapCounts(cs[..|cs| - 1]);
      assert cs == cs[..|cs| - 1] + [cs[|cs| - 1]];
    }
  }

  /** `max(codec_count.items(), key=count)[0]`: the first key with the highest count. */
  function MaxByCount(keys: seq<string>, counts: map<string, nat>): (r: string)
    requires keys != [] && forall k :: k in keys ==> k in counts
    ensures r in keys
    ensures forall k :: k in keys ==> counts[k] <= counts[r]
    ensures exists i :: 0 <= i < |keys| && keys[i] == r && forall j :: 0 <= j < i ==> counts[keys[j]] < counts[r]
  {
    if |keys| == 1 then keys[0]
    else
      var b := MaxByCount(keys[1..], counts);
      if counts[keys[0]] >= counts[b] then keys[0]
      else
        ghost var i :| 0 <= i < |keys[1..]| && keys[1..][i] == b
                       && forall j :: 0 <= j < i ==> counts[keys[1..][j]] < counts[b];
        assert keys[i + 1] == b;
        b
  }

  /** The most common counted codec, ties going to the one counted first; `mp3` when none was counted. */
  function MostCommon(cs: seq<string>): string {
    if cs == [] then DefaultCodec else MaxByCount(FirstSeen(cs), CountMap(cs))
  }

  /** What `get_source_bitrate_and_codec` returns for these probe results. */
  function SourceBitrateAndCodec(ps: seq<Probe>): (int, string) {
    var rates := Rates(ps);
    if |rates| == 0 then (DefaultBitrate, DefaultCodec)
    else (Sum(rates) / |rates|, MostCommon(Codecs(ps)))
  }

  lemma SumSnoc(s: seq<int>, x: int)
    ensures Sum(s + [x]) == Sum(s) + x
  {
    assert (s + [x])[..|s|] == s;
  }

  /** Counting one more codec name updates the key order and the counts as the dict does. */
  lemma CodecSnoc(cs: seq<string>, c: string)
    ensures FirstSeen(cs + [c]) == if c in CountMap(cs) then FirstSeen(cs) else FirstSeen(cs) + [c]
    ensures CountMap(cs + [c]) == CountMap(cs)[c := (if c in CountMap(cs) then CountMap(cs)[c] else 0) + 1]
  {
    FirstSeenSnoc(cs, c);
    CountMapSnoc(cs, c);
  }

  lemma FirstSeenSnoc(cs: seq<string>, c: string)
    ensures FirstSeen(cs + [c]) == if c in cs then FirstSeen(cs) else FirstSeen(cs) + [c]
  {
    var t := cs + [c];
    assert t[..|t| - 1] == cs;
  }

  lemma CountMapSnoc(cs: seq<string>, c: string)
    ensures CountMap(cs + [c]) == CountMap(cs)[c := (if c in CountMap(cs) then CountMap(cs)[c] else 0) + 1]
  {
    var t := cs + [c];
    assert t[..|t| - 1] == cs;
  }

  lemma ProbeSnoc(ps: seq<Probe>, i: int)
    requires 0 <= i < |ps|
    ensures Rates(ps[..i + 1]) == Rates(ps[..i]) + Counted(RateOf(ps[i]))
    ensures Codecs(ps[..i + 1]) == Codecs(ps[..i]) + Counted(CodecOf(ps[i]))
  {
    assert ps[..i + 1][..i] == ps[..i];
  }

  /** `codec_count[codec] = codec_count.get(codec, 0) + 1` when a codec name was counted. */
  function Bump(counts: map<string, nat>, o: Option<string>): map<string, nat> {
    if o.None? then counts else counts[o.value := (if o.value in counts then counts[o.value] else 0) + 1]
  }

  /** The dict's key order after `Bump`: a new name goes last. */
  function AddKey(keys: seq<string>, counts: map<string, nat>, o: Option<string>): seq<string> {
    if o.None? || o.value in counts then keys else keys + [o.value]
  }

  /**
   * The body of the analysis loop for one file: what it adds to the running
   * total, the counted-file number, the dict's key order and its counts.
   */
  method CountFile(p: Probe, total: int, valid: int, keys: seq<string>, counts: map<string, nat>)
    returns (total': int, valid': int, keys': seq<string>, counts': map<string, nat>)
    ensures total' == total + Sum(Counted(RateOf(p))) && valid' == valid + |Counted(RateOf(p))|
    ensures keys' == AddKey(keys, counts, CodecOf(p)) && counts' == Bump(counts, CodecOf(p))
  {
    total', valid', keys', counts' := total, valid, keys, counts;
    if p.Skipped? || |p.streams| == 0 {
      return;
    }
    var stream := p.streams[0];
    match stream.bitRate {
      case NoBitRate =>
      case Malformed =>
        return;
      case BitsPerSecond(bps) =>
        var kbps := bps / 1000;
        if 0 < kbps < 10000 {
          assert Sum([kbps]) == kbps;
          total' := total + kbps;
          valid' := valid + 1;
        }
    }
    if stream.codecName.Some? {
      var c := Take(stream.codecName.value, MaxCodecNameLength);
      if AcceptedCodec(c) {
        if c !in counts {
          keys' := keys + [c];
        }
        counts' := counts[c := (if c in counts then counts[c] else 0) + 1];
      }
    }
  }

  /** The running total and count after one more file. */
  lemma RateStep(rates: seq<int>, o: Option<int>)
    ensures Sum(rates + Counted(o)) == Sum(rates) + Sum(Counted(o))
    ensures |rates + Counted(o)| == |rates| + |Counted(o)|
  {
    if o.Some? {
      assert rates + Counted(o) == rates + [o.value];
      SumSnoc(rates, o.value);
      assert Sum([o.value]) == o.value;
    } else {
      assert rates + Counted(o) == rates;
    }
  }

  /** The codec dict after one more file. */
  lemma CodecStep(codecs: seq<string>, o: Option<string>)
    ensures FirstSeen(codecs + Counted(o)) == AddKey(FirstSeen(codecs), CountMap(codecs), o)
    ensures CountMap(codecs + Counted(o)) == Bump(CountMap(codecs), o)
  {
    if o.Some? {
      assert Counted(o) == [o.value];
      FirstSeenStep(codecs, o.value);
      CountMapStep(codecs, o.value);
    } else {
      assert codecs + Counted(o) == codecs;
    }
  }

  lemma CountMapStep(cs: seq<string>, c: string)
    ensures CountMap(cs + [c]) == Bump(CountMap(cs), Some(c))
  {
    CountMapSnoc(cs, c);
  }

  lemma FirstSeenStep(cs: seq<string>, c: string)
    ensures FirstSeen(cs + [c]) == AddKey(FirstSeen(cs), CountMap(cs), Some(c))
  {
    FirstSeenSnoc(cs, c);
    assert c in cs <==> c in CountMap(cs);
  }

  /** The analysis loop at main.py lines 449-502 with each probe's outcome as input. */
  method CountFiles(ps: seq<Probe>) returns (totalBitrate: int, validFiles: int, codecKeys: seq<string>, codecCount: map<string, nat>)
    ensures totalBitrate == Sum(Rates(ps)) && validFiles == |Rates(ps)|
    ensures codecKeys == FirstSeen(Codecs(ps)) && codecCount == CountMap(Codecs(ps))
  {
    totalBitrate, validFiles, codecKeys, codecCount := 0, 0, [], map[];
    for i := 0 to |ps|
      invariant totalBitrate == Sum(Rates(ps[..i])) && validFiles == |Rates(ps[..i])|
      invariant codecKeys == FirstSeen(Codecs(ps[..i])) && codecCount == CountMap(Codecs(ps[..i]))
    {
      ProbeSnoc(ps, i);
      RateStep(Rates(ps[..i]), RateOf(ps[i]));
      CodecStep(Codecs(ps[..i]), CodecOf(ps[i]));
      totalBitrate, validFiles, codecKeys, codecCount := CountFile(ps[i], totalBitrate, validFiles, codecKeys, codecCount);
    }
    assert ps[..|ps|] == ps;
  }

  /** `get_source_bitrate_and_codec` after the probes: the mean of the counted bitrates and the most common codec. */
  method GetSourceBitrateAndCodec(ps: seq<Probe>) returns (bitrate: int, codec: string)
    ensures (bitrate, codec) == SourceBitrateAndCodec(ps)
  {
    var totalBitrate, validFiles, codecKeys, codecCount := CountFiles(ps);
    if validFiles == 0 {
      return DefaultBitrate, DefaultCodec;
    }
    bitrate := totalBitrate / validFiles;
    codec := if |codecKeys| > 0 then MaxByCount(codecKeys, codecCount) else DefaultCodec;
  }

  lemma {:induction false} SumBounds(s: seq<int>)
    requires forall i :: 0 <= i < |s| ==> 0 < s[i] < 10000
    ensures |s| <= Sum(s) <= 9999 * |s|
  {
    if s != [] {
      SumBounds(s[..|s| - 1]);
    }
  }

  /**
   * With at least one counted bitrate the result is the floor of their mean,
   * hence itself strictly between 0 and 10000; otherwise it is 128 kbps mp3.
   */
  lemma AverageInRange(ps: seq<Probe>)
    ensures |Rates(ps)| == 0 ==> SourceBitrateAndCodec(ps) == (128, "mp3")
    ensures |Rates(ps)| > 0 ==> 0 < SourceBitrateAndCodec(ps).0 < 10000
  {
    var rates := Rates(ps);
    if |rates| > 0 {
      SumBounds(rates);
      MeanBounds(Sum(rates), |rates|);
    }
  }

  lemma MeanBounds(total: int, n: int)
    requires 0 < n <= total <= 9999 * n
    ensures 0 < total / n < 10000
  {
    var q, r := total / n, total % n;
    assert q * n == total - r && 0 <= r < n;
    MulCancelLess(0, q, n);
    MulCancelLess(q, 10000, n);
  }

  /** Dividing both sides of `a * n < b * n` by a positive `n`. */
  lemma MulCancelLess(a: int, b: int, n: int)
    requires n > 0 && a * n < b * n
    ensures a < b
  {
    if a >= b {
      MulMonotone(b, a, n);
    }
  }

  lemma MulMonotone(a: int, b: int, n: int)
    requires n > 0 && a <= b
    ensures a * n <= b * n
  {
    assert b * n - a * n == (b - a) * n;
  }

  /** A counted name's count in the dict is its multiplicity. */
  lemma CountIsMultiplicity(cs: seq<string>, c: string)
    requires c in cs
    ensures c in CountMap(cs) && CountMap(cs)[c] == multiset(cs)[c]
  {
    CountMapCounts(cs);
  }

  /**
   * The codec chosen is a counted one that occurs at least as often as any
   * other counted codec, and no codec counted earlier occurs as often.
   */
  lemma MostCommonIsMode(cs: seq<string>)
    requires cs != []
    ensures MostCommon(cs) in cs
    ensures forall c :: c in cs ==> multiset(cs)[c] <= multiset(cs)[MostCommon(cs)]
    ensures exists i :: 0 <= i < |cs| && cs[i] == MostCommon(cs)
                        && forall j :: 0 <= j < i ==> multiset(cs)[cs[j]] < multiset(cs)[MostCommon(cs)]
  {
    MostCommonIsMax(cs);
    MostCommonIsFirst(cs);
  }

  lemma MostCommonIsMax(cs: seq<string>)
    requires cs != []
    ensures MostCommon(cs) in cs
    ensures forall c :: c in cs ==> multiset(cs)[c] <= multiset(cs)[MostCommon(cs)]
  {
    var keys := FirstSeen(cs);
    var counts := CountMap(cs);
    var m := MaxByCount(keys, counts);
    assert m == MostCommon(cs);
    assert m in cs by {
      assert m in keys;
    }
    forall c | c in cs
      ensures multiset(cs)[c] <= multiset(cs)[m]
    {
      CountIsMultiplicity(cs, c);
      CountIsMultiplicity(cs, m);
      assert c in keys;
    }
  }

  lemma MostCommonIsFirst(cs: seq<string>)
    requires cs != []
    ensures exists i :: 0 <= i < |cs| && cs[i] == MostCommon(cs)
                        && forall j :: 0 <= j < i ==> multiset(cs)[cs[j]] < multiset(cs)[MostCommon(cs)]
  {
    var keys := FirstSeen(cs);
    var counts := CountMap(cs);
    var m := MaxByCount(keys, counts);
    assert m == MostCommon(cs);
    var k :| 0 <= k < |keys| && keys[k] == m && forall j :: 0 <= j < k ==> counts[keys[j]] < counts[m];
    var i := FirstIndexOf(cs, k);
    forall j | 0 <= j < i
      ensures multiset(cs)[cs[j]] < multiset(cs)[m]
    {
      var l :| 0 <= l < k && keys[l] == cs[j];
      assert counts[keys[l]] < counts[m];
      CountIsMultiplicity(cs, cs[j]);
      CountIsMultiplicity(cs, m);
    }
  }

  /** Where the `k`-th first-seen name first appears in `cs`. */
  lemma FirstIndexOf(cs: seq<string>, k: int) returns (i: int)
    requires 0 <= k < |FirstSeen(cs)|
    ensures 0 <= i < |cs| && cs[i] == FirstSeen(cs)[k]
    ensures forall j :: 0 <= j < i ==> cs[j] in FirstSeen(cs)[..k]
  {
    FirstSeenOrder(cs, k);
    i :| 0 <= i < |cs| && cs[i] == FirstSeen(cs)[k] && forall j :: 0 <= j < i ==> cs[j] in FirstSeen(cs)[..k];
  }

  /** The first appearance of the `k`-th first-seen name comes after only earlier first-seen names. */
  lemma {:induction false} FirstSeenOrder(cs: seq<string>, k: int)
    requires 0 <= k < |FirstSeen(cs)|
    ensures exists i :: 0 <= i < |cs| && cs[i] == FirstSeen(cs)[k]
                        && forall j :: 0 <= j < i ==> cs[j] in FirstSeen(cs)[..k]
  {
    assert cs != [];
    var init := cs[..|cs| - 1];
    var last := cs[|cs| - 1];
    var r := FirstSeen(init);
    var fs := FirstSeen(cs);
    assert fs == if last in r then r else r + [last];
    if k < |r| {
      FirstSeenOrder(init, k);
      var i :| 0 <= i < |init| && init[i] == r[k] && forall j :: 0 <= j < i ==> init[j] in r[..k];
      assert fs[..k] == r[..k] && fs[k] == r[k];
      assert forall j :: 0 <= j < i ==> cs[j] == init[j];
      assert cs[i] == fs[k] && forall j :: 0 <= j < i ==> cs[j] in fs[..k];
    } else {
      assert fs == r + [last] && k == |r|;
      assert fs[..k] == r && fs[k] == last;
      forall j | 0 <= j < |cs| - 1
        ensures cs[j] in fs[..k]
      {
        assert cs[j] == init[j];
        assert init[j] in init;
      }
      assert cs[|cs| - 1] == fs[k];
    }
  }

  // ---------------------------------------------------------------------------
  // calculate_optimal_aac_bitrate
  // ---------------------------------------------------------------------------

  /** The efficiency table in tenths, keyed by the lower-cased codec; unknown codecs count as mp3. */
  function EfficiencyTenths(lowerCodec: string): (e: int)
    ensures 8 <= e <= 13
  {
    if lowerCodec == "aac" || lowerCodec == "m4a" || lowerCodec == "flac" || lowerCodec == "wav" then 10
    else if lowerCodec == "vorbis" || lowerCodec == "ogg" then 11
    else if lowerCodec == "opus" then 13
    else if lowerCodec == "wma" then 9
    else 8
  }

  /** Python's `int(n / 10)`: truncation toward zero. */
  function TruncTen(n: int): int {
    if n >= 0 then n / 10 else -((-n) / 10)
  }

  /** `int(source_bitrate * efficiency)`. */
  function EquivalentBitrate(source: int, codec: string): int {
    TruncTen(source * EfficiencyTenths(Lower(codec)))
  }

  /** The quality ladder: the smallest bracket at or above the equivalent bitrate, capped at 128. */
  function CalculateOptimalAacBitrate(source: int, codec: string): (r: int)
    ensures r in Brackets
    ensures var e := EquivalentBitrate(source, codec);
            (e <= 128 ==> e <= r && forall b :: b in Brackets && e <= b ==> r <= b)
            && (e > 128 ==> r == 128)
  {
    var e := EquivalentBitrate(source, codec);
    if e <= 32 then 32
    else if e <= 48 then 48
    else if e <= 64 then 64
    else if e <= 96 then 96
    else 128
  }

  /** Quick mode skips the analysis and encodes at 16 kbps. */
  function TargetBitrate(quick: bool, ps: seq<Probe>): (r: int)
    ensures quick ==> r == QuickBitrate
    ensures !quick ==> r in Brackets
  {
    if quick then QuickBitrate
    else
      var (source, codec) := SourceBitrateAndCodec(ps);
      CalculateOptimalAacBitrate(source, codec)
  }

  lemma TruncTenMonotone(m: int, n: int)
    requires m <= n
    ensures TruncTen(m) <= TruncTen(n)
  {
  }

  /** A higher source bitrate never yields a lower target, for a fixed codec. */
  lemma OptimalMonotone(s1: int, s2: int, codec: string)
    requires s1 <= s2
    ensures CalculateOptimalAacBitrate(s1, codec) <= CalculateOptimalAacBitrate(s2, codec)
  {
    var k := EfficiencyTenths(Lower(codec));
    assert s1 * k <= s2 * k by {
      assert (s2 - s1) * k >= 0;
    }
    TruncTenMonotone(s1 * k, s2 * k);
  }

  /** The codec lookup ignores case. */
  lemma OptimalIgnoresCase(source: int, codec: string)
    ensures CalculateOptimalAacBitrate(source, codec) == CalculateOptimalAacBitrate(source, Lower(codec))
  {
    assert Lower(Lower(codec)) == Lower(codec);
  }

  /** 40 kbps AAC maps to 48, 100 kbps AAC snaps up to 128, and 100 kbps mp3 (80 equivalent) to 96. */
  lemma OptimalExamples()
    ensures CalculateOptimalAacBitrate(40, "aac") == 48
    ensures CalculateOptimalAacBitrate(100, "aac") == 128
    ensures CalculateOptimalAacBitrate(100, "mp3") == 96
    ensures CalculateOptimalAacBitrate(100, "OPUS") == 128
  {
    assert Lower("aac") == "aac";
    assert Lower("mp3") == "mp3";
    assert Lower("OPUS") == "opus";
  }
}
