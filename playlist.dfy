/**
 * Chunk names and the HLS playlists (RFC 8216, section 4.3) the server writes:
 * the master playlist listing one variant stream per rate, and the per-rate
 * media playlist listing every chunk of the file.
 */
module Playlist {
  import opened Util
  import opened Uri

  /** Seconds per chunk, and chunks encoded ahead of the last request. */
  const ChunkSeconds: nat := 5
  const EncodeAhead: nat := 5

  // ---------------------------------------------------------------------------
  // Chunk names

  /** The file name of chunk `n` at `rate`: rate, '-', the decimal index, ".ts". */
  function ChunkName(rate: string, n: nat): (name: string)
    ensures |name| == |rate| + |Decimal(n)| + 4
    ensures name[..|rate|] == rate && name[|rate|] == '-' && name[|name| - 3..] == ".ts"
    ensures name[|rate| + 1..|name| - 3] == Decimal(n)
  {
    rate + "-" + Decimal(n) + ".ts"
  }

  datatype ChunkId = ChunkId(rate: string, index: nat)

  /** The last position of `c` in `s`, if any. */
  function LastIndexOf(s: string, c: char): (r: Option<nat>)
    ensures r.Some? ==> r.value < |s| && s[r.value] == c && c !in s[r.value + 1..]
    ensures r.None? ==> c !in s
  {
    if s == [] then None
    else if s[|s| - 1] == c then Some(|s| - 1)
    else
      var r := LastIndexOf(s[..|s| - 1], c);
      assert s == s[..|s| - 1] + [s[|s| - 1]];
      r
  }

  /** How the chunk route reads a requested name that ends in ".ts": the greedy
      `(.*)` before `-(\d+)\.ts$` takes everything up to the last '-', which
      must be followed by one or more digits. */
  function ParseChunkName(name: string): (r: Option<ChunkId>)
    ensures r.Some? ==>
      var k := |r.value.rate|;
      && k + 4 < |name|
      && name[..k] == r.value.rate && name[k] == '-' && name[|name| - 3..] == ".ts"
      && AllDigits(name[k + 1..|name| - 3]) && DigitsValue(name[k + 1..|name| - 3]) == r.value.index
      && '-' !in name[k + 1..|name| - 3]
  {
    if |name| < 3 || name[|name| - 3..] != ".ts" then None
    else
      var body := name[..|name| - 3];
      match LastIndexOf(body, '-')
      case None => None
      case Some(k) =>
        var digits := body[k + 1..];
        if |digits| > 0 && AllDigits(digits) then Some(ChunkId(body[..k], DigitsValue(digits)))
        else None
  }

  /** The route reads every name of the form rate, '-', digits, ".ts", with
      the digits' value as the index: "high-007.ts" is chunk 7 at "high". */
  lemma ParseChunkNameComplete(rate: string, digits: string)
    requires |digits| > 0 && AllDigits(digits)
    ensures ParseChunkName(rate + "-" + digits + ".ts") == Some(ChunkId(rate, DigitsValue(digits)))
  {
    var body := rate + "-" + digits;
    var name := body + ".ts";
    assert name[..|name| - 3] == body && name[|name| - 3..] == ".ts";
    assert forall i :: 0 <= i < |digits| ==> digits[i] != '-';
    LastIndexOfAppend(rate, '-', digits);
    assert body[|rate| + 1..] == digits && body[..|rate|] == rate;
  }

  /** The route recovers the rate and the index from every chunk name. */
  lemma ChunkNameRoundTrip(rate: string, n: nat)
    ensures ParseChunkName(ChunkName(rate, n)) == Some(ChunkId(rate, n))
  {
    ParseChunkNameComplete(rate, Decimal(n));
    DecimalRoundTrip(n);
  }

  lemma LeadingZerosRead()
    ensures ParseChunkName("high-007.ts") == Some(ChunkId("high", 7))
  {
    ParseChunkNameComplete("high", "007");
    assert "007"[..2] == "00" && "00"[..1] == "0" && "0"[..0] == [];
    assert DigitsValue("007") == 7;
    assert "high" + "-" + "007" + ".ts" == "high-007.ts";
  }

  lemma {:induction false} LastIndexOfAppend(x: string, c: char, y: string)
    requires c !in y
    ensures LastIndexOf(x + [c] + y, c) == Some(|x|)
    decreases |y|
  {
    var s := x + [c] + y;
    if y != [] {
      assert s[|s| - 1] == y[|y| - 1];
      assert s[..|s| - 1] == x + [c] + y[..|y| - 1];
      LastIndexOfAppend(x, c, y[..|y| - 1]);
    }
  }

  /** Two chunks have the same file name only if they are the same chunk. */
  lemma ChunkNameInjective(r1: string, n1: nat, r2: string, n2: nat)
    requires ChunkName(r1, n1) == ChunkName(r2, n2)
    ensures r1 == r2 && n1 == n2
  {
    ChunkNameRoundTrip(r1, n1);
    ChunkNameRoundTrip(r2, n2);
  }

  // ---------------------------------------------------------------------------
  // The rate ladder and the master playlist

  datatype Rate = Rate(name: string, bandwidth: nat)

  /** The configured rates, in declaration order. */
  const Rates: seq<Rate> := [
    Rate("veryhigh", 2048000),
    Rate("high", 1440000),
    Rate("midhigh", 720000),
    Rate("mid", 360000),
    Rate("midlow", 144000),
    Rate("low", 96000),
    Rate("verylow", 64000)
  ]

  ghost predicate NonIncreasing(rs: seq<Rate>)
  {
    forall i, j :: 0 <= i < j < |rs| ==> rs[i].bandwidth >= rs[j].bandwidth
  }

  ghost predicate DistinctNames(rs: seq<Rate>)
  {
    forall i, j :: 0 <= i < j < |rs| ==> rs[i].name != rs[j].name
  }

  /** Inserts `r` in front of the first rate whose bandwidth is not above its
      own, keeping equal bandwidths in their original order. */
  function Insert(r: Rate, sorted: seq<Rate>): (s: seq<Rate>)
    requires NonIncreasing(sorted)
    ensures NonIncreasing(s)
    ensures multiset(s) == multiset(sorted) + multiset{r}
  {
    if sorted == [] || sorted[0].bandwidth <= r.bandwidth then
      ConsNonIncreasing(r, sorted);
      [r] + sorted
    else
      var rest := Insert(r, sorted[1..]);
      assert sorted == [sorted[0]] + sorted[1..];
      InsertedBelowHead(r, sorted, rest);
      ConsNonIncreasing(sorted[0], rest);
      [sorted[0]] + rest
  }

  lemma ConsNonIncreasing(h: Rate, rest: seq<Rate>)
    requires NonIncreasing(rest)
    requires rest != [] ==> rest[0].bandwidth <= h.bandwidth
    ensures NonIncreasing([h] + rest)
  {
    var s := [h] + rest;
    forall i, j | 0 <= i < j < |s| ensures s[i].bandwidth >= s[j].bandwidth {
      if i == 0 && j > 1 {
        assert s[j] == rest[j - 1] && rest[0].bandwidth >= rest[j - 1].bandwidth;
      }
    }
  }

  /** Whatever is inserted below the head of a sorted list has a bandwidth
      not above the head's. */
  lemma InsertedBelowHead(r: Rate, sorted: seq<Rate>, rest: seq<Rate>)
    requires NonIncreasing(sorted) && sorted != [] && r.bandwidth < sorted[0].bandwidth
    requires multiset(rest) == multiset(sorted[1..]) + multiset{r}
    ensures rest != [] ==> rest[0].bandwidth <= sorted[0].bandwidth
  {
    if rest != [] && rest[0] != r {
      assert rest[0] in multiset(rest);
      assert rest[0] in sorted[1..];
      var k :| 0 <= k < |sorted[1..]| && sorted[1..][k] == rest[0];
      assert sorted[k + 1] == rest[0];
    }
  }

  /** `Object.keys(rates).sort((a, b) => rates[b] - rates[a])`: descending
      bandwidth, as a stable sort. */
  function SortByBandwidth(rs: seq<Rate>): (s: seq<Rate>)
    ensures NonIncreasing(s)
    ensures multiset(s) == multiset(rs)
  {
    if rs == [] then []
    else
      assert rs == [rs[0]] + rs[1..];
      Insert(rs[0], SortByBandwidth(rs[1..]))
  }

  /** Sorting a ladder that is already in descending order changes nothing. */
  lemma {:induction false} SortSortedIsIdentity(rs: seq<Rate>)
    requires NonIncreasing(rs)
    ensures SortByBandwidth(rs) == rs
  {
    if rs != [] {
      SortSortedIsIdentity(rs[1..]);
      assert rs == [rs[0]] + rs[1..];
    }
  }

  /** One `#EXT-X-STREAM-INF` record and the URI of that rate's playlist. */
  function VariantEntry(cookie: string, r: Rate): string
  {
    "#EXT-X-STREAM-INF:PROGRAM-ID=1,BANDWIDTH=" + Decimal(r.bandwidth) + "\n"
      + "/session/" + EncodeUriComponent(cookie) + "/" + r.name + ".m3u8\n"
  }

  function VariantEntries(cookie: string, rs: seq<Rate>): string
  {
    if rs == [] then "" else VariantEntry(cookie, rs[0]) + VariantEntries(cookie, rs[1..])
  }

  /** `master_m3u8`: the header, then the variants sorted by bandwidth, which
      is the order the rates are declared in. */
  function MasterPlaylist(cookie: string): (text: string)
    ensures text == "#EXTM3U\n" + VariantEntries(cookie, Rates)
  {
    RatesDescending();
    SortSortedIsIdentity(Rates);
    "#EXTM3U\n" + VariantEntries(cookie, SortByBandwidth(Rates))
  }

  lemma RatesDescending()
    ensures NonIncreasing(Rates)
  {
  }

  lemma RatesDistinct()
    ensures DistinctNames(Rates)
  {
  }

  /** The master playlist is the header followed by one variant per configured
      rate, in non-increasing bandwidth order, each rate exactly once. */
  lemma MasterPlaylistListsEveryRate(cookie: string)
    ensures var variants := SortByBandwidth(Rates);
      && MasterPlaylist(cookie) == "#EXTM3U\n" + VariantEntries(cookie, variants)
      && NonIncreasing(variants)
      && multiset(variants) == multiset(Rates)
      && DistinctNames(variants)
      && variants == Rates
  {
    RatesDescending();
    RatesDistinct();
    SortSortedIsIdentity(Rates);
  }

  // ---------------------------------------------------------------------------
  // The media playlist

  /** `Math.ceil` on a real. */
  function Ceil(x: real): (n: int)
    ensures n as real - 1.0 < x <= n as real
  {
    if x.Floor as real == x then x.Floor else x.Floor + 1
  }

  /** `Math.ceil(duration / chunk_seconds)`. */
  function ChunkCount(duration: real): int
  {
    Ceil(duration / ChunkSeconds as real)
  }

  /** The chunk count is the least number of chunks whose total length covers
      the duration; a non-positive duration has no chunk. */
  lemma ChunkCountCovers(duration: real)
    ensures duration <= 0.0 ==> ChunkCount(duration) <= 0
    ensures duration > 0.0 ==> ChunkCount(duration) >= 1
    ensures (ChunkCount(duration) * ChunkSeconds) as real >= duration
    ensures ((ChunkCount(duration) - 1) * ChunkSeconds) as real < duration
  {
    var n := ChunkCount(duration);
    var q := duration / ChunkSeconds as real;
    assert n as real - 1.0 < q <= n as real;
    assert duration == q * 5.0;
  }

  /** One `#EXTINF` record and the URI of the chunk. */
  function ChunkEntry(cookie: string, rate: string, i: nat): string
  {
    "#EXTINF:" + Decimal(ChunkSeconds) + ",\n"
      + "/session/" + EncodeUriComponent(cookie) + "/" + ChunkName(rate, i) + "\n"
  }

  /** The entries of chunks 0 .. n-1: the i-th names chunk i. */
  function ChunkEntries(cookie: string, rate: string, n: nat): seq<string>
  {
    if n == 0 then [] else ChunkEntries(cookie, rate, n - 1) + [ChunkEntry(cookie, rate, n - 1)]
  }

  /** There are `n` entries and the i-th names chunk i: the playlist lists the
      chunks in order, each once. */
  lemma {:induction false} ChunkEntriesInOrder(cookie: string, rate: string, n: nat)
    ensures |ChunkEntries(cookie, rate, n)| == n
    ensures forall i :: 0 <= i < n ==> ChunkEntries(cookie, rate, n)[i] == ChunkEntry(cookie, rate, i)
  {
    if n > 0 {
      ChunkEntriesInOrder(cookie, rate, n - 1);
    }
  }

  function MediaPlaylistHeader(): string
  {
    "#EXTM3U\n" + "#EXT-X-TARGETDURATION:" + Decimal(ChunkSeconds) + "\n"
  }

  /** The media playlist for `count` chunks (none when `count` <= 0): the
      header, the entries in chunk order, the end tag. */
  function MediaPlaylistText(cookie: string, rate: string, count: int): string
  {
    MediaPlaylistHeader() + Concat(ChunkEntries(cookie, rate, if count < 0 then 0 else count)) + "#EXT-X-ENDLIST\n"
  }

  /** Appending the entry of chunk `i` extends the text of chunks 0 .. i-1 to
      the text of chunks 0 .. i. */
  lemma EntriesStep(cookie: string, rate: string, i: nat)
    ensures Concat(ChunkEntries(cookie, rate, i + 1)) == Concat(ChunkEntries(cookie, rate, i)) + ChunkEntry(cookie, rate, i)
  {
    var entry := ChunkEntry(cookie, rate, i);
    assert ChunkEntries(cookie, rate, i + 1) == ChunkEntries(cookie, rate, i) + [entry];
    ConcatAppend(ChunkEntries(cookie, rate, i), [entry]);
    ConcatSingle(entry);
  }

  /** Builds the playlist by appending one entry per chunk, as the source's
      `for` loop does. */
  method MediaPlaylist(cookie: string, rate: string, duration: real) returns (m3u8: string)
    ensures m3u8 == MediaPlaylistText(cookie, rate, ChunkCount(duration))
  {
    var chunks := ChunkCount(duration);
    ghost var n: nat := if chunks < 0 then 0 else chunks;
    m3u8 := MediaPlaylistHeader();
    var i: nat := 0;
    while i < chunks
      invariant i <= n
      invariant m3u8 == MediaPlaylistHeader() + Concat(ChunkEntries(cookie, rate, i))
    {
      var entry := ChunkEntry(cookie, rate, i);
      EntriesStep(cookie, rate, i);
      AppendAssoc(MediaPlaylistHeader(), Concat(ChunkEntries(cookie, rate, i)), entry);
      m3u8 := m3u8 + entry;
      i := i + 1;
    }
    assert i == n;
    m3u8 := m3u8 + "#EXT-X-ENDLIST\n";
  }

  /** 25 seconds of media, in 5-second chunks, make five entries; 12.5 seconds
      make three. */
  lemma ChunkCountExamples()
    ensures ChunkCount(25.0) == 5
    ensures ChunkCount(12.5) == 3
    ensures ChunkCount(0.0) == 0
  {
  }
}
