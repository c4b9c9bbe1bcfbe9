/**
 * The transcoding sessions: the cookie that names a session, the registry of
 * sessions, and the scheduling of chunk encodes in a session (which chunk to
 * encode, when to reuse the encode in flight, when to encode ahead of the
 * player, and what an encoder exit means).
 *
 * The metadata probe, the file system and the encoder process are not
 * modelled as such: the probed duration is a value given when the session is
 * created, the chunk files present in the session directory are a set, and an
 * encoder run ends with an exit status given as an input.
 */
module Session {
  import opened Util
  import opened Playlist

  // ---------------------------------------------------------------------------
  // Session cookies

  /** `Transcode.cookieify`: every '/' becomes '_'. */
  function Cookieify(s: string): (r: string)
    ensures |r| == |s|
    ensures forall i :: 0 <= i < |s| ==> r[i] == (if s[i] == '/' then '_' else s[i])
  {
    if s == [] then [] else (if s[0] == '/' then "_" else [s[0]]) + Cookieify(s[1..])
  }

  /** A cookie holds no '/', so it names a single directory under the
      transcode directory. */
  lemma CookieifyHasNoSlash(s: string)
    ensures '/' !in Cookieify(s)
  {
    var r := Cookieify(s);
    assert forall i :: 0 <= i < |r| ==> r[i] != '/';
  }

  lemma CookieifyIdempotent(s: string)
    ensures Cookieify(Cookieify(s)) == Cookieify(s)
  {
    var r := Cookieify(s);
    assert forall i :: 0 <= i < |r| ==> Cookieify(r)[i] == r[i];
  }

  /** Two different files of one share can map to the same cookie, and hence
      to the same session. */
  lemma CookieCollision()
    ensures "0/a/b" != "0/a_b"
    ensures Cookieify("0/a/b") == Cookieify("0/a_b") == "0_a_b"
  {
    assert Cookieify("0/a/b") == "0_a_b" by {
      var r := Cookieify("0/a/b");
      assert forall i :: 0 <= i < |r| ==> r[i] == "0_a_b"[i];
    }
    assert Cookieify("0/a_b") == "0_a_b" by {
      var r := Cookieify("0/a_b");
      assert forall i :: 0 <= i < |r| ==> r[i] == "0_a_b"[i];
    }
  }

  // ---------------------------------------------------------------------------
  // Encoder exits

  /** How the encoder process closed: with an exit code, or killed by a signal
      (Node reports a null code then). */
  datatype ExitStatus = Exited(code: nat) | Signalled(signal: string)

  /** What the close handler does with the encode's promise: resolves it with
      the chunk file, rejects it with a message, or (in the corrected handler)
      drops the encode a later kick superseded, without calling it a failure. */
  datatype Outcome = Resolved | Rejected(reason: string) | Superseded

  /** The test in the close handler as written: `code != 0 && code != undefined`,
      where a null code compares equal to undefined. */
  predicate FailsAsWritten(s: ExitStatus)
  {
    s.Exited? && s.code != 0
  }

  /** The corrected test for publishing the chunk file: only a clean exit
      produced a whole chunk. */
  predicate Publishes(s: ExitStatus)
  {
    s == Exited(0)
  }

  /** The handler as written publishes whatever its failure test lets
      through. The corrected handler publishes less exactly on a killed
      encode, and calls a kill no failure either, as the comment on the test
      intends. */
  lemma PublishTests(s: ExitStatus)
    ensures Publishes(s) ==> !FailsAsWritten(s)
    ensures !FailsAsWritten(s) && !Publishes(s) <==> s.Signalled?
    ensures FailsAsWritten(s) <==> s.Exited? && !Publishes(s)
  {
  }

  /** The rejection message of an encode that exited with a non-zero code: a
      fixed prefix, then the code in decimal, from which the code reads back. */
  function FailureReason(code: nat): (reason: string)
    ensures |reason| > 24 && reason[..24] == "ffmpeg exited with code "
    ensures AllDigits(reason[24..]) && DigitsValue(reason[24..]) == code
  {
    DecimalRoundTrip(code);
    "ffmpeg exited with code " + Decimal(code)
  }

  // ---------------------------------------------------------------------------
  // Scheduling decisions

  /** The chunk a session is encoding. */
  datatype Encoding = Encoding(rate: string, chunkNum: nat)

  /** What `kick` does for a requested chunk. */
  datatype KickResult =
    | InFlight(current: Encoding)      // hands out the promise of the encode in flight
    | PastEnd                          // the index is past the last chunk: nothing
    | OnDisk                           // the chunk file exists: served as it is
    | Started(killed: Option<Encoding>) // a new encode, after killing the one in flight

  /** The decision `kick` takes for chunk `n` at `rate`, given the encode in
      flight, the number of chunks and the chunk files on disk. */
  function DecideKick(encoding: Option<Encoding>, rate: string, n: nat, chunks: int,
                      onDisk: set<ChunkId>): (r: KickResult)
    ensures r.InFlight? <==> encoding == Some(Encoding(rate, n))
    ensures r.InFlight? ==> r.current == Encoding(rate, n)
    ensures r.PastEnd? <==> encoding != Some(Encoding(rate, n)) && n >= chunks
    ensures r.Started? ==> n < chunks && ChunkId(rate, n) !in onDisk && r.killed == encoding
    ensures r.OnDisk? ==> n < chunks && ChunkId(rate, n) in onDisk
  {
    if encoding.Some? && encoding.value.rate == rate && encoding.value.chunkNum == n then
      InFlight(encoding.value)
    else if n >= chunks then PastEnd
    else if ChunkId(rate, n) in onDisk then OnDisk
    else Started(encoding)
  }

  /** Kicking the same chunk again once its encode is recorded as in flight
      reuses that encode: it is not started a second time, nor killed by its
      own request. (This model records the encode when the kick decides to
      start it; the source records it only after the metadata probe answers,
      so two kicks in that window both start one.) */
  lemma KickAgainReuses(encoding: Option<Encoding>, rate: string, n: nat, chunks: int,
                        onDisk: set<ChunkId>)
    requires DecideKick(encoding, rate, n, chunks, onDisk).Started?
    ensures DecideKick(Some(Encoding(rate, n)), rate, n, chunks, onDisk) == InFlight(Encoding(rate, n))
  {
  }

  /** The lookahead rule: once chunk `n` is delivered, chunk n+1 is kicked
      when `last_chunk_requested + encode_ahead > n`. An unset last request
      (undefined in the source) never passes the test. */
  predicate Lookahead(last: Option<nat>, n: nat)
  {
    last.Some? && last.value + EncodeAhead > n
  }

  /** The chunks a kick of chunk `n` encodes one after the other, when the
      last request is `last`, no other request arrives and no chunk file is
      already on disk: each delivery kicks the next chunk while the lookahead
      rule allows it, and a kick past the end does nothing. */
  function AheadChain(last: nat, n: nat, chunks: int): seq<nat>
    decreases if n <= last + EncodeAhead then last + EncodeAhead - n else 0
  {
    if n >= chunks then []
    else if Lookahead(Some(last), n) then [n] + AheadChain(last, n + 1, chunks)
    else [n]
  }

  /** Starting anywhere up to `encode_ahead` chunks past the last request,
      the chain encodes every chunk from there to `encode_ahead` chunks past
      the request, in order, and stops there or at the last chunk. */
  lemma {:induction false} AheadChainRange(last: nat, n: nat, chunks: int)
    requires n <= last + EncodeAhead
    ensures var stop := if chunks < last + EncodeAhead + 1 then chunks else last + EncodeAhead + 1;
      && |AheadChain(last, n, chunks)| == (if stop <= n then 0 else stop - n)
      && forall i :: 0 <= i < |AheadChain(last, n, chunks)| ==> AheadChain(last, n, chunks)[i] == n + i
    decreases last + EncodeAhead - n
  {
    if n < chunks && Lookahead(Some(last), n) {
      AheadChainRange(last, n + 1, chunks);
    }
  }

  /** After a request for chunk `l`, the chain encodes exactly chunks
      l .. min(l + encode_ahead, chunks - 1). */
  lemma AheadOfRequest(l: nat, chunks: int)
    requires l < chunks
    ensures var stop := if chunks < l + EncodeAhead + 1 then chunks else l + EncodeAhead + 1;
      && |AheadChain(l, l, chunks)| == stop - l
      && AheadChain(l, l, chunks)[0] == l
      && AheadChain(l, l, chunks)[|AheadChain(l, l, chunks)| - 1] == stop - 1
  {
    AheadChainRange(l, l, chunks);
  }

  // ---------------------------------------------------------------------------
  // A session

  /** A transcoding session: the input file, the probed duration, the encode
      in flight, the last chunk the player asked for, and the chunk files in
      the session's directory. */
  class Transcode {
    const cookie: string
    const inputFile: string
    const duration: real
    var encoding: Option<Encoding>
    var lastChunkRequested: Option<nat>
    var onDisk: set<ChunkId>

    /** The number of chunks of the file. */
    function Chunks(): int
    {
      ChunkCount(duration)
    }

    /** No encode is ever in flight for a chunk past the end of the file. */
    ghost predicate Valid()
      reads this
    {
      encoding.Some? ==> encoding.value.chunkNum < Chunks()
    }

    /** A new session over the session directory, which may already hold
        chunk files `existing` from an earlier run under the same cookie. */
    constructor(cookie: string, inputFile: string, duration: real, existing: set<ChunkId>)
      ensures this.cookie == cookie && this.inputFile == inputFile && this.duration == duration
      ensures encoding == None && lastChunkRequested == None && onDisk == existing
      ensures Valid()
    {
      this.cookie := cookie;
      this.inputFile := inputFile;
      this.duration := duration;
      encoding := None;
      lastChunkRequested := None;
      onDisk := existing;
    }

    /** `kick`: reuses the encode in flight for the same chunk, does nothing
        past the end, serves a chunk file that exists, and otherwise kills
        the encode in flight and starts this one. */
    method Kick(rate: string, n: nat) returns (r: KickResult)
      requires Valid()
      modifies this`encoding
      ensures Valid()
      ensures r == DecideKick(old(encoding), rate, n, Chunks(), onDisk)
      ensures encoding == if r.Started? then Some(Encoding(rate, n)) else old(encoding)
    {
      r := DecideKick(encoding, rate, n, Chunks(), onDisk);
      if r.Started? {
        encoding := Some(Encoding(rate, n));
      }
    }

    /** `chunk`: records the request, then kicks the chunk. */
    method Chunk(rate: string, n: nat) returns (r: KickResult)
      requires Valid()
      modifies this`encoding, this`lastChunkRequested
      ensures Valid()
      ensures lastChunkRequested == Some(n)
      ensures r == DecideKick(old(encoding), rate, n, Chunks(), onDisk)
      ensures encoding == if r.Started? then Some(Encoding(rate, n)) else old(encoding)
    {
      lastChunkRequested := Some(n);
      r := Kick(rate, n);
    }

    /** The continuation of a kick of chunk `n` once its file is ready: the
        encode in flight is cleared when its chunk path is this chunk's, and
        chunk n+1 is kicked when the lookahead rule allows it. */
    method Continue(rate: string, n: nat) returns (ahead: Option<KickResult>)
      requires Valid()
      modifies this`encoding
      ensures Valid()
      ensures var cleared := if old(encoding) == Some(Encoding(rate, n)) then None else old(encoding);
        && ahead == (if Lookahead(lastChunkRequested, n)
                     then Some(DecideKick(cleared, rate, n + 1, Chunks(), onDisk)) else None)
        && encoding == (if ahead.Some? && ahead.value.Started? then Some(Encoding(rate, n + 1)) else cleared)
    {
      if encoding.Some? && ChunkName(rate, n) == ChunkName(encoding.value.rate, encoding.value.chunkNum) {
        ChunkNameInjective(rate, n, encoding.value.rate, encoding.value.chunkNum);
        encoding := None;
      }
      if Lookahead(lastChunkRequested, n) {
        var r := Kick(rate, n + 1);
        ahead := Some(r);
      } else {
        ahead := None;
      }
    }

    /** The close handler of the encode of chunk `n`, as written: the partial
        file is renamed into place and the promise resolved unless the test
        as written calls the exit a failure. */
    method CloseAsWritten(rate: string, n: nat, status: ExitStatus) returns (o: Outcome)
      modifies this`onDisk
      ensures FailsAsWritten(status) ==> o == Rejected(FailureReason(status.code)) && onDisk == old(onDisk)
      ensures !FailsAsWritten(status) ==> o == Resolved && onDisk == old(onDisk) + {ChunkId(rate, n)}
    {
      if status.Exited? && status.code != 0 {
        o := Rejected(FailureReason(status.code));
      } else {
        onDisk := onDisk + {ChunkId(rate, n)};
        o := Resolved;
      }
    }

    /** The corrected close handler: a non-zero exit code still rejects, a
        killed encode is superseded, and only a clean exit publishes the
        chunk and resolves. The partial file of the other two is removed. */
    method Close(rate: string, n: nat, status: ExitStatus) returns (o: Outcome)
      modifies this`onDisk
      ensures FailsAsWritten(status) ==> o == Rejected(FailureReason(status.code)) && onDisk == old(onDisk)
      ensures status.Signalled? ==> o == Superseded && onDisk == old(onDisk)
      ensures Publishes(status) ==> o == Resolved && onDisk == old(onDisk) + {ChunkId(rate, n)}
    {
      if status.Signalled? {
        o := Superseded;
      } else if status.code != 0 {
        o := Rejected(FailureReason(status.code));
      } else {
        onDisk := onDisk + {ChunkId(rate, n)};
        o := Resolved;
      }
    }
  }

  // ---------------------------------------------------------------------------
  // The session registry

  /** A file argument counts only when it is given and not empty. */
  predicate Truthy(file: Option<string>)
  {
    file.Some? && file.value != ""
  }

  class Registry {
    var sessions: map<string, Transcode>

    /** Every session is filed under its own cookie. */
    ghost predicate Valid()
      reads this
    {
      forall c | c in sessions :: sessions[c].cookie == c && '/' !in c
    }

    constructor()
      ensures sessions == map[] && Valid()
    {
      sessions := map[];
    }

    /** `Transcode.session`: the session of the cookieified cookie; a new one
        only when there is none and a file is given, probed at `duration`,
        over a session directory that already holds the chunk files
        `existing`. */
    method Session(rawCookie: string, file: Option<string>, duration: real, existing: set<ChunkId>)
      returns (t: Option<Transcode>)
      requires Valid()
      modifies this
      ensures Valid()
      ensures Cookieify(rawCookie) in old(sessions) ==>
        t == Some(old(sessions)[Cookieify(rawCookie)]) && sessions == old(sessions)
      ensures Cookieify(rawCookie) !in old(sessions) && Truthy(file) ==>
        && t.Some? && fresh(t.value)
        && sessions == old(sessions)[Cookieify(rawCookie) := t.value]
        && t.value.cookie == Cookieify(rawCookie) && t.value.inputFile == file.value
        && t.value.duration == duration
        && t.value.encoding == None && t.value.lastChunkRequested == None && t.value.onDisk == existing
      ensures Cookieify(rawCookie) !in old(sessions) && !Truthy(file) ==>
        t == None && sessions == old(sessions)
    {
      var cookie := Cookieify(rawCookie);
      CookieifyHasNoSlash(rawCookie);
      if cookie !in sessions && file.Some? && file.value != "" {
        var created := new Transcode(cookie, file.value, duration, existing);
        sessions := sessions[cookie := created];
      }
      if cookie in sessions {
        t := Some(sessions[cookie]);
      } else {
        t := None;
      }
    }
  }

  // ---------------------------------------------------------------------------
  // Encoding ahead of the player

  /** The chunk files of a run of consecutive chunk numbers from `l`. */
  lemma RangeChunkIds(rate: string, l: nat, s: seq<nat>)
    requires forall i :: 0 <= i < |s| ==> s[i] == l + i
    ensures (set k | k in s :: ChunkId(rate, k)) == set k | l <= k < l + |s| :: ChunkId(rate, k)
  {
    forall k | l <= k < l + |s|
      ensures ChunkId(rate, k) in set j | j in s :: ChunkId(rate, j)
    {
      assert s[k - l] == k && k in s;
    }
  }

  /** A request for chunk `l` of a session with nothing in flight and no chunk
      of `rate` on disk, after which every encode exits cleanly and no other
      request arrives: each clean close publishes the chunk and its
      continuation kicks the next one while the lookahead rule allows it. The
      chunks encoded are the chain `AheadChain` describes, each is published,
      and nothing is left in flight. */
  method RunAhead(t: Transcode, rate: string, l: nat) returns (started: seq<nat>)
    requires t.Valid() && t.encoding == None && l < t.Chunks()
    requires forall k :: ChunkId(rate, k) !in t.onDisk
    modifies t
    ensures t.Valid() && t.encoding == None && t.lastChunkRequested == Some(l)
    ensures started == AheadChain(l, l, t.Chunks())
    ensures t.onDisk == old(t.onDisk) + set k | k in started :: ChunkId(rate, k)
  {
    ghost var chunks := t.Chunks();
    ghost var stop := if chunks < l + EncodeAhead + 1 then chunks else l + EncodeAhead + 1;
    var first := t.Chunk(rate, l);
    var n := l;
    started := [l];
    var running := true;
    while running
      invariant t.Valid() && t.lastChunkRequested == Some(l) && t.Chunks() == chunks
      invariant l <= n < stop
      invariant |started| == n - l + 1 && forall i :: 0 <= i < |started| ==> started[i] == l + i
      invariant running ==> t.encoding == Some(Encoding(rate, n))
      invariant !running ==> t.encoding == None && n == stop - 1
      invariant forall k :: n < k ==> ChunkId(rate, k) !in t.onDisk
      invariant running ==> t.onDisk == old(t.onDisk) + set k | l <= k < n :: ChunkId(rate, k)
      invariant !running ==> t.onDisk == old(t.onDisk) + set k | l <= k <= n :: ChunkId(rate, k)
      decreases stop - n + (if running then 1 else 0)
    {
      var closed := t.Close(rate, n, Exited(0));
      var ahead := t.Continue(rate, n);
      if ahead.Some? && ahead.value.Started? {
        n := n + 1;
        started := started + [n];
      } else {
        running := false;
      }
    }
    AheadChainRange(l, l, chunks);
    assert started == AheadChain(l, l, chunks);
    RangeChunkIds(rate, l, started);
  }

  // ---------------------------------------------------------------------------
  // A seek while encoding ahead

  /** With the close handler as written: the player plays chunk 50 and the
      encode of chunk 50 is in flight; the player seeks to chunk 200, which
      kills that encode. The killed encode then publishes its partial file as
      chunk 50, and its continuation kicks chunk 51, which kills the encode
      of chunk 200 the seek asked for. That killed encode in turn publishes
      its partial file as chunk 200, and its continuation kicks chunk 201,
      which kills the encode of chunk 51. */
  method SeekWhileEncodingAsWritten()
    returns (killedBySeek: Option<Encoding>, truncatedPublished: bool, killedByLookahead: Option<Encoding>,
             seekTruncatedPublished: bool, killedBySeekLookahead: Option<Encoding>)
    ensures killedBySeek == Some(Encoding("high", 50))
    ensures truncatedPublished
    ensures killedByLookahead == Some(Encoding("high", 200))
    ensures seekTruncatedPublished
    ensures killedBySeekLookahead == Some(Encoding("high", 51))
  {
    var t := new Transcode("0_movie.mkv", "/movies/movie.mkv", 3600.0, {});
    var first := t.Chunk("high", 50);
    var seek := t.Chunk("high", 200);
    killedBySeek := seek.killed;
    var closed := t.CloseAsWritten("high", 50, Signalled("SIGKILL"));
    truncatedPublished := closed == Resolved && ChunkId("high", 50) in t.onDisk;
    var ahead := t.Continue("high", 50);
    killedByLookahead := ahead.value.killed;
    var seekClosed := t.CloseAsWritten("high", 200, Signalled("SIGKILL"));
    seekTruncatedPublished := seekClosed == Resolved && ChunkId("high", 200) in t.onDisk;
    var seekAhead := t.Continue("high", 200);
    killedBySeekLookahead := seekAhead.value.killed;
  }

  /** The same seek with the corrected close handler: the killed encode is
      superseded, not resolved, so no continuation runs; nothing is published
      for chunk 50, and the encode of chunk 200 stays in flight. */
  method SeekWhileEncoding()
    returns (killedBySeek: Option<Encoding>, closed: Outcome, published: bool, inFlight: Option<Encoding>)
    ensures killedBySeek == Some(Encoding("high", 50))
    ensures closed == Superseded
    ensures !published
    ensures inFlight == Some(Encoding("high", 200))
  {
    var t := new Transcode("0_movie.mkv", "/movies/movie.mkv", 3600.0, {});
    var first := t.Chunk("high", 50);
    var seek := t.Chunk("high", 200);
    killedBySeek := seek.killed;
    closed := t.Close("high", 50, Signalled("SIGKILL"));
    published := ChunkId("high", 50) in t.onDisk;
    inFlight := t.encoding;
  }
}
