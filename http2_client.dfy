/**
 * The client half of the HTTP/2 sketch: how RoundTrip dispatches a request,
 * what it takes from the peer's first SETTINGS frame, how it cuts an encoded
 * header block into one HEADERS frame and CONTINUATION frames (sections 6.2
 * and 6.10 of RFC 7540), and the sticky-error writer under its buffered
 * writer.
 *
 * TLS, the framer's byte encoding and hpack are not modelled: the header
 * block arrives already encoded, and each frame is the record the framer
 * is asked to write.
 */
module Http2Client {
  import opened Wrappers
  import opened Text

  type Uint32 = x: nat | x < 0x1_0000_0000

  /* ---------------- dispatch ---------------- */

  /** Where RoundTrip sends a request before any HTTP/2 work. */
  datatype Dispatch =
    | ViaFallback
    | Unsupported(message: string)
    | DialTls(address: string, serverName: string)

  /**
   * RoundTrip's opening: a scheme other than "https" goes to the fallback
   * transport, or fails when there is none; an https request is dialled at
   * host:port. `split` is what net.SplitHostPort made of the URL host; when
   * it failed (a host without a port), the whole URL host is dialled on 443.
   */
  function RouteRequest(scheme: string, urlHost: string, hasFallback: bool,
                        split: Option<(string, string)>): (d: Dispatch)
    ensures scheme != "https" ==> (d == ViaFallback <==> hasFallback)
    ensures scheme != "https" && !hasFallback ==> d.Unsupported?
    ensures scheme == "https" <==> d.DialTls?
    ensures d.DialTls? && split.None? ==> d.serverName == urlHost && d.address == urlHost + ":443"
    ensures d.DialTls? && split.Some? ==> d.serverName == split.value.0
    ensures d.DialTls? ==>
      d.address == d.serverName + ":" + (if split.Some? then split.value.1 else "443")
    ensures scheme != "https" && !hasFallback ==> d == Unsupported("Unsupported scheme and no fallback.")
  {
    if scheme != "https" then
      if hasFallback then ViaFallback else Unsupported("Unsupported scheme and no fallback.")
    else
      var (host, port) := if split.Some? then split.value else (urlHost, "443");
      DialTls(host + ":" + port, host)
  }

  /**
   * The dialled address reads back as the server name and the port: when
   * neither contains a colon, splitting the address at ':' gives exactly
   * the two.
   */
  lemma DialAddressSplits(scheme: string, urlHost: string, hasFallback: bool,
                          split: Option<(string, string)>)
    requires scheme == "https"
    requires split.None? ==> ':' !in urlHost
    requires split.Some? ==> ':' !in split.value.0 && ':' !in split.value.1
    ensures var d := RouteRequest(scheme, urlHost, hasFallback, split);
      Split(d.address, ':') == [d.serverName, if split.Some? then split.value.1 else "443"]
  {
    var port := if split.Some? then split.value.1 else "443";
    var host := if split.Some? then split.value.0 else urlHost;
    SplitJoin([host, port], ':');
    assert Join([host, port], ':') == host + ":" + port by {
      assert [host, port][1..] == [port];
    }
  }

  /* ---------------- stream ids ---------------- */

  /**
   * nextStreamID: the sketch sends a single request, on stream 1. Streams a
   * client opens carry odd, non-zero identifiers (section 5.1.1 of RFC 7540).
   */
  function NextStreamID(): (id: Uint32)
    ensures id > 0 && id % 2 == 1
    ensures id == 1
  {
    1
  }

  /* ---------------- peer settings ---------------- */

  /** SETTINGS_MAX_FRAME_SIZE (section 6.5.2 of RFC 7540). */
  const SettingMaxFrameSize: nat := 0x5

  datatype Setting = Setting(id: nat, val: Uint32)

  /** The first frame read from the peer: only a SETTINGS frame is looked at. */
  datatype PeerFrame = SettingsFrame(settings: seq<Setting>) | OtherFrame

  /**
   * The frame size a peer may be sent before it announces one: the initial
   * value of SETTINGS_MAX_FRAME_SIZE (section 6.5.2 of RFC 7540).
   */
  const InitialMaxFrameSize: Uint32 := 0x4000

  /**
   * The frame size after visiting the settings in order: the last
   * MAX_FRAME_SIZE wins. As written (`ignoreZero` false) any value is taken;
   * the correction (`ignoreZero` true) passes over a zero value, which would
   * leave no room for a single header byte.
   */
  function FrameSizeAfter(settings: seq<Setting>, current: Uint32, ignoreZero: bool): Uint32 {
    if settings == [] then current
    else
      var last := settings[|settings| - 1];
      var before := FrameSizeAfter(settings[..|settings| - 1], current, ignoreZero);
      if last.id == SettingMaxFrameSize && (last.val > 0 || !ignoreZero) then last.val else before
  }

  /** Without a MAX_FRAME_SIZE entry the frame size is left as it was. */
  lemma {:induction false} FrameSizeUnchanged(settings: seq<Setting>, current: Uint32, ignoreZero: bool)
    requires forall k :: 0 <= k < |settings| ==> settings[k].id != SettingMaxFrameSize
    ensures FrameSizeAfter(settings, current, ignoreZero) == current
    decreases |settings|
  {
    if settings != [] {
      var init := settings[..|settings| - 1];
      assert forall k :: 0 <= k < |init| ==> init[k] == settings[k];
      FrameSizeUnchanged(init, current, ignoreZero);
    }
  }

  /**
   * With MAX_FRAME_SIZE entries, the frame size is the value of the last
   * one (the last non-zero one, with the correction).
   */
  lemma {:induction false} FrameSizeAfterIsLast(settings: seq<Setting>, current: Uint32, ignoreZero: bool, k: nat)
    requires k < |settings| && settings[k].id == SettingMaxFrameSize
    requires ignoreZero ==> settings[k].val > 0
    requires forall j :: k < j < |settings| ==>
      settings[j].id != SettingMaxFrameSize || (ignoreZero && settings[j].val == 0)
    ensures FrameSizeAfter(settings, current, ignoreZero) == settings[k].val
    decreases |settings|
  {
    if k < |settings| - 1 {
      var init := settings[..|settings| - 1];
      assert forall j :: k < j < |init| ==> init[j] == settings[j];
      FrameSizeAfterIsLast(init, current, ignoreZero, k);
    }
  }

  /** With the correction, a non-zero frame size stays non-zero whatever the peer sends. */
  lemma {:induction false} FrameSizeStaysPositive(settings: seq<Setting>, current: Uint32)
    requires current > 0
    ensures FrameSizeAfter(settings, current, true) > 0
    decreases |settings|
  {
    if settings != [] {
      FrameSizeStaysPositive(settings[..|settings| - 1], current);
    }
  }

  /**
   * maxFrameSize once the peer's first frame is read. As written it starts
   * at 0 and takes any announced value; corrected, it starts at the
   * initial 16384 and never becomes 0.
   */
  function PeerMaxFrameSize(f: PeerFrame, corrected: bool): (m: Uint32)
    ensures corrected ==> m > 0
    ensures f.OtherFrame? ==> m == (if corrected then InitialMaxFrameSize else 0)
  {
    var start := if corrected then InitialMaxFrameSize else 0;
    if f.SettingsFrame? && corrected then
      FrameSizeStaysPositive(f.settings, start);
      FrameSizeAfter(f.settings, start, true)
    else if f.SettingsFrame? then FrameSizeAfter(f.settings, start, false)
    else start
  }

  /**
   * One pass of the chunking loop: the chunk is the first `max` bytes of
   * what remains (all of it when shorter), and the rest follows it.
   */
  function CutChunk(rest: seq<bv8>, max: nat): (r: (seq<bv8>, seq<bv8>))
    ensures r.0 + r.1 == rest
    ensures |r.0| == if |rest| > max then max else |rest|
  {
    var n := if |rest| > max then max else |rest|;
    (rest[..n], rest[n..])
  }

  /**
   * As written, a peer whose first frame carries no MAX_FRAME_SIZE leaves
   * maxFrameSize at 0, and a pass of the loop over a non-empty header block
   * then cuts an empty chunk and leaves the whole block: the loop writes
   * empty CONTINUATION frames for ever. The request's header block is never
   * empty, since it always holds :method, :scheme and :path.
   */
  lemma ZeroFrameSizeStalls(f: PeerFrame, hdrs: seq<bv8>)
    requires f.SettingsFrame? ==> forall k :: 0 <= k < |f.settings| ==> f.settings[k].id != SettingMaxFrameSize
    requires hdrs != []
    ensures PeerMaxFrameSize(f, false) == 0
    ensures CutChunk(hdrs, PeerMaxFrameSize(f, false)) == ([], hdrs)
  {
    if f.SettingsFrame? {
      FrameSizeUnchanged(f.settings, 0, false);
    }
  }

  /**
   * The input that shows it: a first SETTINGS frame that only announces
   * MAX_CONCURRENT_STREAMS = 100. As written the chunk is empty and the
   * block unchanged; corrected, the whole 17-byte block fits in one chunk.
   */
  lemma SettingsWithoutFrameSizeStalls(hdrs: seq<bv8>)
    requires |hdrs| == 17
    ensures var f := SettingsFrame([Setting(0x3, 100)]);
      && CutChunk(hdrs, PeerMaxFrameSize(f, false)) == ([], hdrs)
      && CutChunk(hdrs, PeerMaxFrameSize(f, true)) == (hdrs, [])
  {
    var f := SettingsFrame([Setting(0x3, 100)]);
    ZeroFrameSizeStalls(f, hdrs);
    FrameSizeUnchanged(f.settings, InitialMaxFrameSize, true);
    assert PeerMaxFrameSize(f, true) == InitialMaxFrameSize;
    assert hdrs[..17] == hdrs && hdrs[17..] == [];
  }

  /* ---------------- header block fragments ---------------- */

  /**
   * The chunks the loop cuts from a header block: at most `max` bytes each,
   * in order. A zero maximum only admits the empty block: the loop would
   * otherwise never shorten the block.
   */
  function Fragments(block: seq<bv8>, max: nat): (frags: seq<seq<bv8>>)
    requires max > 0 || block == []
    ensures frags == [] <==> block == []
    decreases |block|
  {
    if block == [] then []
    else
      var n := if |block| > max then max else |block|;
      [block[..n]] + Fragments(block[n..], max)
  }

  function Concat(frags: seq<seq<bv8>>): seq<bv8> {
    if frags == [] then [] else frags[0] + Concat(frags[1..])
  }

  /** The chunks put back together are the header block, and none is empty or too long. */
  lemma {:induction false} FragmentsReassemble(block: seq<bv8>, max: nat)
    requires max > 0 || block == []
    ensures Concat(Fragments(block, max)) == block
    ensures forall k :: 0 <= k < |Fragments(block, max)| ==>
              0 < |Fragments(block, max)[k]| <= max
    decreases |block|
  {
    if block != [] {
      var n := if |block| > max then max else |block|;
      FragmentsReassemble(block[n..], max);
      var frags := Fragments(block, max);
      assert frags[1..] == Fragments(block[n..], max);
      assert block[..n] + block[n..] == block;
    }
  }

  /**
   * A block of L bytes goes out in ceil(L / max) frames: the fewest frames
   * of at most `max` bytes that hold it.
   */
  lemma {:induction false} FragmentsCount(block: seq<bv8>, max: nat)
    requires max > 0
    ensures var n := |Fragments(block, max)|;
      (n - 1) * max < |block| <= n * max
    decreases |block|
  {
    if block != [] {
      var n := if |block| > max then max else |block|;
      FragmentsCount(block[n..], max);
      var m := |Fragments(block[n..], max)|;
      assert |Fragments(block, max)| == m + 1;
      assert (m + 1) * max == m * max + max;
    }
  }

  /* ---------------- header block frames ---------------- */

  /** A frame carrying part of a header block, as handed to the framer. */
  datatype BlockFrame =
    | HeadersFrame(streamID: Uint32, fragment: seq<bv8>, endHeaders: bool, endStream: bool)
    | ContinuationFrame(streamID: Uint32, fragment: seq<bv8>, endHeaders: bool)

  /**
   * The frame for chunk k of n: HEADERS for the first, CONTINUATION for the
   * rest; END_HEADERS on the last; END_STREAM on HEADERS, since the request
   * has no body.
   */
  function FrameFor(id: Uint32, chunk: seq<bv8>, k: nat, n: nat): BlockFrame {
    if k == 0 then HeadersFrame(id, chunk, k == n - 1, true)
    else ContinuationFrame(id, chunk, k == n - 1)
  }

  function BlockFrames(id: Uint32, frags: seq<seq<bv8>>): (frames: seq<BlockFrame>)
    ensures |frames| == |frags|
  {
    seq(|frags|, k requires 0 <= k < |frags| => FrameFor(id, frags[k], k, |frags|))
  }

  function Fragment(f: BlockFrame): seq<bv8> {
    f.fragment
  }

  /** Where the remaining fragments start at position i, the next one is the head of the rest. */
  lemma FragmentsHead(all: seq<seq<bv8>>, i: nat, rest: seq<bv8>, max: nat)
    requires max > 0 && rest != [] && i <= |all| && all[i..] == Fragments(rest, max)
    ensures var n := if |rest| > max then max else |rest|;
      && i < |all| && all[i] == rest[..n] && all[i + 1..] == Fragments(rest[n..], max)
      && (i == |all| - 1 <==> n == |rest|)
  {
    var n := if |rest| > max then max else |rest|;
    assert all[i..][1..] == all[i + 1..];
    if n < |rest| {
      assert Fragments(rest[n..], max) != [];
    }
  }

  /** The frames up to i and the frame at i are the frames up to i + 1. */
  lemma BlockFramesPrefix(id: Uint32, frags: seq<seq<bv8>>, i: nat)
    requires i < |frags|
    ensures BlockFrames(id, frags)[..i] + [FrameFor(id, frags[i], i, |frags|)] == BlockFrames(id, frags)[..i + 1]
  {
  }

  /**
   * Everything the chunking loop promises about the frames of a header
   * block: their fragments put together are the block, each fragment is
   * non-empty and at most `max` bytes, the first frame is HEADERS with
   * END_STREAM and the others CONTINUATION, END_HEADERS is set on the last
   * frame only, and every frame is on the given stream. An empty block
   * yields no frame at all.
   */
  lemma HeaderBlockFraming(id: Uint32, block: seq<bv8>, max: nat)
    requires max > 0 || block == []
    ensures var frames := BlockFrames(id, Fragments(block, max));
      && (frames == [] <==> block == [])
      && Concat(seq(|frames|, k requires 0 <= k < |frames| => Fragment(frames[k]))) == block
      && (forall k :: 0 <= k < |frames| ==> 0 < |frames[k].fragment| <= max)
      && (frames != [] ==> frames[0].HeadersFrame? && frames[0].endStream)
      && (forall k :: 0 < k < |frames| ==> frames[k].ContinuationFrame?)
      && (forall k :: 0 <= k < |frames| ==> (frames[k].endHeaders <==> k == |frames| - 1))
      && (forall k :: 0 <= k < |frames| ==> frames[k].streamID == id)
  {
    var frags := Fragments(block, max);
    var frames := BlockFrames(id, frags);
    FragmentsReassemble(block, max);
    assert seq(|frames|, k requires 0 <= k < |frames| => Fragment(frames[k])) == frags;
  }

  /* ---------------- the sticky-error writer ---------------- */

  /** What the connection's own Write call returned. */
  datatype WriteOutcome = WriteOutcome(n: nat, err: Option<string>)

  /**
   * One Write through the sticky writer: what the caller sees, the recorded
   * first error afterwards, and whether the connection was written to.
   */
  datatype StickyStep = StickyStep(n: nat, err: Option<string>, werr: Option<string>, reached: bool)

  /**
   * stickyErrWriter.Write as written: the method has a value receiver and
   * assigns a fresh pointer to its own copy's field, so the connection's
   * recorded error is never set.
   */
  function StickyWriteAsWritten(werr: Option<string>, out: WriteOutcome): (r: StickyStep)
    ensures r.werr == werr
    ensures werr.Some? ==> r == StickyStep(0, werr, werr, false)
    ensures werr.None? ==> r.reached && r.n == out.n && r.err == out.err
  {
    if werr.Some? then StickyStep(0, werr, werr, false)
    else StickyStep(out.n, out.err, werr, true)
  }

  /** The evident intent: the first failed write's error is recorded and then returned. */
  function StickyWrite(werr: Option<string>, out: WriteOutcome): (r: StickyStep)
    ensures werr.Some? ==> r == StickyStep(0, werr, werr, false)
    ensures werr.None? ==> r.reached && r.n == out.n && r.err == out.err && r.werr == out.err
  {
    if werr.Some? then StickyStep(0, werr, werr, false)
    else StickyStep(out.n, out.err, out.err, true)
  }

  /** The recorded error after a run of writes through the writer. */
  function RecordedAfter(werr: Option<string>, outs: seq<WriteOutcome>, corrected: bool): Option<string>
    decreases |outs|
  {
    if outs == [] then werr
    else
      var step := if corrected then StickyWrite(werr, outs[0]) else StickyWriteAsWritten(werr, outs[0]);
      RecordedAfter(step.werr, outs[1..], corrected)
  }

  /** The first error among the connection's outcomes, if the writes got that far. */
  function FirstError(outs: seq<WriteOutcome>): Option<string> {
    if outs == [] then None
    else if outs[0].err.Some? then outs[0].err
    else FirstError(outs[1..])
  }

  /** With the correction, the writer ends up holding the first error the connection gave. */
  lemma {:induction false} StickyRecordsFirstError(outs: seq<WriteOutcome>)
    ensures RecordedAfter(None, outs, true) == FirstError(outs)
    decreases |outs|
  {
    if outs != [] {
      if outs[0].err.Some? {
        StickyKeepsError(outs[0].err, outs[1..]);
      } else {
        StickyRecordsFirstError(outs[1..]);
      }
    }
  }

  /** Once an error is recorded, every later write returns it without touching the connection. */
  lemma {:induction false} StickyKeepsError(werr: Option<string>, outs: seq<WriteOutcome>)
    requires werr.Some?
    ensures RecordedAfter(werr, outs, true) == werr
    ensures forall o :: StickyWrite(werr, o) == StickyStep(0, werr, werr, false)
    decreases |outs|
  {
    if outs != [] {
      StickyKeepsError(werr, outs[1..]);
    }
  }

  /** As written, nothing is ever recorded, whatever the connection returns. */
  lemma {:induction false} AsWrittenNeverRecords(outs: seq<WriteOutcome>)
    ensures RecordedAfter(None, outs, false) == None
    decreases |outs|
  {
    if outs != [] {
      AsWrittenNeverRecords(outs[1..]);
    }
  }

  /**
   * The input that shows it: a write that fails with "broken pipe" leaves
   * no recorded error, so RoundTrip's check of the recorded error after the
   * flush lets the failure through; the corrected writer records it.
   */
  lemma FailedWriteGoesUnnoticed()
    ensures var outs := [WriteOutcome(0, Some("broken pipe"))];
      RecordedAfter(None, outs, false) == None
      && RecordedAfter(None, outs, true) == Some("broken pipe")
  {
    var outs := [WriteOutcome(0, Some("broken pipe"))];
    assert outs[1..] == [];
  }

  /* ---------------- the checks after a flush ---------------- */

  /** After a flush, RoundTrip either goes on or returns no response with the given error. */
  datatype FlushCheck = Proceed | GiveUp(err: Option<string>)

  /**
   * The check after the SETTINGS flush as written: on a recorded write
   * error it returns the variable that last held the dial's error, which
   * is nil once the dial has succeeded.
   */
  function SettingsFlushCheckAsWritten(werr: Option<string>): (r: FlushCheck)
    ensures r.GiveUp? <==> werr.Some?
    ensures r.GiveUp? ==> r.err.None?
  {
    if werr.Some? then GiveUp(None) else Proceed
  }

  /**
   * The check after the header flush, and the evident intent of the one
   * after the SETTINGS flush: stop exactly when a write failed, and report
   * that failure.
   */
  function FlushCheckOf(werr: Option<string>): (r: FlushCheck)
    ensures r.GiveUp? <==> werr.Some?
    ensures r.GiveUp? ==> r.err.Some? && r.err == werr
  {
    if werr.Some? then GiveUp(werr) else Proceed
  }

  /**
   * With the corrected writer, a SETTINGS write that fails with "broken
   * pipe" is recorded, yet the check as written gives up with no error:
   * RoundTrip returns neither a response nor an error. The corrected check
   * reports the failure.
   */
  lemma SettingsFailureUnreported(outs: seq<WriteOutcome>)
    requires outs == [WriteOutcome(0, Some("broken pipe"))]
    ensures var werr := RecordedAfter(None, outs, true);
      && SettingsFlushCheckAsWritten(werr) == GiveUp(None)
      && FlushCheckOf(werr) == GiveUp(Some("broken pipe"))
  {
    FailedWriteGoesUnnoticed();
  }

  /* ---------------- the connection ---------------- */

  /** The per-connection state RoundTrip updates as it goes. */
  class ClientConn {
    /** The peer's SETTINGS_MAX_FRAME_SIZE; 16384 until the peer announces one. */
    var maxFrameSize: Uint32
    /** The first error of a write to the connection. */
    var werr: Option<string>

    constructor ()
      ensures maxFrameSize == InitialMaxFrameSize && werr == None
    {
      maxFrameSize := InitialMaxFrameSize;
      werr := None;
    }

    /**
     * The switch on the peer's first frame: a SETTINGS frame is visited
     * entry by entry and a non-zero MAX_FRAME_SIZE taken; other entries
     * are only logged, other frames ignored.
     */
    method ReadPeerSettings(f: PeerFrame)
      modifies this
      ensures f.SettingsFrame? ==> maxFrameSize == FrameSizeAfter(f.settings, old(maxFrameSize), true)
      ensures f.OtherFrame? ==> maxFrameSize == old(maxFrameSize)
      ensures old(maxFrameSize) > 0 ==> maxFrameSize > 0
      ensures werr == old(werr)
    {
      if f.SettingsFrame? {
        var settings := f.settings;
        var i := 0;
        while i < |settings|
          invariant i <= |settings|
          invariant maxFrameSize == FrameSizeAfter(settings[..i], old(maxFrameSize), true)
          invariant werr == old(werr)
        {
          assert settings[..i + 1][..i] == settings[..i];
          if settings[i].id == SettingMaxFrameSize && settings[i].val > 0 {
            maxFrameSize := settings[i].val;
          }
          i := i + 1;
        }
        assert settings[..i] == settings;
        if old(maxFrameSize) > 0 {
          FrameSizeStaysPositive(settings, old(maxFrameSize));
        }
      }
    }

    /** A write through the corrected sticky-error writer. */
    method Write(out: WriteOutcome) returns (n: nat, err: Option<string>)
      modifies this
      ensures var step := StickyWrite(old(werr), out);
        n == step.n && err == step.err && werr == step.werr
      ensures maxFrameSize == old(maxFrameSize)
    {
      if werr.Some? {
        return 0, werr;
      }
      n, err := out.n, out.err;
      werr := err;
    }

    /**
     * The chunking loop of RoundTrip: while header bytes remain, cut at
     * most maxFrameSize of them, send the first chunk in HEADERS and the
     * others in CONTINUATION, with END_HEADERS once nothing remains.
     */
    method SendHeaderBlock(hdrs: seq<bv8>) returns (frames: seq<BlockFrame>)
      requires maxFrameSize > 0 || hdrs == []
      ensures frames == BlockFrames(NextStreamID(), Fragments(hdrs, maxFrameSize))
    {
      ghost var all := Fragments(hdrs, maxFrameSize);
      var rest := hdrs;
      var first := true;
      var streamID := NextStreamID();
      var hasBody := false;
      frames := [];
      while |rest| > 0
        invariant maxFrameSize > 0 || rest == []
        invariant |frames| <= |all|
        invariant all[|frames|..] == Fragments(rest, maxFrameSize)
        invariant frames == BlockFrames(streamID, all)[..|frames|]
        invariant first <==> frames == []
        decreases |rest|
      {
        FragmentsHead(all, |frames|, rest, maxFrameSize);
        var cut := CutChunk(rest, maxFrameSize);
        var chunk := cut.0;
        rest := cut.1;
        var endHeaders := |rest| == 0;
        var frame;
        if first {
          frame := HeadersFrame(streamID, chunk, endHeaders, !hasBody);
          first := false;
        } else {
          frame := ContinuationFrame(streamID, chunk, endHeaders);
        }
        assert frame == FrameFor(streamID, all[|frames|], |frames|, |all|);
        BlockFramesPrefix(streamID, all, |frames|);
        frames := frames + [frame];
      }
      assert |frames| == |all|;
    }
  }

  /**
   * RoundTrip from the new connection to the header frames: the peer's first
   * frame sets the frame size, then the header block is cut into frames.
   * With the corrected connection the cut always finishes, whatever frame
   * the peer sent first.
   */
  method SendRequestHeaders(f: PeerFrame, hdrs: seq<bv8>) returns (frames: seq<BlockFrame>)
    ensures frames == BlockFrames(NextStreamID(), Fragments(hdrs, PeerMaxFrameSize(f, true)))
  {
    var cc := new ClientConn();
    cc.ReadPeerSettings(f);
    frames := cc.SendHeaderBlock(hdrs);
  }
}
