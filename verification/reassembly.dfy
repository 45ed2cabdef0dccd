/** Whole runs of a receiver: any number of reads, of any sizes, over one byte stream. */
module Reassembly {
  import opened Structs
  import opened Framing

  function Flatten(chunks: seq<seq<byte>>): seq<byte> {
    if chunks == [] then [] else Flatten(chunks[..|chunks| - 1]) + chunks[|chunks| - 1]
  }

  /** One read, as every connection specifies it: the parser applied to the held bytes and the new
      ones together. */
  function Feed(c: Codec, carry: Carry, chunk: seq<byte>): Outcome {
    c.Parse(c.Held(carry) + chunk)
  }

  /** All frames emitted by a sequence of reads, and the state after it. */
  function Run(c: Codec, chunks: seq<seq<byte>>): Outcome {
    if chunks == [] then Parsed([], Idle)
    else
      match Run(c, chunks[..|chunks| - 1])
      case Panic => Panic
      case Parsed(frames, carry) => Feed(c, carry, chunks[|chunks| - 1]).After(frames)
  }

  /** The received bytes that a connection still has, in the form in which they came in: those of the
      frames it has emitted, and those that it holds. */
  datatype Raw = Raw(emitted: seq<byte>, held: seq<byte>) {
    function Size(): nat {
      |emitted| + |held|
    }
  }

  function RawFeed(c: Codec, raw: Raw, chunk: seq<byte>): Raw {
    var b := raw.held + chunk;
    Raw(raw.emitted + b[..c.Consumed(b)], c.Remains(b))
  }

  function RawRun(c: Codec, chunks: seq<seq<byte>>): Raw {
    if chunks == [] then Raw([], [])
    else RawFeed(c, RawRun(c, chunks[..|chunks| - 1]), chunks[|chunks| - 1])
  }

  /** The emitted frames are read from the emitted bytes, and the state stands for the held ones. */
  ghost predicate IsRawOf(c: Codec, raw: Raw, r: Outcome) {
    && r.Parsed? && c.Parse(raw.emitted) == Parsed(r.frames, Idle) && c.StandsFor(r.carry, raw.held)
    && (r.carry.AwaitsHeader() ==> r.carry.payload == raw.held) && (r.carry.Idle? ==> raw.held == [])
  }

  /** Emitted frames and state were made from exactly these bytes. */
  predicate IsMadeFrom(c: Codec, chunks: seq<seq<byte>>, b: seq<byte>) {
    Run(c, chunks).Parsed? && RawRun(c, chunks).emitted + RawRun(c, chunks).held == b
  }

  /** The parser would drop nothing at any of the points where the stream is cut. */
  ghost predicate LosslessCuts(c: Codec, chunks: seq<seq<byte>>) {
    forall i | 0 <= i <= |chunks| :: LosslessAt(c, Flatten(chunks[..i]))
  }

  ghost predicate LosslessAt(c: Codec, b: seq<byte>) {
    c.Keeps(b)
  }

  /** Resuming where the parser dropped nothing is the same as parsing from the start. */
  lemma {:induction false} FeedResumes(c: Codec, b: seq<byte>, chunk: seq<byte>)
    requires c.Lawful() && LosslessAt(c, b)
    ensures Feed(c, c.Parse(b).carry, chunk).After(c.Parse(b).frames) == c.Parse(b + chunk)
  {
    hide Codec.Parse, Codec.Remains, Codec.Consumed;
    var used, held := b[..c.Consumed(b)], c.Remains(b);
    c.ParseSplits(b);
    c.ParseAfterFrames(used, held + chunk);
    assert used + (held + chunk) == b + chunk;
  }

  /** One read, for any bytes: what is emitted and held afterwards is what it was made from, and all
      of the bytes or fewer. */
  lemma {:induction false} FeedAccounts(c: Codec, raw: Raw, r: Outcome, chunk: seq<byte>)
    requires c.Lawful() && IsRawOf(c, raw, r) && Feed(c, r.carry, chunk).Parsed?
    ensures var after := RawFeed(c, raw, chunk);
            && IsRawOf(c, after, Feed(c, r.carry, chunk).After(r.frames))
            && after.Size() <= raw.Size() + |chunk|
            && (if c.Keeps(raw.held + chunk) then after.emitted + after.held == raw.emitted + raw.held + chunk
                else after.Size() < raw.Size() + |chunk|)
  {
    hide Codec.Parse, Codec.Remains, Codec.Consumed;
    var b := raw.held + chunk;
    var used := b[..c.Consumed(b)];
    assert c.Parse(b) == Feed(c, r.carry, chunk);
    c.ParseAccounts(b);
    c.ParseSplits(b);
    c.ParseAfterFrames(raw.emitted, used);
    if c.Parse(b).carry.AwaitsHeader() {
      c.AwaitingIsBounded(b);
    } else if c.Parse(b).carry.Idle? {
      c.ParseAfterFrames(b, []);
    }
    if c.Keeps(b) {
      assert raw.emitted + used + c.Remains(b) == raw.emitted + (used + c.Remains(b));
      assert raw.emitted + raw.held + chunk == raw.emitted + b;
    }
  }

  lemma NothingReceived(c: Codec)
    ensures IsRawOf(c, Raw([], []), Parsed([], Idle))
  {
    c.ParseNothing();
  }

  lemma CutsOfFront(chunks: seq<seq<byte>>, i: nat)
    requires chunks != [] && i < |chunks|
    ensures chunks[..|chunks| - 1][..i] == chunks[..i]
  {
  }

  /** The induction behind the next two lemmas: a run that has dropped bytes never makes up for them. */
  lemma {:induction false} RunAccounts(c: Codec, chunks: seq<seq<byte>>)
    requires c.Lawful()
    ensures LosslessCuts(c, chunks) ==> Run(c, chunks) == c.Parse(Flatten(chunks))
    ensures Run(c, chunks).Parsed? ==>
              && IsRawOf(c, RawRun(c, chunks), Run(c, chunks))
              && (if LosslessCuts(c, chunks) then RawRun(c, chunks).emitted + RawRun(c, chunks).held == Flatten(chunks)
                  else RawRun(c, chunks).Size() < |Flatten(chunks)|)
  {
    hide Codec.Parse, Codec.Keeps, RawFeed, IsRawOf;
    if chunks == [] {
      c.ParseNothing();
      NothingReceived(c);
      assert LosslessAt(c, Flatten(chunks[..0]));
    } else {
      var front, last := chunks[..|chunks| - 1], chunks[|chunks| - 1];
      RunAccounts(c, front);
      LosslessCutsStep(c, chunks);
      if LosslessCuts(c, front) {
        LosslessAtEnd(c, front);
        FeedResumes(c, Flatten(front), last);
      }
      if Run(c, chunks).Parsed? {
        var raw, earlier := RawRun(c, front), Run(c, front);
        FeedAccounts(c, raw, earlier, last);
        if LosslessCuts(c, front) {
          KeepsFromHere(c, raw, earlier, last);
          assert raw.emitted + (raw.held + last) == Flatten(chunks);
        }
      }
    }
  }

  lemma KeepsFromHere(c: Codec, raw: Raw, r: Outcome, chunk: seq<byte>)
    requires IsRawOf(c, raw, r)
    ensures c.Keeps(raw.emitted + (raw.held + chunk)) <==> c.Keeps(raw.held + chunk)
  {
    hide Codec.Parse, Codec.Keeps;
    c.ParseAfterFrames(raw.emitted, raw.held + chunk);
  }

  lemma {:induction false} LosslessCutsStep(c: Codec, chunks: seq<seq<byte>>)
    requires chunks != []
    ensures LosslessCuts(c, chunks) <==>
            LosslessCuts(c, chunks[..|chunks| - 1]) && LosslessAt(c, Flatten(chunks))
  {
    hide Flatten, LosslessAt;
    var front := chunks[..|chunks| - 1];
    assert forall i | 0 <= i <= |front| :: front[..i] == chunks[..i];
    assert chunks[..|chunks|] == chunks;
    if LosslessCuts(c, chunks) {
      assert LosslessAt(c, Flatten(chunks[..|chunks|]));
      forall i | 0 <= i <= |front| ensures LosslessAt(c, Flatten(front[..i])) {
        assert LosslessAt(c, Flatten(chunks[..i]));
      }
    } else {
      var i :| 0 <= i <= |chunks| && !LosslessAt(c, Flatten(chunks[..i]));
      if i < |chunks| {
        assert !LosslessAt(c, Flatten(front[..i]));
      }
    }
  }

  /** For every byte stream and every way of cutting it, unless the receiver panics: the frames
      emitted so far were read from some bytes, and the kept state stands for others; together they
      are exactly the bytes received so far if and only if the parser drops nothing at any cut. */
  lemma {:induction false} RunKeepsEverythingIff(c: Codec, chunks: seq<seq<byte>>)
    requires c.Lawful() && Run(c, chunks).Parsed?
    ensures IsRawOf(c, RawRun(c, chunks), Run(c, chunks))
    ensures IsMadeFrom(c, chunks, Flatten(chunks)) <==> LosslessCuts(c, chunks)
  {
    hide IsRawOf;
    RunAccounts(c, chunks);
  }

  /** A run with lossless cuts yields what parsing the whole stream at once would. */
  lemma {:induction false} RunIsParse(c: Codec, chunks: seq<seq<byte>>)
    requires c.Lawful() && LosslessCuts(c, chunks)
    ensures Run(c, chunks) == c.Parse(Flatten(chunks))
  {
    RunAccounts(c, chunks);
  }

  /** Two ways of cutting the same stream give the same frames and the same final state, whenever
      neither cuts it where the parser drops bytes. */
  lemma {:induction false} ChunksDoNotMatter(c: Codec, chunks: seq<seq<byte>>, others: seq<seq<byte>>)
    requires c.Lawful() && Flatten(chunks) == Flatten(others)
    requires LosslessCuts(c, chunks) && LosslessCuts(c, others)
    ensures Run(c, chunks) == Run(c, others)
  {
    RunIsParse(c, chunks);
    RunIsParse(c, others);
  }

  // ---- Streams of encoded frames ----

  /** No read ends between a header and its NUL, or inside a non-empty packet with action Noop. */
  predicate GoodCuts(c: Codec, fs: seq<Frame>, chunks: seq<seq<byte>>) {
    forall i | 0 <= i <= |chunks| :: !c.BadCut(fs, |Flatten(chunks[..i])|)
  }

  lemma {:induction false} FlattenPrefix(chunks: seq<seq<byte>>, i: nat)
    requires i <= |chunks|
    ensures Flatten(chunks[..i]) <= Flatten(chunks)
  {
    if i < |chunks| {
      FlattenPrefix(chunks[..|chunks| - 1], i);
      CutsOfFront(chunks, i);
    } else {
      assert chunks[..i] == chunks;
    }
  }

  lemma {:induction false} GoodCutsAreLossless(c: Codec, fs: seq<Frame>, chunks: seq<seq<byte>>)
    requires c.Lawful() && Flatten(chunks) <= c.Encode(fs)
    ensures GoodCuts(c, fs, chunks) <==> LosslessCuts(c, chunks)
  {
    hide Codec.Parse, Codec.BadCut, Flatten;
    forall i | 0 <= i <= |chunks|
      ensures LosslessAt(c, Flatten(chunks[..i])) <==> !c.BadCut(fs, |Flatten(chunks[..i])|)
    {
      var b := Flatten(chunks[..i]);
      FlattenPrefix(chunks, i);
      assert c.Encode(fs)[..|b|] == b;
      c.ParsePrefix(fs, |b|);
    }
  }

  /** Part way through a stream: nothing was lost if and only if no read has ended at a bad cut; and
      then the complete frames have been handed on, in order, and the bytes of the next one are held. */
  lemma {:induction false} ReceivedSoFar(c: Codec, fs: seq<Frame>, chunks: seq<seq<byte>>)
    requires c.Lawful() && Flatten(chunks) <= c.Encode(fs)
    ensures GoodCuts(c, fs, chunks) <==> IsMadeFrom(c, chunks, Flatten(chunks))
    ensures GoodCuts(c, fs, chunks) ==>
              && c.AccountsFor(Run(c, chunks), Flatten(chunks))
              && Run(c, chunks).frames == fs[..c.WholeFrames(fs, |Flatten(chunks)|)]
  {
    hide Codec.Parse, Codec.BadCut;
    RunAccounts(c, chunks);
    GoodCutsAreLossless(c, fs, chunks);
    var n := |Flatten(chunks)|;
    assert c.Encode(fs)[..n] == Flatten(chunks);
    c.ParsePrefix(fs, n);
    assert chunks[..|chunks|] == chunks;
  }

  /** The round trip. Whatever frames were sent and however the network cuts the bytes: if no read
      ends at a bad cut, the receiver hands on exactly these frames, in order, and ends with nothing
      pending. */
  lemma {:induction false} RoundTrip(c: Codec, fs: seq<Frame>, chunks: seq<seq<byte>>)
    requires c.Lawful() && Flatten(chunks) == c.Encode(fs) && GoodCuts(c, fs, chunks)
    ensures Run(c, chunks) == Parsed(fs, Idle)
  {
    hide Codec.Parse, Codec.BadCut;
    RunAccounts(c, chunks);
    GoodCutsAreLossless(c, fs, chunks);
    c.ParseFramesThen(fs, []);
    c.ParseNothing();
    assert c.Encode(fs) + [] == c.Encode(fs);
  }

  /** And only if: after a bad cut the receiver panics or has lost bytes for good. So it hands on
      exactly these frames, each read from its own bytes, if and only if no read ends at one. */
  lemma {:induction false} RoundTripIff(c: Codec, fs: seq<Frame>, chunks: seq<seq<byte>>)
    requires c.Lawful() && Flatten(chunks) == c.Encode(fs)
    ensures GoodCuts(c, fs, chunks) <==>
            Run(c, chunks) == Parsed(fs, Idle) && RawRun(c, chunks).emitted == c.Encode(fs)
    ensures c.Strict() ==> (Run(c, chunks) == Parsed(fs, Idle) <==> GoodCuts(c, fs, chunks))
  {
    hide Codec.Parse, Codec.BadCut;
    RunAccounts(c, chunks);
    GoodCutsAreLossless(c, fs, chunks);
    if GoodCuts(c, fs, chunks) {
      RoundTrip(c, fs, chunks);
    } else if c.Strict() && Run(c, chunks) == Parsed(fs, Idle) {
      c.ConsumedIsEncoding(RawRun(c, chunks).emitted);
    }
  }

  /** Read strictly, raw bytes are encodings. */
  lemma {:induction false} RawIsEncoding(c: Codec, chunks: seq<seq<byte>>)
    requires c.Lawful() && c.Strict() && Run(c, chunks).Parsed?
    ensures RawRun(c, chunks) == Raw(c.Encode(Run(c, chunks).frames), c.Held(Run(c, chunks).carry))
  {
    hide Codec.Parse, Codec.Held, Codec.Encode, Codec.Keeps;
    RunAccounts(c, chunks);
    c.ConsumedIsEncoding(RawRun(c, chunks).emitted);
    if chunks == [] {
      c.ParseNothing();
      c.RemainsIsHeld([]);
    } else {
      var front := chunks[..|chunks| - 1];
      RawIsEncoding(c, front);
      c.RemainsIsHeld(RawRun(c, front).held + chunks[|chunks| - 1]);
    }
  }

  /** A wire on which the first n bytes of a stream should have arrived, but which is too short if it
      is not these bytes: the receiver has them all, the complete frames handed on and the rest held,
      if and only if it is these bytes and no read has ended at a bad cut. */
  lemma {:induction false} SpoiltIff(c: Codec, fs: seq<Frame>, n: nat, chunks: seq<seq<byte>>)
    requires c.Lawful() && n <= |c.Encode(fs)|
    requires Flatten(chunks) == c.Encode(fs)[..n] || |Flatten(chunks)| < n
    ensures var good := Flatten(chunks) == c.Encode(fs)[..n] && GoodCuts(c, fs, chunks);
            && (IsMadeFrom(c, chunks, c.Encode(fs)[..n]) <==> good)
            && (c.Strict() ==> (c.AccountsFor(Run(c, chunks), c.Encode(fs)[..n]) <==> good))
  {
    hide Codec.Parse, Codec.BadCut, Codec.Held, Codec.Encode;
    if Run(c, chunks).Parsed? {
      RunAccounts(c, chunks);
      if c.Strict() {
        RawIsEncoding(c, chunks);
      }
    }
    if Flatten(chunks) == c.Encode(fs)[..n] {
      ReceivedSoFar(c, fs, chunks);
    }
  }

  /** Without Noop packets there is only one way to fail: the receiver panics exactly when some read
      ends between a header and its NUL. */
  lemma {:induction false} PanicsIff(c: Codec, fs: seq<Frame>, chunks: seq<seq<byte>>)
    requires c.Lawful() && Flatten(chunks) <= c.Encode(fs)
    requires forall i | 0 <= i < |fs| :: fs[i].header.action != Noop
    ensures Run(c, chunks).Panic? <==> !GoodCuts(c, fs, chunks)
  {
    hide Codec.Parse, Codec.BadCut, Codec.Keeps;
    if chunks == [] {
      RunAccounts(c, chunks);
      GoodCutsAreLossless(c, fs, chunks);
    } else {
      var front, b := chunks[..|chunks| - 1], Flatten(chunks);
      PanicsIff(c, fs, front);
      LosslessCutsStep(c, chunks);
      GoodCutsAreLossless(c, fs, front);
      GoodCutsAreLossless(c, fs, chunks);
      if GoodCuts(c, fs, front) {
        RunAccounts(c, front);
        FeedResumes(c, Flatten(front), chunks[|chunks| - 1]) by { LosslessAtEnd(c, front); }
        assert c.Encode(fs)[..|b|] == b;
        c.ParsePrefix(fs, |b|);
        c.ParsePanics(fs, |b|);
      }
    }
  }

  lemma LosslessAtEnd(c: Codec, chunks: seq<seq<byte>>)
    requires LosslessCuts(c, chunks)
    ensures LosslessAt(c, Flatten(chunks)) && c.Parse(Flatten(chunks)).Parsed?
  {
    assert chunks[..|chunks|] == chunks;
  }

  /** One read in the middle of a stream: the held bytes and the bytes on the wire are the encoding
      of the frames under way. The read panics exactly when it ends between a header and its NUL;
      otherwise it takes the complete frames off the front, and the bytes that remain are the
      encoding of the frames that remain. */
  lemma {:induction false} ReadTakesFrames(c: Codec, carry: Carry, wire: seq<byte>, pending: seq<Frame>, n: nat)
    requires c.Lawful() && n <= |wire| && c.Held(carry) + wire == c.Encode(pending)
    requires forall i | 0 <= i < |pending| :: pending[i].header.action != Noop
    ensures var r := Feed(c, carry, wire[..n]);
            if c.BadCut(pending, |c.Held(carry)| + n) then r.Panic?
            else
              && r.Parsed? && r.carry.Sane() && c.Settled(r.carry) && r.frames <= pending
              && c.Held(r.carry) + wire[n..] == c.Encode(pending[|r.frames|..])
  {
    hide Codec.Parse, Codec.BadCut, Codec.Held, Codec.Encode, Codec.Keeps;
    var m := |c.Held(carry)| + n;
    var b := c.Held(carry) + wire[..n];
    assert c.Encode(pending)[..m] == b;
    c.ParsePrefix(pending, m);
    c.ParsePanics(pending, m);
    if !c.BadCut(pending, m) {
      c.ParseAccounts(b);
      c.KeptStateIsSettled(b);
      var r := c.Parse(b);
      var rest := pending[|r.frames|..];
      assert pending == r.frames + rest;
      c.EncodeAppend(r.frames, rest);
      assert b + wire[n..] == c.Encode(pending);
      assert c.Encode(r.frames) + (c.Held(r.carry) + wire[n..]) == c.Encode(r.frames) + c.Encode(rest);
      AppendCancels(c.Encode(r.frames), c.Held(r.carry) + wire[n..], c.Encode(rest));
    }
  }
}
