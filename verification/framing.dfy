/** Frames on a byte stream: header text, a NUL byte, payload. The batch parser shared by the TCP
    and DTLS handlers, and what it makes of encoded frames and of arbitrary bytes. */
module Framing {
  import opened Structs

  datatype Pair = Pair(header: GDPPacketInTransit, payload: seq<byte>)

  const DEFAULT_HEADER := GDPPacketInTransit(Noop, GDPName(0, 0, 0, 0), 0)

  /** A complete pair: the payload is as long as its header says. */
  type Frame = p: Pair | p.header.length == |p.payload| witness Pair(DEFAULT_HEADER, [])

  /** What a connection keeps between two reads. */
  datatype Carry = Idle | Partial(header: GDPPacketInTransit, payload: seq<byte>) {
    /** The next read is appended to the payload and the whole is parsed as a header again. */
    predicate AwaitsHeader() {
      Partial? && header.action == Noop
    }

    /** A payload that is still waiting for bytes is shorter than its header says. */
    predicate Sane() {
      Partial? && header.action != Noop ==> |payload| < header.length
    }
  }

  datatype Outcome = Panic | Parsed(frames: seq<Frame>, carry: Carry) {
    function After(earlier: seq<Frame>): Outcome {
      if Panic? then Panic else Parsed(earlier + frames, carry)
    }

    lemma AfterAfter(fs: seq<Frame>, gs: seq<Frame>)
      ensures After(gs).After(fs) == After(fs + gs)
    {
      if Parsed? {
        assert fs + (gs + frames) == fs + gs + frames;
      }
    }
  }

  /** What `from_utf8` and `serde_json::from_str` make of the bytes before a NUL. */
  datatype HeaderRead = NotUtf8 | Malformed | Header(header: GDPPacketInTransit)

  /** One turn of the parser's loop: it panics, it stops, or it splits a frame off the buffer. */
  datatype Turn = Crash | Stop(carry: Carry) | Emit(frame: Frame, rest: seq<byte>)

  function FirstNul(b: seq<byte>): (k: nat)
    ensures k <= |b|
  {
    if b == [] || b[0] == 0 then 0 else 1 + FirstNul(b[1..])
  }

  lemma {:induction false} FirstNulIsFirst(b: seq<byte>)
    ensures 0 !in b[..FirstNul(b)] && (FirstNul(b) < |b| ==> b[FirstNul(b)] == 0)
  {
    if b != [] && b[0] != 0 {
      FirstNulIsFirst(b[1..]);
      assert b[..FirstNul(b)] == [b[0]] + b[1..][..FirstNul(b[1..])];
    }
  }

  lemma {:induction false} FirstNulAfter(text: seq<byte>, rest: seq<byte>)
    requires 0 !in text && (rest == [] || rest[0] == 0)
    ensures FirstNul(text + rest) == |text|
  {
    if text == [] {
      assert text + rest == rest;
    } else {
      assert (text + rest)[1..] == text[1..] + rest;
      FirstNulAfter(text[1..], rest);
    }
  }

  lemma SliceInTwo(b: seq<byte>, m: nat, n: nat)
    requires m + n <= |b|
    ensures b[..m + n] == b[..m] + b[m..][..n]
  {
  }

  lemma AppendCancels(a: seq<byte>, x: seq<byte>, y: seq<byte>)
    ensures a + x == a + y <==> x == y
  {
    if a + x == a + y {
      assert x == (a + x)[|a|..] == (a + y)[|a|..] == y;
    }
  }

  /** A textual form of headers: how the sender prints one and how the receiver reads one back. */
  datatype Codec = Codec(show: GDPPacketInTransit -> seq<byte>, read: seq<byte> -> HeaderRead) {

    /** Reading is the inverse of showing; the text holds no NUL byte; and no proper prefix of it
        reads as a header or fails to be UTF-8. What else can be read is left open. */
    ghost predicate Lawful() {
      && (forall h :: Separable(h))
      && (forall h :: ReadsBack(h))
      && (forall h, k :: PrefixIsMalformed(h, k))
    }

    /** Nothing can be read but what showing yields. */
    ghost predicate Strict() {
      forall text, h :: ReadsOnly(text, h)
    }

    predicate Separable(h: GDPPacketInTransit) {
      show(h) != [] && 0 !in show(h)
    }

    predicate ReadsBack(h: GDPPacketInTransit) {
      read(show(h)) == Header(h)
    }

    predicate ReadsOnly(text: seq<byte>, h: GDPPacketInTransit) {
      read(text) == Header(h) ==> text == show(h)
    }

    predicate PrefixIsMalformed(h: GDPPacketInTransit, k: int) {
      0 <= k < |show(h)| ==> read(show(h)[..k]) == Malformed
    }

    function EncodeFrame(f: Frame): seq<byte> {
      show(f.header) + [0] + f.payload
    }

    function Encode(fs: seq<Frame>): seq<byte> {
      if fs == [] then [] else EncodeFrame(fs[0]) + Encode(fs[1..])
    }

    /** The received bytes that a state stands for. */
    function Held(carry: Carry): seq<byte> {
      if carry.Idle? then []
      else if carry.AwaitsHeader() then carry.payload
      else show(carry.header) + [0] + carry.payload
    }

    /** The encoding of the emitted frames and of the kept state is exactly `b`. */
    predicate AccountsFor(r: Outcome, b: seq<byte>) {
      r.Parsed? && Encode(r.frames) + Held(r.carry) == b
    }

    // ---- The parser ----

    function TurnOn(b: seq<byte>): (t: Turn)
      requires b != []
      ensures t.Emit? ==> |t.rest| < |b| && t.rest == b[|b| - |t.rest|..]
    {
      var k := FirstNul(b);
      match read(b[..k])
      case NotUtf8 => Crash
      case Malformed => Stop(Partial(DEFAULT_HEADER, b[..k]))
      case Header(h) =>
        if k == |b| then Crash
        else
          var rest := b[k + 1..];
          if h.length > |rest| then Stop(Partial(h, rest))
          else Emit(Pair(h, rest[..h.length]), rest[h.length..])
    }

    function Parse(b: seq<byte>): Outcome {
      if b == [] then Parsed([], Idle)
      else
        match TurnOn(b)
        case Crash => Panic
        case Stop(carry) => Parsed([], carry)
        case Emit(f, rest) => Parse(rest).After([f])
    }

    /** How many bytes of the input the emitted frames are read from. */
    function Consumed(b: seq<byte>): (n: nat)
      ensures n <= |b|
    {
      if b == [] then 0
      else
        match TurnOn(b)
        case Emit(_, rest) => |b| - |rest| + Consumed(rest)
        case _ => 0
    }

    /** The bytes of the input that the kept state was made from, as they came in. */
    function Remains(b: seq<byte>): seq<byte> {
      if b == [] then []
      else
        match TurnOn(b)
        case Crash => []
        case Stop(carry) => if carry.AwaitsHeader() then carry.payload else b
        case Emit(_, rest) => Remains(rest)
    }

    /** The parser drops nothing of its input. */
    predicate Keeps(b: seq<byte>) {
      Parse(b).Parsed? && b[..Consumed(b)] + Remains(b) == b
    }

    /** Whatever comes next, a state does the same as the bytes `held`. */
    ghost predicate StandsFor(carry: Carry, held: seq<byte>) {
      forall chunk :: Parse(held + chunk) == Parse(Held(carry) + chunk)
    }

    /** A state that has nothing in it to emit. */
    predicate Settled(carry: Carry) {
      Parse(Held(carry)) == Parsed([], carry)
    }

    lemma ParseNothing()
      ensures Parse([]) == Parsed([], Idle) && Keeps([]) && Settled(Idle) && StandsFor(Idle, [])
    {
    }

    lemma ParseTurn(b: seq<byte>, earlier: seq<Frame>)
      requires b != []
      ensures Parse(b).After(earlier) ==
              match TurnOn(b)
              case Crash => Panic
              case Stop(carry) => Parsed(earlier, carry)
              case Emit(f, rest) => Parse(rest).After(earlier + [f])
    {
      match TurnOn(b)
      case Crash =>
      case Stop(_) =>
      case Emit(f, rest) => Parse(rest).AfterAfter(earlier, [f]);
    }

    /** The loop of `parse_header_payload_pairs`; `panicked` is set where the original would panic. */
    method ParseHeaderPayloadPairs(received: seq<byte>)
      returns (panicked: bool, pairs: seq<Frame>, remaining: Carry)
      ensures Parse(received) == if panicked then Panic else Parsed(pairs, remaining)
    {
      panicked, pairs, remaining := false, [], Idle;
      if |received| == 0 {
        return;
      }
      hide Codec.Parse, Codec.Keeps, Codec.Settled, Codec.StandsFor;
      var buffer := received;
      while true
        invariant buffer != [] && !panicked && Parse(received) == Parse(buffer).After(pairs)
        decreases |buffer|
      {
        ParseTurn(buffer, pairs);
        var k := FirstNul(buffer);
        var header_buf := buffer[..k];
        match read(header_buf) {
          case NotUtf8 =>
            panicked := true;
            return;
          case Malformed =>
            remaining := Partial(DEFAULT_HEADER, header_buf);
            return;
          case Header(header) =>
            if k == |buffer| {
              panicked := true;
              return;
            }
            var rest := buffer[k + 1..];
            if header.length > |rest| {
              remaining := Partial(header, rest);
              return;
            } else if header.length == |rest| {
              assert rest[..header.length] == rest && rest[header.length..] == [];
              assert Parse([]) == Parsed([], Idle) by { ParseNothing(); }
              pairs := pairs + [Pair(header, rest)];
              return;
            } else {
              pairs := pairs + [Pair(header, rest[..header.length])];
              buffer := rest[header.length..];
            }
        }
      }
    }

    // ---- Parsing what was encoded ----

    lemma {:induction false} TurnAtText(text: seq<byte>, h: GDPPacketInTransit, rest: seq<byte>)
      requires read(text) == Header(h) && 0 !in text
      ensures TurnOn(text + [0] + rest) ==
              if h.length > |rest| then Stop(Partial(h, rest))
              else Emit(Pair(h, rest[..h.length]), rest[h.length..])
    {
      var b := text + [0] + rest;
      FirstNulAfter(text, [0] + rest);
      assert b == text + ([0] + rest);
      assert b[..|text|] == text && b[|text| + 1..] == rest;
    }

    /** A header in any form that can be read, and its NUL, take the parser to the payload. */
    lemma {:induction false} ParseAtText(text: seq<byte>, h: GDPPacketInTransit, rest: seq<byte>)
      requires read(text) == Header(h) && 0 !in text
      ensures Parse(text + [0] + rest) ==
              if h.length > |rest| then Parsed([], Partial(h, rest))
              else Parse(rest[h.length..]).After([Pair(h, rest[..h.length])])
    {
      hide Codec.TurnOn;
      TurnAtText(text, h, rest);
    }

    /** The other ways to begin: what does not read is kept up to the NUL, if there is one, with a header
        that stands for nothing, and all that comes after is dropped; what is not UTF-8, and a header
        without its NUL, is the end of the connection. */
    lemma {:induction false} ParseAtOther(text: seq<byte>, rest: seq<byte>)
      requires 0 !in text && (rest == [] || rest[0] == 0) && text + rest != []
      ensures read(text) == Malformed ==>
                Parse(text + rest) == Parsed([], Partial(GDPPacketInTransit(Noop, GDPName(0, 0, 0, 0), 0), text))
      ensures read(text) == NotUtf8 || (read(text).Header? && rest == []) ==> Parse(text + rest) == Panic
    {
      FirstNulAfter(text, rest);
      assert (text + rest)[..|text|] == text;
    }

    lemma {:induction false} ParseAtHeader(h: GDPPacketInTransit, rest: seq<byte>)
      requires Lawful()
      ensures Parse(show(h) + [0] + rest) ==
              if h.length > |rest| then Parsed([], Partial(h, rest))
              else Parse(rest[h.length..]).After([Pair(h, rest[..h.length])])
    {
      assert Separable(h) && ReadsBack(h);
      ParseAtText(show(h), h, rest);
    }

    /** The three ways a payload that was cut short goes on: still short, complete, overflowing. */
    lemma {:induction false} ParseResumesPayload(h: GDPPacketInTransit, payload: seq<byte>, chunk: seq<byte>)
      requires Lawful() && h.action != Noop && |payload| < h.length
      ensures var missing := h.length - |payload|;
              Parse(Held(Partial(h, payload)) + chunk) ==
              if |chunk| < missing then Parsed([], Partial(h, payload + chunk))
              else Parse(chunk[missing..]).After([Pair(h, payload + chunk[..missing])])
    {
      hide Codec.TurnOn, Codec.Parse;
      var rest := payload + chunk;
      ParseAtHeader(h, rest);
      assert Held(Partial(h, payload)) + chunk == show(h) + [0] + rest;
      if |rest| >= h.length {
        assert rest[h.length..] == chunk[h.length - |payload|..];
        assert rest[..h.length] == payload + chunk[..h.length - |payload|];
      }
    }

    /** A header that has not arrived in full is kept for the next read; but the complete text
        without its NUL is an index out of range. */
    lemma {:induction false} ParseWithinHeader(h: GDPPacketInTransit, k: nat)
      requires Lawful() && 0 < k <= |show(h)|
      ensures Parse(show(h)[..k]) ==
              if k < |show(h)| then Parsed([], Partial(DEFAULT_HEADER, show(h)[..k])) else Panic
    {
      var text := show(h)[..k];
      assert Separable(h) && ReadsBack(h) && PrefixIsMalformed(h, k);
      FirstNulAfter(text, []);
      assert text + [] == text && text[..k] == text && show(h)[..|show(h)|] == show(h);
    }

    lemma {:induction false} ParseFrameThen(f: Frame, rest: seq<byte>)
      requires Lawful()
      ensures Parse(EncodeFrame(f) + rest) == Parse(rest).After([f])
    {
      ParseAtHeader(f.header, f.payload + rest);
      assert EncodeFrame(f) + rest == show(f.header) + [0] + (f.payload + rest);
      assert (f.payload + rest)[..f.header.length] == f.payload;
      assert (f.payload + rest)[f.header.length..] == rest;
    }

    lemma {:induction false} ParseOfFrame(f: Frame)
      requires Lawful()
      ensures Parse(EncodeFrame(f)) == Parsed([f], Idle)
    {
      ParseFrameThen(f, []);
      ParseNothing();
      assert EncodeFrame(f) + [] == EncodeFrame(f);
    }

    /** Complete frames come out as they went in, and leave the parser as if it had just started. */
    lemma {:induction false} ParseFramesThen(fs: seq<Frame>, rest: seq<byte>)
      requires Lawful()
      ensures Parse(Encode(fs) + rest) == Parse(rest).After(fs)
    {
      hide Codec.Parse;
      if fs == [] {
        assert Encode(fs) + rest == rest;
      } else {
        assert Encode(fs) + rest == EncodeFrame(fs[0]) + (Encode(fs[1..]) + rest);
        ParseFrameThen(fs[0], Encode(fs[1..]) + rest);
        ParseFramesThen(fs[1..], rest);
        Parse(rest).AfterAfter([fs[0]], fs[1..]);
        assert [fs[0]] + fs[1..] == fs;
      }
    }

    lemma EncodeCons(f: Frame, fs: seq<Frame>)
      ensures Encode([f] + fs) == EncodeFrame(f) + Encode(fs)
    {
      assert ([f] + fs)[1..] == fs;
    }

    /** One frame in front, on both sides. */
    lemma AccountsForNext(f: Frame, r: Outcome, b: seq<byte>)
      requires r.Parsed?
      ensures AccountsFor(r.After([f]), EncodeFrame(f) + b) <==> AccountsFor(r, b)
      ensures Encode([f] + r.frames) == EncodeFrame(f) + Encode(r.frames)
    {
      hide Codec.EncodeFrame, Codec.Held;
      EncodeCons(f, r.frames);
      var e, known := EncodeFrame(f), Encode(r.frames) + Held(r.carry);
      assert Encode([f] + r.frames) + Held(r.carry) == e + known;
      AppendCancels(e, known, b);
    }

    lemma {:induction false} EncodeAppend(fs: seq<Frame>, gs: seq<Frame>)
      ensures Encode(fs + gs) == Encode(fs) + Encode(gs)
    {
      if fs == [] {
        assert fs + gs == gs;
      } else {
        assert (fs + gs)[1..] == fs[1..] + gs;
        EncodeAppend(fs[1..], gs);
      }
    }

    // ---- Parsing arbitrary bytes ----

    /** A turn either splits a frame off, header text, NUL and payload, and loses nothing; or it
        stops, with a state made from the whole buffer, unless a NUL byte ends a header that does
        not read, or a packet whose action is Noop is incomplete. */
    lemma {:induction false} TurnKeeps(b: seq<byte>)
      requires b != []
      ensures match TurnOn(b)
              case Crash => true
              case Stop(carry) =>
                && carry.Sane() && |Remains(b)| <= |b|
                && (Remains(b) == b <==> |Remains(b)| == |b|)
                && (Remains(b) == b <==> (carry.AwaitsHeader() ==> 0 !in b))
              case Emit(f, rest) =>
                && b == b[..FirstNul(b)] + [0] + f.payload + rest
                && read(b[..FirstNul(b)]) == Header(f.header) && 0 !in b[..FirstNul(b)]
    {
      var k := FirstNul(b);
      FirstNulIsFirst(b);
      match read(b[..k])
      case NotUtf8 =>
      case Malformed =>
        assert b[..|b|] == b;
      case Header(h) =>
        if k < |b| {
          assert b == b[..k] + [0] + b[k + 1..];
        }
    }

    /** On every input, the bytes of the frames and of the kept state are exactly the input or fewer;
        and a payload that waits is shorter than its header says. */
    lemma {:induction false} ParseAccounts(b: seq<byte>)
      requires Parse(b).Parsed?
      ensures Parse(b).carry.Sane()
      ensures Keeps(b) || Consumed(b) + |Remains(b)| < |b|
      decreases |b|
    {
      hide Codec.TurnOn;
      if b != [] {
        TurnKeeps(b);
        match TurnOn(b)
        case Crash =>
        case Stop(_) =>
        case Emit(f, rest) =>
          ParseAccounts(rest);
          KeepsNext(b);
      }
    }

    lemma {:induction false} KeepsNext(b: seq<byte>)
      requires b != [] && TurnOn(b).Emit?
      ensures b[Consumed(b)..] == TurnOn(b).rest[Consumed(TurnOn(b).rest)..]
      ensures Keeps(b) <==> Keeps(TurnOn(b).rest)
    {
      hide Codec.TurnOn, Codec.Keeps;
      var rest := TurnOn(b).rest;
      assert b[|b| - |rest|..][Consumed(rest)..] == b[Consumed(b)..];
      KeepsTail(b);
      KeepsTail(rest);
    }

    lemma {:induction false} KeepsTail(b: seq<byte>)
      ensures Keeps(b) <==> Parse(b).Parsed? && Remains(b) == b[Consumed(b)..]
    {
      hide Codec.Parse, Codec.Consumed, Codec.Remains;
      assert b[..Consumed(b)] + b[Consumed(b)..] == b;
      AppendCancels(b[..Consumed(b)], Remains(b), b[Consumed(b)..]);
    }

    /** Exactly when the parser keeps everything. */
    lemma {:induction false} ParseKeepsEverythingIff(b: seq<byte>)
      requires Parse(b).Parsed?
      ensures Keeps(b) <==> (Parse(b).carry.AwaitsHeader() ==> 0 !in b[Consumed(b)..])
      decreases |b|
    {
      hide Codec.TurnOn;
      if b != [] {
        TurnKeeps(b);
        match TurnOn(b)
        case Crash =>
        case Stop(_) =>
          assert b[0..] == b && b[..0] + Remains(b) == Remains(b);
        case Emit(_, rest) =>
          ParseKeepsEverythingIff(rest);
          KeepsNext(b);
      }
    }

    /** Where nothing is pending, parsing starts afresh. */
    lemma {:induction false} ParseAfterFrames(a: seq<byte>, b: seq<byte>)
      requires Parse(a).Parsed? && Parse(a).carry == Idle
      ensures Consumed(a) == |a| && Remains(a) == []
      ensures Parse(a + b) == Parse(b).After(Parse(a).frames)
      ensures Consumed(a + b) == |a| + Consumed(b) && Remains(a + b) == Remains(b)
      ensures Keeps(a + b) <==> Keeps(b)
      decreases |a|
    {
      hide Codec.TurnOn;
      if a == [] {
        assert a + b == b;
      } else {
        TurnKeeps(a);
        match TurnOn(a)
        case Crash =>
        case Stop(_) => TurnStopsWaiting(a);
        case Emit(f, rest) =>
          TurnGoesOn(a, b);
          ParseAfterFrames(rest, b);
          Parse(b).AfterAfter([f], Parse(rest).frames);
          KeepsNext(a + b);
      }
    }

    lemma TurnStopsWaiting(b: seq<byte>)
      requires b != [] && TurnOn(b).Stop?
      ensures TurnOn(b).carry.Partial?
    {
    }

    lemma {:induction false} TurnGoesOn(b: seq<byte>, chunk: seq<byte>)
      requires b != [] && TurnOn(b).Emit?
      ensures TurnOn(b + chunk) == Emit(TurnOn(b).frame, TurnOn(b).rest + chunk)
    {
      hide Codec.TurnOn;
      TurnKeeps(b);
      var text, f, rest := b[..FirstNul(b)], TurnOn(b).frame, TurnOn(b).rest;
      var after := f.payload + (rest + chunk);
      assert b + chunk == text + [0] + after;
      TurnAtText(text, f.header, after);
      assert after[..f.header.length] == f.payload && after[f.header.length..] == rest + chunk;
    }

    /** The frames are read from the consumed bytes, and the state stands for the remaining ones. */
    lemma {:induction false} ParseSplits(b: seq<byte>)
      requires Lawful() && Parse(b).Parsed?
      ensures Parse(b[..Consumed(b)]) == Parsed(Parse(b).frames, Idle)
      ensures StandsFor(Parse(b).carry, Remains(b))
    {
      hide *;
      FramesAreConsumed(b);
      StateStandsForRest(b);
    }

    lemma {:induction false} FramesAreConsumed(b: seq<byte>)
      requires Parse(b).Parsed?
      ensures Parse(b[..Consumed(b)]) == Parsed(Parse(b).frames, Idle)
      decreases |b|
    {
      hide Codec.TurnOn, Codec.Keeps, Codec.Remains;
      if b != [] {
        match TurnOn(b)
        case Crash =>
        case Stop(carry) =>
          assert b[..0] == [];
        case Emit(f, rest) =>
          FramesAreConsumed(rest);
          FrameOnly(b);
          var n := |b| - |rest|;
          ParseAfterFrames(b[..n], rest[..Consumed(rest)]);
          SliceInTwo(b, n, Consumed(rest));
      }
    }

    lemma {:induction false} StateStandsForRest(b: seq<byte>)
      requires Lawful() && Parse(b).Parsed?
      ensures StandsFor(Parse(b).carry, Remains(b))
      decreases |b|
    {
      hide Codec.TurnOn, Codec.StandsFor;
      if b == [] {
        ParseNothing();
      } else {
        match TurnOn(b)
        case Crash =>
        case Stop(_) => StopStandsFor(b);
        case Emit(_, rest) => StateStandsForRest(rest);
      }
    }

    lemma {:induction false} KeptStateIsSettled(b: seq<byte>)
      requires Lawful() && Keeps(b)
      ensures Settled(Parse(b).carry)
    {
      hide Codec.Parse, Codec.Consumed, Codec.Remains, Codec.Held;
      var used, held, carry := b[..Consumed(b)], Remains(b), Parse(b).carry;
      ParseSplits(b);
      ParseAfterFrames(used, held);
      assert held + [] == held && Held(carry) + [] == Held(carry);
      assert Parse(held + []) == Parse(Held(carry) + []);
      AfterIsSame(Parse(held), Parse(b).frames, carry);
    }

    lemma AfterIsSame(r: Outcome, fs: seq<Frame>, carry: Carry)
      requires r.After(fs) == Parsed(fs, carry)
      ensures r == Parsed([], carry)
    {
      assert |fs + r.frames| == |fs| + |r.frames|;
    }

    lemma {:induction false} FrameOnly(b: seq<byte>)
      requires b != [] && TurnOn(b).Emit?
      ensures Parse(b[..|b| - |TurnOn(b).rest|]) == Parsed([TurnOn(b).frame], Idle)
    {
      hide Codec.TurnOn;
      TurnKeeps(b);
      var f, text := TurnOn(b).frame, b[..FirstNul(b)];
      var own := b[..|b| - |TurnOn(b).rest|];
      assert own == text + [0] + f.payload;
      ParseAtText(text, f.header, f.payload);
      assert f.payload[f.header.length..] == [] && f.payload[..f.header.length] == f.payload;
      ParseNothing();
    }

    lemma {:induction false} StopStandsFor(b: seq<byte>)
      requires Lawful() && b != [] && TurnOn(b).Stop?
      ensures StandsFor(TurnOn(b).carry, Remains(b))
    {
      hide Codec.Parse;
      var carry := TurnOn(b).carry;
      if !carry.AwaitsHeader() {
        var k := FirstNul(b);
        FirstNulIsFirst(b);
        assert b == b[..k] + [0] + carry.payload;
        forall chunk ensures Parse(b + chunk) == Parse(Held(carry) + chunk) {
          ParseAtText(b[..k], carry.header, carry.payload + chunk);
          ParseAtHeader(carry.header, carry.payload + chunk);
          assert b + chunk == b[..k] + [0] + (carry.payload + chunk);
          assert Held(carry) + chunk == show(carry.header) + [0] + (carry.payload + chunk);
        }
      }
    }

    /** Read strictly, the frames' bytes are their encoding. */
    lemma {:induction false} ConsumedIsEncoding(a: seq<byte>)
      requires Strict() && Parse(a).Parsed? && Parse(a).carry == Idle
      ensures Encode(Parse(a).frames) == a
      decreases |a|
    {
      hide Codec.TurnOn;
      if a != [] {
        TurnKeeps(a);
        match TurnOn(a)
        case Crash =>
        case Stop(_) => TurnStopsWaiting(a);
        case Emit(f, rest) =>
          ConsumedIsEncoding(rest);
          assert ReadsOnly(a[..FirstNul(a)], f.header);
          EncodeCons(f, Parse(rest).frames);
      }
    }

    /** And the state's bytes are what remains. */
    lemma {:induction false} RemainsIsHeld(b: seq<byte>)
      requires Strict() && Parse(b).Parsed?
      ensures Remains(b) == Held(Parse(b).carry)
      decreases |b|
    {
      hide Codec.TurnOn;
      if b != [] {
        match TurnOn(b)
        case Crash =>
        case Stop(_) => StopIsHeld(b);
        case Emit(_, rest) => RemainsIsHeld(rest);
      }
    }

    lemma {:induction false} StopIsHeld(b: seq<byte>)
      requires Strict() && b != [] && TurnOn(b).Stop?
      ensures Remains(b) == Held(TurnOn(b).carry)
    {
      var k := FirstNul(b);
      FirstNulIsFirst(b);
      if read(b[..k]).Header? {
        assert ReadsOnly(b[..k], read(b[..k]).header);
        assert b == b[..k] + [0] + b[k + 1..];
      }
    }

    /** What waits for the rest of a header is what remains of the input, and it is not empty unless
        bytes were dropped. */
    lemma {:induction false} AwaitingIsBounded(b: seq<byte>)
      requires Parse(b).Parsed? && Parse(b).carry.AwaitsHeader()
      ensures Parse(b).carry.payload == Remains(b) && |Remains(b)| <= |b|
      ensures Keeps(b) ==> Remains(b) != []
      decreases |b|
    {
      hide Codec.TurnOn;
      TurnKeeps(b);
      match TurnOn(b)
      case Crash =>
      case Stop(_) =>
      case Emit(_, rest) =>
        AwaitingIsBounded(rest);
        KeepsNext(b);
    }

    // ---- Prefixes of a well-formed stream ----

    /** Where a read must not end: after a header's last byte and before its NUL, and inside a
        non-empty packet whose action is Noop. */
    predicate BadCut(fs: seq<Frame>, n: nat) {
      && fs != []
      && var text, size := |show(fs[0].header)|, |EncodeFrame(fs[0])|;
         if n < size then n == text || (n > text && fs[0].header.action == Noop)
         else BadCut(fs[1..], n - size)
    }

    /** Strictly inside the text of a header. */
    predicate InsideHeader(fs: seq<Frame>, n: nat) {
      && fs != []
      && var size := |EncodeFrame(fs[0])|;
         if n < size then 0 < n < |show(fs[0].header)| else InsideHeader(fs[1..], n - size)
    }

    /** The number of frames that lie entirely within the first n bytes. */
    function WholeFrames(fs: seq<Frame>, n: nat): (k: nat)
      ensures k <= |fs|
    {
      if fs == [] || n < |EncodeFrame(fs[0])| then 0
      else 1 + WholeFrames(fs[1..], n - |EncodeFrame(fs[0])|)
    }

    lemma {:induction false} WholeFramesBefore(fs: seq<Frame>, next: seq<Frame>, k: nat)
      requires next != [] ==> k < |EncodeFrame(next[0])|
      ensures WholeFrames(fs + next, |Encode(fs)| + k) == |fs|
    {
      hide Codec.EncodeFrame;
      if fs == [] {
        assert fs + next == next;
      } else {
        assert (fs + next)[1..] == fs[1..] + next;
        WholeFramesBefore(fs[1..], next, k);
      }
    }

    /** Parsing the first n bytes of a stream keeps them all exactly when n is not a bad cut; it then
        emits the frames that are complete. */
    lemma {:induction false} ParsePrefix(fs: seq<Frame>, n: nat)
      requires Lawful() && n <= |Encode(fs)|
      ensures var r := Parse(Encode(fs)[..n]);
              && (Keeps(Encode(fs)[..n]) <==> !BadCut(fs, n))
              && (AccountsFor(r, Encode(fs)[..n]) <==> !BadCut(fs, n))
              && (!BadCut(fs, n) ==> r.frames == fs[..WholeFrames(fs, n)])
              && (!BadCut(fs, n) ==> (r.carry.AwaitsHeader() <==> InsideHeader(fs, n)))
    {
      hide Codec.TurnOn, Codec.EncodeFrame, Codec.Keeps, Codec.Consumed, Codec.Remains;
      if fs == [] {
        ParseNothing();
      } else {
        var f, gs := fs[0], fs[1..];
        var e, b := EncodeFrame(f), Encode(fs)[..n];
        if n < |e| {
          assert b == e[..n];
          ParsePartOfFrame(f, n);
        } else {
          var m := n - |e|;
          var tail := Encode(gs)[..m];
          assert b == e + tail;
          ParseFrameThen(f, tail);
          ParseOfFrame(f);
          ParseAfterFrames(e, tail);
          ParsePrefix(gs, m);
          if Parse(tail).Parsed? {
            AccountsForNext(f, Parse(tail), tail);
          }
          assert fs[..WholeFrames(fs, n)] == [f] + gs[..WholeFrames(gs, m)];
        }
      }
    }

    /** Among frames whose action is not Noop, parsing up to a bad cut is an index out of range. */
    lemma {:induction false} ParsePanics(fs: seq<Frame>, n: nat)
      requires Lawful() && n <= |Encode(fs)|
      requires forall i | 0 <= i < |fs| :: fs[i].header.action != Noop
      ensures BadCut(fs, n) ==> Parse(Encode(fs)[..n]).Panic?
    {
      hide Codec.TurnOn;
      if BadCut(fs, n) {
        var f, e := fs[0], EncodeFrame(fs[0]);
        if n < |e| {
          assert Separable(f.header);
          assert Encode(fs)[..n] == show(f.header)[..n];
          ParseWithinHeader(f.header, n);
        } else {
          var tail := Encode(fs[1..])[..n - |e|];
          assert Encode(fs)[..n] == e + tail;
          ParseFrameThen(f, tail);
          ParsePanics(fs[1..], n - |e|);
        }
      }
    }

    lemma {:induction false} ParsePartOfFrame(f: Frame, n: nat)
      requires Lawful() && n < |EncodeFrame(f)|
      ensures var r := Parse(EncodeFrame(f)[..n]);
              && (r.Parsed? ==> r.frames == [])
              && (Keeps(EncodeFrame(f)[..n]) <==> !BadCut([f], n))
              && (AccountsFor(r, EncodeFrame(f)[..n]) <==> !BadCut([f], n))
              && (!BadCut([f], n) ==> (r.carry.AwaitsHeader() <==> InsideHeader([f], n)))
    {
      var text, b := show(f.header), EncodeFrame(f)[..n];
      assert Separable(f.header);
      if 0 < n <= |text| {
        assert b == text[..n];
        ParseWithinHeader(f.header, n);
      } else if n > |text| {
        var rest := f.payload[..n - |text| - 1];
        assert b == text + [0] + rest;
        ParseAtHeader(f.header, rest);
      }
    }
  }
}
