/**
  Reassembly of length-prefixed frames from TCP reads. The reference is one pass over the whole
  stream; the code appends each read to a buffer and peels frames off its front.
  */
module Framing {
  import opened Bytes
  import opened Protocol

  const READ_SIZE := 4096
  const TLS_RECORD: Byte := 0x16
  const MAGIC_FIRST: Byte := 0x4D

  datatype Frame = Frame(header: FrameHeader, payload: Octets)

  /** What recv() returns when it returns data. */
  type Chunk = c: Octets | 1 <= |c| <= READ_SIZE witness [0]

  // ---------------------------------------------------------------------------
  // Printing and one-pass parsing
  // ---------------------------------------------------------------------------

  function Print(f: Frame): Octets {
    EncodeHeader(f.header) + f.payload
  }

  function PrintAll(fs: seq<Frame>): Octets {
    if fs == [] then [] else Print(fs[0]) + PrintAll(fs[1..])
  }

  predicate Sendable(f: Frame) {
    AcceptableHeader(f.header) && f.header.payloadLength == |f.payload|
  }

  /** Frames read, octets left over, and whether a malformed header ended the connection. */
  datatype Parse = Parse(frames: seq<Frame>, rest: Octets, dropped: bool)

  predicate HasFrame(s: Octets) {
    DecodeHeader(s).Some? && |s| >= FRAME_HEADER_SIZE + DecodeHeader(s).value.payloadLength
  }

  function FirstSize(s: Octets): (n: nat)
    requires HasFrame(s)
    ensures FRAME_HEADER_SIZE <= n <= |s|
  {
    FRAME_HEADER_SIZE + DecodeHeader(s).value.payloadLength
  }

  function FirstFrame(s: Octets): Frame
    requires HasFrame(s)
  {
    Frame(DecodeHeader(s).value, s[FRAME_HEADER_SIZE..FirstSize(s)])
  }

  function Join(fs: seq<Frame>, p: Parse): Parse {
    Parse(fs + p.frames, p.rest, p.dropped)
  }

  function ParseAll(s: Octets): Parse
    decreases |s|
  {
    if |s| < FRAME_HEADER_SIZE then Parse([], s, false)
    else if DecodeHeader(s).None? then Parse([], s, true)
    else if !HasFrame(s) then Parse([], s, false)
    else Join([FirstFrame(s)], ParseAll(s[FirstSize(s)..]))
  }

  lemma {:induction false} FirstFramePrints(s: Octets)
    requires HasFrame(s)
    ensures Sendable(FirstFrame(s)) && Print(FirstFrame(s)) == s[..FirstSize(s)]
  {
    HeaderReprints(s);
  }

  lemma {:induction false} PrintAllFirst(f: Frame, fs: seq<Frame>)
    ensures PrintAll([f] + fs) == Print(f) + PrintAll(fs)
  {
    assert ([f] + fs)[1..] == fs;
  }

  lemma {:induction false} ParseUnfolds(s: Octets)
    ensures HasFrame(s) ==> ParseAll(s) == Join([FirstFrame(s)], ParseAll(s[FirstSize(s)..]))
    ensures !HasFrame(s) ==> ParseAll(s).frames == [] && ParseAll(s).rest == s
  {
    hide DecodeHeader;
  }

  lemma {:induction false} Reassociate(a: Octets, b: Octets, c: Octets)
    ensures (a + b) + c == a + (b + c)
  {
  }

  /** Nothing is lost: the frames read, printed again, and the rest are the input. */
  lemma {:induction false} ParseConserves(s: Octets)
    ensures PrintAll(ParseAll(s).frames) + ParseAll(s).rest == s
    decreases |s|
  {
    hide ParseAll, HasFrame, FirstFrame, FirstSize, Print;
    ParseUnfolds(s);
    if HasFrame(s) {
      var n := FirstSize(s);
      var q := ParseAll(s[n..]);
      ParseConserves(s[n..]);
      FirstFramePrints(s);
      PrintAllFirst(FirstFrame(s), q.frames);
      Reassociate(s[..n], PrintAll(q.frames), q.rest);
      assert s == s[..n] + s[n..];
    }
  }

  lemma {:induction false} PrintedIsFirst(f: Frame, tail: Octets)
    requires Sendable(f)
    ensures HasFrame(Print(f) + tail) && FirstSize(Print(f) + tail) == |Print(f)|
    ensures FirstFrame(Print(f) + tail) == f
    ensures (Print(f) + tail)[|Print(f)|..] == tail
  {
    var s := Print(f) + tail;
    assert s == EncodeHeader(f.header) + (f.payload + tail);
    HeaderReadsBack(f.header, f.payload + tail);
    assert s[FRAME_HEADER_SIZE..|Print(f)|] == f.payload;
  }

  /** Any list of sendable frames, printed, is read back as the same list. */
  lemma {:induction false} PrintedFramesReadBack(fs: seq<Frame>)
    requires forall f :: f in fs ==> Sendable(f)
    ensures ParseAll(PrintAll(fs)) == Parse(fs, [], false)
  {
    if fs != [] {
      PrintedFramesReadBack(fs[1..]);
      PrintedIsFirst(fs[0], PrintAll(fs[1..]));
      assert fs == [fs[0]] + fs[1..];
    }
  }

  lemma {:induction false} HeaderStable(a: Octets, b: Octets)
    requires |a| >= FRAME_HEADER_SIZE
    ensures DecodeHeader(a + b) == DecodeHeader(a)
  {
    var s := a + b;
    assert s[..2] == a[..2] && s[4..6] == a[4..6] && s[6..8] == a[6..8];
    assert s[8..12] == a[8..12] && s[12..16] == a[12..16] && s[16..24] == a[16..24];
  }

  lemma {:induction false} FirstFrameStable(a: Octets, b: Octets)
    requires HasFrame(a)
    ensures HasFrame(a + b) && FirstSize(a + b) == FirstSize(a) && FirstFrame(a + b) == FirstFrame(a)
    ensures (a + b)[FirstSize(a)..] == a[FirstSize(a)..] + b
  {
    HeaderStable(a, b);
    assert (a + b)[FRAME_HEADER_SIZE..FirstSize(a)] == a[FRAME_HEADER_SIZE..FirstSize(a)];
  }

  lemma {:induction false} JoinNothing(p: Parse)
    ensures Join([], p) == p
  {
    assert [] + p.frames == p.frames;
  }

  lemma {:induction false} JoinTwice(f: seq<Frame>, g: seq<Frame>, p: Parse)
    ensures Join(f, Join(g, p)) == Join(f + g, p)
  {
    assert f + (g + p.frames) == (f + g) + p.frames;
  }

  /** Parsing in two steps is parsing at once, unless the first step already dropped. */
  lemma {:induction false} ParseAppend(a: Octets, b: Octets)
    ensures !ParseAll(a).dropped ==> ParseAll(a + b) == Join(ParseAll(a).frames, ParseAll(ParseAll(a).rest + b))
    ensures ParseAll(a).dropped ==> ParseAll(a + b) == Parse(ParseAll(a).frames, ParseAll(a).rest + b, true)
    decreases |a|
  {
    if HasFrame(a) {
      var n := FirstSize(a);
      FirstFrameStable(a, b);
      ParseAppend(a[n..], b);
      if !ParseAll(a).dropped {
        JoinTwice([FirstFrame(a)], ParseAll(a[n..]).frames, ParseAll(ParseAll(a).rest + b));
      }
    } else if |a| >= FRAME_HEADER_SIZE {
      HeaderStable(a, b);
      if DecodeHeader(a).Some? {
        JoinNothing(ParseAll(a + b));
      }
    } else {
      JoinNothing(ParseAll(a + b));
    }
  }

  /** What stays in the buffer is an incomplete frame, or the connection is gone. */
  lemma {:induction false} RestIsShort(s: Octets)
    ensures !ParseAll(s).dropped ==> |ParseAll(s).rest| < FRAME_HEADER_SIZE + MAX_PAYLOAD_SIZE
    ensures |ParseAll(s).rest| <= |s|
    decreases |s|
  {
    if HasFrame(s) {
      RestIsShort(s[FirstSize(s)..]);
    }
  }

  lemma {:induction false} ParseMeans(s: Octets)
    ensures forall f :: f in ParseAll(s).frames ==> Sendable(f)
    ensures !HasFrame(ParseAll(s).rest)
    ensures ParseAll(s).dropped <==> |ParseAll(s).rest| >= FRAME_HEADER_SIZE && DecodeHeader(ParseAll(s).rest).None?
    decreases |s|
  {
    hide DecodeHeader, Sendable, FirstFrame;
    if HasFrame(s) {
      ParseMeans(s[FirstSize(s)..]);
      FirstFramePrints(s);
    }
  }

  /**
    One pass reads exactly this: as many whole frames as there are, each acceptable, and a rest
    that holds none; the connection is dropped exactly if the rest has a header that is not.
    */
  lemma {:induction false} ParseExactly(s: Octets, fs: seq<Frame>, rest: Octets, dropped: bool)
    ensures ParseAll(s) == Parse(fs, rest, dropped) <==>
            && s == PrintAll(fs) + rest && (forall f :: f in fs ==> Sendable(f)) && !HasFrame(rest)
            && (dropped <==> |rest| >= FRAME_HEADER_SIZE && DecodeHeader(rest).None?)
  {
    hide DecodeHeader, Sendable, Print;
    ParseMeans(s);
    ParseConserves(s);
    if s == PrintAll(fs) + rest && (forall f :: f in fs ==> Sendable(f)) && !HasFrame(rest) {
      PrintedFramesReadBack(fs);
      ParseAppend(PrintAll(fs), rest);
      assert [] + rest == rest;
      assert fs + [] == fs;
    }
  }

  // ---------------------------------------------------------------------------
  // The connection, one read at a time
  // ---------------------------------------------------------------------------

  /** `Failed` stands for every status that ends the worker loop. */
  datatype TlsStatus = Success | ContinueNeeded | IncompleteData | Failed

  /** What one read decrypts to. SChannel works in place, so it is no longer than a read. */
  type Plaintext = p: Octets | |p| <= READ_SIZE

  /**
    SChannel on one connection: its answer to a read, given all the reads it has been handed so
    far. A read that does not decrypt yields no octets.
    */
  datatype Tls = Tls(accept: seq<Chunk> -> TlsStatus, decrypt: seq<Chunk> -> Plaintext)

  datatype Phase = Connecting | TlsHandshake | ActiveSession

  /** `handed` are the reads SChannel has been handed; `secured` tells that its handshake is complete. */
  datatype Connection = Connection(phase: Phase, buffer: Octets, delivered: seq<Frame>, open: bool, handed: seq<Chunk>,
                                   secured: bool)

  const FRESH := Connection(Connecting, [], [], true, [], false)

  function PhaseAfter(phase: Phase, chunk: Chunk): Phase {
    if phase != Connecting then phase
    else if chunk[0] == TLS_RECORD then TlsHandshake
    else if chunk[0] == MAGIC_FIRST then ActiveSession
    else Connecting
  }

  /** A read in the handshake goes to SChannel whole, and nothing of it is kept. */
  function Handshake(tls: Tls, c: Connection, chunk: Chunk): Connection {
    var c' := c.(phase := TlsHandshake, handed := c.handed + [chunk]);
    match tls.accept(c'.handed)
    case Success => c'.(phase := ActiveSession, secured := true)
    case Failed => c'.(open := false)
    case _ => c'
  }

  /** The octets an active connection takes from a read. */
  function Incoming(tls: Tls, c: Connection, chunk: Chunk): Plaintext {
    if c.secured then tls.decrypt(c.handed + [chunk]) else chunk
  }

  /** The connection once an active read has gone to SChannel, if it goes there. */
  function Fed(c: Connection, chunk: Chunk): Connection {
    if c.secured then c.(handed := c.handed + [chunk]) else c
  }

  function Deliver(c: Connection, data: Octets): Connection {
    var p := ParseAll(c.buffer + data);
    c.(phase := ActiveSession, buffer := p.rest, delivered := c.delivered + p.frames, open := !p.dropped)
  }

  /** One read. A closed connection reads no more. */
  function Receive(tls: Tls, c: Connection, chunk: Chunk): Connection {
    if !c.open then c
    else
      match PhaseAfter(c.phase, chunk)
      case Connecting => c
      case TlsHandshake => Handshake(tls, c, chunk)
      case ActiveSession => Deliver(Fed(c, chunk), Incoming(tls, c, chunk))
  }

  function ReceiveAll(tls: Tls, c: Connection, chunks: seq<Chunk>): Connection {
    if chunks == [] then c
    else Receive(tls, ReceiveAll(tls, c, chunks[..|chunks| - 1]), chunks[|chunks| - 1])
  }

  function Concat(chunks: seq<Chunk>): Octets {
    if chunks == [] then [] else Concat(chunks[..|chunks| - 1]) + chunks[|chunks| - 1]
  }

  lemma {:induction false} ConcatStartsWithFirst(chunks: seq<Chunk>)
    requires chunks != []
    ensures Concat(chunks) != [] && Concat(chunks)[0] == chunks[0][0]
  {
    if |chunks| == 1 {
      assert chunks[..0] == [];
    } else {
      ConcatStartsWithFirst(chunks[..|chunks| - 1]);
    }
  }

  /** The state after any reads of a stream that opens with the magic is the one-pass parse. */
  lemma {:induction false} ReadsFollowParse(tls: Tls, chunks: seq<Chunk>)
    requires chunks != [] && chunks[0][0] == MAGIC_FIRST
    ensures var c, p := ReceiveAll(tls, FRESH, chunks), ParseAll(Concat(chunks));
            && c.phase == ActiveSession && !c.secured
            && c.delivered == p.frames
            && c.open == !p.dropped
            && (c.open ==> c.buffer == p.rest)
  {
    var front, last := chunks[..|chunks| - 1], chunks[|chunks| - 1];
    if front == [] {
      assert Concat(chunks) == last;
      assert [] + last == last;
    } else {
      ReadsFollowParse(tls, front);
      ParseAppend(Concat(front), last);
    }
  }

  /**
    Chunking independence: however a stream that starts with 0x4D is split into reads, the same
    frames are delivered in the same order and the connection is dropped on the same streams.
    */
  lemma {:induction false} ChunkingIndependent(tls: Tls, a: seq<Chunk>, b: seq<Chunk>)
    requires a != [] && b != [] && Concat(a) == Concat(b) && a[0][0] == MAGIC_FIRST
    ensures ReceiveAll(tls, FRESH, a).delivered == ReceiveAll(tls, FRESH, b).delivered == ParseAll(Concat(a)).frames
    ensures ReceiveAll(tls, FRESH, a).open == ReceiveAll(tls, FRESH, b).open == !ParseAll(Concat(a)).dropped
  {
    ConcatStartsWithFirst(a);
    ConcatStartsWithFirst(b);
    ReadsFollowParse(tls, a);
    ReadsFollowParse(tls, b);
  }

  /** Any two splits of a stream that opens with octet `o` deliver the same frames and drop alike. */
  ghost predicate Independent(tls: Tls, o: Byte) {
    forall a: seq<Chunk>, b: seq<Chunk> :: a != [] && b != [] && a[0][0] == o && Concat(a) == Concat(b) ==>
      && ReceiveAll(tls, FRESH, a).delivered == ReceiveAll(tls, FRESH, b).delivered
      && ReceiveAll(tls, FRESH, a).open == ReceiveAll(tls, FRESH, b).open
  }

  /** While the handshake neither completes nor fails, nothing behind a TLS record reaches the frame loop. */
  lemma {:induction false} HandshakeWaits(tls: Tls, chunks: seq<Chunk>)
    requires chunks != [] && chunks[0][0] == TLS_RECORD
    requires forall n :: 0 < n <= |chunks| ==> tls.accept(chunks[..n]) in {ContinueNeeded, IncompleteData}
    ensures ReceiveAll(tls, FRESH, chunks) == Connection(TlsHandshake, [], [], true, chunks, false)
  {
    hide ParseAll;
    var front := chunks[..|chunks| - 1];
    assert chunks == front + [chunks[|chunks| - 1]] == chunks[..|chunks|];
    if front != [] {
      forall n | 0 < n <= |front|
        ensures tls.accept(front[..n]) in {ContinueNeeded, IncompleteData}
      {
        assert front[..n] == chunks[..n];
      }
      HandshakeWaits(tls, front);
    }
  }

  /** SChannel asks for more on every read before the last of these. */
  ghost predicate Handshaking(tls: Tls, hs: seq<Chunk>) {
    && hs != [] && hs[0][0] == TLS_RECORD
    && forall n :: 0 < n < |hs| ==> tls.accept(hs[..n]) in {ContinueNeeded, IncompleteData}
  }

  lemma {:induction false} LastOfHandshake(tls: Tls, hs: seq<Chunk>)
    requires Handshaking(tls, hs)
    ensures tls.accept(hs) == Success ==>
            ReceiveAll(tls, FRESH, hs) == Connection(ActiveSession, [], [], true, hs, true)
    ensures tls.accept(hs) == Failed ==>
            ReceiveAll(tls, FRESH, hs) == Connection(TlsHandshake, [], [], false, hs, false)
  {
    hide ParseAll;
    var front := hs[..|hs| - 1];
    assert hs == front + [hs[|hs| - 1]];
    if front != [] {
      forall n | 0 < n <= |front|
        ensures tls.accept(front[..n]) in {ContinueNeeded, IncompleteData}
      {
        assert front[..n] == hs[..n];
      }
      HandshakeWaits(tls, front);
    }
  }

  /** What the reads after a handshake decrypt to, one after another. */
  function Plain(tls: Tls, hs: seq<Chunk>, data: seq<Chunk>): Octets {
    if data == [] then [] else Plain(tls, hs, data[..|data| - 1]) + tls.decrypt(hs + data)
  }

  lemma {:induction false} NothingParsed()
    ensures ParseAll([]) == Parse([], [], false)
  {
  }

  lemma {:induction false} SecuredRead(tls: Tls, c: Connection, chunk: Chunk)
    requires c.phase == ActiveSession && c.secured
    ensures var c', p := Receive(tls, c, chunk), ParseAll(c.buffer + tls.decrypt(c.handed + [chunk]));
            if !c.open then c' == c
            else c' == Connection(ActiveSession, p.rest, c.delivered + p.frames, !p.dropped, c.handed + [chunk], true)
  {
    hide ParseAll;
  }

  /** A secured connection delivers, and drops on, the one-pass parse of what its reads decrypt to. */
  lemma {:induction false} SecuredFollowsPlaintext(tls: Tls, hs: seq<Chunk>, data: seq<Chunk>)
    requires Handshaking(tls, hs) && tls.accept(hs) == Success
    ensures var c, p := ReceiveAll(tls, FRESH, hs + data), ParseAll(Plain(tls, hs, data));
            && c.phase == ActiveSession && c.secured
            && c.delivered == p.frames
            && c.open == !p.dropped
            && (c.open ==> c.buffer == p.rest && c.handed == hs + data)
  {
    hide Receive, ParseAll;
    if data == [] {
      assert hs + data == hs;
      LastOfHandshake(tls, hs);
      assert ParseAll([]) == Parse([], [], false) by { NothingParsed(); }
    } else {
      var front, last := data[..|data| - 1], data[|data| - 1];
      SecuredFollowsPlaintext(tls, hs, front);
      assert (hs + data)[..|hs + data| - 1] == hs + front;
      assert hs + front + [last] == hs + data;
      SecuredRead(tls, ReceiveAll(tls, FRESH, hs + front), last);
      ParseAppend(Plain(tls, hs, front), tls.decrypt(hs + data));
    }
  }

  /** A failed handshake closes the connection, and nothing was delivered. */
  lemma {:induction false} FailedHandshakeCloses(tls: Tls, hs: seq<Chunk>, more: seq<Chunk>)
    requires Handshaking(tls, hs) && tls.accept(hs) == Failed
    ensures !ReceiveAll(tls, FRESH, hs + more).open && ReceiveAll(tls, FRESH, hs + more).delivered == []
  {
    hide Handshake, Deliver;
    if more == [] {
      assert hs + more == hs;
      LastOfHandshake(tls, hs);
    } else {
      assert (hs + more)[..|hs + more| - 1] == hs + more[..|more| - 1];
      FailedHandshakeCloses(tls, hs, more[..|more| - 1]);
    }
  }

  /** Reads that open with neither octet, before the first that does, might as well not have come. */
  lemma {:induction false} DiscardedReads(tls: Tls, junk: seq<Chunk>, rest: seq<Chunk>)
    requires forall i :: 0 <= i < |junk| ==> junk[i][0] != MAGIC_FIRST && junk[i][0] != TLS_RECORD
    ensures ReceiveAll(tls, FRESH, junk + rest) == ReceiveAll(tls, FRESH, rest)
    decreases |junk| + |rest|
  {
    hide Handshake, Deliver;
    if rest != [] {
      assert (junk + rest)[..|junk + rest| - 1] == junk + rest[..|rest| - 1];
      DiscardedReads(tls, junk, rest[..|rest| - 1]);
    } else if junk != [] {
      assert junk + rest == junk;
      DiscardedReads(tls, junk[..|junk| - 1], []);
      assert junk[..|junk| - 1] + [] == junk[..|junk| - 1];
    }
  }

  lemma {:induction false} MagicFirst(h: FrameHeader)
    requires h.magic == PROTOCOL_MAGIC
    ensures EncodeHeader(h)[0] == MAGIC_FIRST
  {
    assert BigEndian(PROTOCOL_MAGIC, 2) == BigEndian(0x4D, 1) + [0x55];
    assert BigEndian(0x4D, 1) == BigEndian(0, 0) + [0x4D];
  }

  lemma {:induction false} PrintedStarts(f: Frame)
    requires Sendable(f)
    ensures Print(f) != [] && Print(f)[0] == MAGIC_FIRST
  {
    MagicFirst(f.header);
  }

  lemma {:induction false} FirstReadDelivers(tls: Tls, f: Frame)
    requires Sendable(f) && |Print(f)| < READ_SIZE
    ensures Print(f) != [] && Receive(tls, FRESH, Print(f)).delivered == [f]
  {
    hide ParseAll, Print;
    PrintedStarts(f);
    PrintedFramesReadBack([f]);
    assert PrintAll([f]) == Print(f) + [] == Print(f);
    assert [] + Print(f) == Print(f);
  }

  const PING := Frame(DEFAULT_HEADER.(messageType := 0x00E0), [])

  lemma {:induction false} SmallFrame()
    ensures Sendable(PING) && 0 < |Print(PING)| < READ_SIZE
  {
  }

  lemma {:induction false} Discarded(tls: Tls, chunk: Chunk)
    requires chunk[0] != MAGIC_FIRST && chunk[0] != TLS_RECORD
    ensures Receive(tls, FRESH, chunk) == FRESH
  {
  }

  /** Any other first octet is discarded with its read, so one split loses a frame the other delivers. */
  lemma {:induction false} OtherStreamsDependOnChunking(tls: Tls, o: Byte, f: Frame)
    requires o != MAGIC_FIRST && o != TLS_RECORD
    requires Sendable(f) && |Print(f)| < READ_SIZE
    ensures Concat([[o] + Print(f)]) == Concat([[o], Print(f)])
    ensures ReceiveAll(tls, FRESH, [[o] + Print(f)]).delivered == []
    ensures ReceiveAll(tls, FRESH, [[o], Print(f)]).delivered == [f]
  {
    hide ParseAll, EncodeHeader, Print, Receive;
    var whole: Chunk := [o] + Print(f);
    var head: Chunk := [o];
    PrintedStarts(f);
    var tail: Chunk := Print(f);
    assert [whole][..0] == [] && [head][..0] == [] && [head, tail][..1] == [head];
    assert Concat([whole]) == whole && Concat([head]) == head;
    Discarded(tls, whole);
    Discarded(tls, head);
    FirstReadDelivers(tls, f);
  }

  lemma {:induction false} OthersDepend(tls: Tls, o: Byte)
    requires o != MAGIC_FIRST && o != TLS_RECORD
    ensures !Independent(tls, o)
  {
    hide ParseAll, ReceiveAll, Concat, Sendable, Print;
    SmallFrame();
    OtherStreamsDependOnChunking(tls, o, PING);
    var whole: seq<Chunk>, split: seq<Chunk> := [[o] + Print(PING)], [[o], Print(PING)];
    assert whole[0][0] == o;
    assert ReceiveAll(tls, FRESH, whole).delivered != ReceiveAll(tls, FRESH, split).delivered;
  }

  /** A handshake that goes on after a whole record but rejects a read of a single octet. */
  const PICKY :=
    Tls((handed: seq<Chunk>) => if |handed| > 0 && |handed[0]| == 1 then Failed else ContinueNeeded, _ => [])

  /** A handshake that never comes to an end. */
  const ENDLESS := Tls(_ => ContinueNeeded, _ => [])

  /** A read is handed to SChannel alone, so the split of the first TLS record can decide the handshake. */
  lemma {:induction false} HandshakeDependsOnChunking()
    ensures !Independent(PICKY, TLS_RECORD)
  {
    hide ParseAll;
    var head: Chunk, tail: Chunk, whole: Chunk := [TLS_RECORD], [0x03], [TLS_RECORD, 0x03];
    assert [whole][..0] == [] && [head][..0] == [] && [head, tail][..1] == [head];
    assert Concat([whole]) == whole == Concat([head, tail]) by {
      assert Concat([head]) == head;
    }
    assert ReceiveAll(PICKY, FRESH, [head]) == Receive(PICKY, FRESH, head);
    assert ([] + [head])[0] == head && ([] + [whole])[0] == whole;
    assert !ReceiveAll(PICKY, FRESH, [head, tail]).open;
    assert ReceiveAll(PICKY, FRESH, [whole]).open;
  }

  lemma {:induction false} EndlessIsIndependent()
    ensures Independent(ENDLESS, TLS_RECORD)
  {
    hide ReceiveAll, Concat;
    forall a: seq<Chunk>, b: seq<Chunk> | a != [] && b != [] && a[0][0] == TLS_RECORD && Concat(a) == Concat(b)
      ensures ReceiveAll(ENDLESS, FRESH, a).delivered == ReceiveAll(ENDLESS, FRESH, b).delivered
      ensures ReceiveAll(ENDLESS, FRESH, a).open == ReceiveAll(ENDLESS, FRESH, b).open
    {
      ConcatStartsWithFirst(a);
      ConcatStartsWithFirst(b);
      HandshakeWaits(ENDLESS, a);
      HandshakeWaits(ENDLESS, b);
    }
  }

  lemma {:induction false} MagicIsIndependent(tls: Tls)
    ensures Independent(tls, MAGIC_FIRST)
  {
    hide ReceiveAll, Concat, ParseAll;
    forall a: seq<Chunk>, b: seq<Chunk> | a != [] && b != [] && a[0][0] == MAGIC_FIRST && Concat(a) == Concat(b)
      ensures ReceiveAll(tls, FRESH, a).delivered == ReceiveAll(tls, FRESH, b).delivered
      ensures ReceiveAll(tls, FRESH, a).open == ReceiveAll(tls, FRESH, b).open
    {
      ChunkingIndependent(tls, a, b);
    }
  }

  /**
    Of the 256 first octets only the frame magic makes chunking irrelevant whatever SChannel does.
    For a TLS record it depends on SChannel, and for any other octet chunking always matters.
    */
  lemma {:induction false} IndependentExactly(o: Byte)
    ensures (forall tls :: Independent(tls, o)) <==> o == MAGIC_FIRST
    ensures (exists tls :: Independent(tls, o)) <==> o == MAGIC_FIRST || o == TLS_RECORD
  {
    hide Independent;
    if o == MAGIC_FIRST {
      forall tls
        ensures Independent(tls, o)
      {
        MagicIsIndependent(tls);
      }
      assert Independent(ENDLESS, o);
    } else if o == TLS_RECORD {
      HandshakeDependsOnChunking();
      EndlessIsIndependent();
    } else {
      forall tls
        ensures !Independent(tls, o)
      {
        OthersDepend(tls, o);
      }
      assert !Independent(ENDLESS, o);
    }
  }

  /** Octets handed to the frame loop: everything read, or decrypted, in the active phase before a drop. */
  function Taken(tls: Tls, c: Connection, chunks: seq<Chunk>): Octets {
    if chunks == [] then []
    else
      var front, last := chunks[..|chunks| - 1], chunks[|chunks| - 1];
      var before := ReceiveAll(tls, c, front);
      Taken(tls, c, front) +
      if before.open && PhaseAfter(before.phase, last) == ActiveSession then Incoming(tls, before, last) else []
  }

  lemma {:induction false} PrintAllConcat(a: seq<Frame>, b: seq<Frame>)
    ensures PrintAll(a + b) == PrintAll(a) + PrintAll(b)
  {
    if a == [] {
      assert a + b == b;
    } else {
      assert (a + b)[1..] == a[1..] + b;
      PrintAllConcat(a[1..], b);
    }
  }

  lemma {:induction false} DeliverConserves(c: Connection, data: Plaintext, taken: Octets)
    requires PrintAll(c.delivered) + c.buffer == taken && |c.buffer| <= 4119
    ensures PrintAll(Deliver(c, data).delivered) + Deliver(c, data).buffer == taken + data
    ensures |Deliver(c, data).buffer| <= if Deliver(c, data).open then 4119 else 8215
  {
    var full := c.buffer + data;
    var p := ParseAll(full);
    ParseConserves(full);
    RestIsShort(full);
    PrintAllConcat(c.delivered, p.frames);
    Reassociate(PrintAll(c.delivered), PrintAll(p.frames), p.rest);
    Reassociate(PrintAll(c.delivered), c.buffer, data);
  }

  lemma {:induction false} NothingPrinted()
    ensures PrintAll([]) == []
  {
  }

  lemma {:induction false} ClosedRead(tls: Tls, c: Connection, chunk: Chunk)
    requires !c.open
    ensures Receive(tls, c, chunk) == c
  {
  }

  lemma {:induction false} ActiveRead(tls: Tls, c: Connection, chunk: Chunk)
    requires c.open
    ensures PhaseAfter(c.phase, chunk) == ActiveSession ==>
            && Receive(tls, c, chunk) == Deliver(Fed(c, chunk), Incoming(tls, c, chunk))
            && Fed(c, chunk).(handed := c.handed) == c
    ensures PhaseAfter(c.phase, chunk) != ActiveSession ==>
            Receive(tls, c, chunk).delivered == c.delivered && Receive(tls, c, chunk).buffer == c.buffer
  {
    hide ParseAll;
  }

  /**
    Conservation and bounds, for every sequence of reads whatever its first octet and whatever
    SChannel does: the delivered frames printed again, followed by the buffer, are the octets
    taken; between reads an open connection buffers at most 4119 octets, so a read never takes the
    buffer above 8215.
    */
  lemma {:induction false} ReadsConserve(tls: Tls, chunks: seq<Chunk>)
    ensures var c := ReceiveAll(tls, FRESH, chunks);
            && PrintAll(c.delivered) + c.buffer == Taken(tls, FRESH, chunks)
            && |c.buffer| <= if c.open then 4119 else 8215
  {
    hide Receive, Deliver, Incoming, Fed, PhaseAfter, PrintAll;
    if chunks == [] {
      assert PrintAll([]) == [] by { NothingPrinted(); }
    } else {
      var front, last := chunks[..|chunks| - 1], chunks[|chunks| - 1];
      var before := ReceiveAll(tls, FRESH, front);
      ReadsConserve(tls, front);
      if before.open {
        ActiveRead(tls, before, last);
        if PhaseAfter(before.phase, last) == ActiveSession {
          DeliverConserves(Fed(before, last), Incoming(tls, before, last), Taken(tls, FRESH, front));
        }
      } else {
        ClosedRead(tls, before, last);
      }
    }
  }

  /** On a stream that opens with the magic, an open connection has taken every octet received. */
  lemma {:induction false} OpenTakesEverything(tls: Tls, chunks: seq<Chunk>)
    requires chunks != [] && chunks[0][0] == MAGIC_FIRST && ReceiveAll(tls, FRESH, chunks).open
    ensures Taken(tls, FRESH, chunks) == Concat(chunks)
  {
    var front := chunks[..|chunks| - 1];
    if front != [] {
      OpenTakesEverything(tls, front);
      ReadsFollowParse(tls, front);
    }
  }

  // ---------------------------------------------------------------------------
  // The code
  // ---------------------------------------------------------------------------

  method AssembleFrame(header: FrameHeader, payload: Octets) returns (fullFrame: Octets)
    ensures fullFrame == Print(Frame(header, payload))
  {
    var headerBytes := SerializeFrameHeader(header);
    fullFrame := headerBytes;
    if payload != [] {
      fullFrame := fullFrame + payload;
    }
  }

  lemma {:induction false} AcceptedLength(s: Octets)
    ensures DecodeHeader(s).Some? ==> DecodeHeader(s).value.payloadLength <= MAX_PAYLOAD_SIZE
  {
  }

  datatype Next = Malformed | Incomplete | Complete(frame: Frame, size: nat)

  /** Looks at the front of the receive buffer, which holds at least a header. */
  method NextFrame(buffer: Octets) returns (next: Next)
    requires |buffer| >= FRAME_HEADER_SIZE
    ensures next.Malformed? ==> ParseAll(buffer) == Parse([], buffer, true)
    ensures next.Incomplete? ==> ParseAll(buffer) == Parse([], buffer, false)
    ensures next.Complete? ==> FRAME_HEADER_SIZE <= next.size <= |buffer|
    ensures next.Complete? ==> ParseAll(buffer) == Join([next.frame], ParseAll(buffer[next.size..]))
  {
    hide DecodeHeader;
    AcceptedLength(buffer);
    var headerResult := DeserializeFrameHeader(buffer);
    if headerResult.None? || headerResult.value.payloadLength > MAX_PAYLOAD_SIZE {
      return Malformed;
    }
    var header := headerResult.value;
    var totalMessageLen := FRAME_HEADER_SIZE + header.payloadLength;
    if |buffer| < totalMessageLen {
      return Incomplete;
    }
    return Complete(Frame(header, buffer[FRAME_HEADER_SIZE..totalMessageLen]), totalMessageLen);
  }

  lemma {:induction false} ShortBuffer(s: Octets)
    ensures |s| < FRAME_HEADER_SIZE ==> ParseAll(s) == Parse([], s, false)
  {
  }

  class ClientSession {
    const tls: Tls
    var state: Phase
    var receiveBuffer: Octets
    var delivered: seq<Frame>
    var socketOpen: bool
    var handed: seq<Chunk>
    var handshakeComplete: bool

    ghost function View(): Connection
      reads this
    {
      Connection(state, receiveBuffer, delivered, socketOpen, handed, handshakeComplete)
    }

    constructor (tls: Tls)
      ensures View() == FRESH && this.tls == tls
    {
      this.tls := tls;
      state, receiveBuffer, delivered, socketOpen := Connecting, [], [], true;
      handed, handshakeComplete := [], false;
    }

    /** The inner loop: peel complete frames off the front of the receive buffer. */
    method DeliverFrames()
      requires socketOpen
      modifies this`receiveBuffer, this`delivered, this`socketOpen
      ensures var p := ParseAll(old(receiveBuffer));
              receiveBuffer == p.rest && delivered == old(delivered) + p.frames && socketOpen == !p.dropped
    {
      hide ParseAll;
      ghost var full, start := receiveBuffer, delivered;
      ghost var done: seq<Frame> := [];
      JoinNothing(ParseAll(full));
      while |receiveBuffer| >= FRAME_HEADER_SIZE
        invariant socketOpen
        invariant delivered == start + done
        invariant ParseAll(full) == Join(done, ParseAll(receiveBuffer))
        decreases |receiveBuffer|
      {
        var next := NextFrame(receiveBuffer);
        if next.Malformed? {
          socketOpen := false;
          break;
        }
        if next.Incomplete? {
          break;
        }
        delivered := delivered + [next.frame];
        JoinTwice(done, [next.frame], ParseAll(receiveBuffer[next.size..]));
        done := done + [next.frame];
        receiveBuffer := receiveBuffer[next.size..];
      }
      ShortBuffer(receiveBuffer);
      assert done + [] == done;
    }

    /** The handshake branch: whatever SChannel does not consume of the read is gone. */
    method AcceptHandshake(rawBuffer: Chunk)
      requires socketOpen && state == TlsHandshake
      modifies this`state, this`socketOpen, this`handed, this`handshakeComplete
      ensures View() == Handshake(tls, old(View()), rawBuffer)
    {
      handed := handed + [rawBuffer];
      var status := tls.accept(handed);
      if status == Success {
        handshakeComplete := true;
        state := ActiveSession;
      } else if status == Failed {
        socketOpen := false;
      }
    }

    /** One pass of the worker loop after a successful recv(). */
    method OnRead(rawBuffer: Chunk)
      requires socketOpen
      modifies this
      ensures View() == Receive(tls, old(View()), rawBuffer)
    {
      if state == Connecting {
        if rawBuffer[0] == TLS_RECORD {
          state := TlsHandshake;
        } else if rawBuffer[0] == MAGIC_FIRST {
          state := ActiveSession;
        }
      }
      if state == TlsHandshake {
        AcceptHandshake(rawBuffer);
      } else if state == ActiveSession {
        if handshakeComplete {
          handed := handed + [rawBuffer];
          var plainData := tls.decrypt(handed);
          receiveBuffer := receiveBuffer + plainData;
        } else {
          receiveBuffer := receiveBuffer + rawBuffer;
        }
        DeliverFrames();
      }
    }
  }

  const IDLE_MS := 30_000
  const TICK_WRAP := 0x1_0000_0000

  /** What a call of recv() comes back with, and the tick counter then. */
  datatype Arrival = Data(chunk: Chunk, at: U32) | TimedOut(at: U32) | Ended

  /** The reads before the connection ends or has been silent for more than thirty seconds. */
  function Heard(arrivals: seq<Arrival>, lastActive: U32): seq<Chunk> {
    if arrivals == [] then []
    else
      match arrivals[0]
      case Data(chunk, at) => [chunk] + Heard(arrivals[1..], at)
      case TimedOut(at) => if (at - lastActive) % TICK_WRAP > IDLE_MS then [] else Heard(arrivals[1..], lastActive)
      case Ended => []
  }

  /** The tick counter at the last read before call `i`. */
  function ActiveBefore(arrivals: seq<Arrival>, connectedAt: U32, i: nat): U32
    requires i <= |arrivals|
  {
    if i == 0 then connectedAt
    else if arrivals[i - 1].Data? then arrivals[i - 1].at
    else ActiveBefore(arrivals, connectedAt, i - 1)
  }

  /** Call `i` ends the loop: an error, or a timeout more than thirty seconds after the last read. */
  predicate StopsAt(arrivals: seq<Arrival>, connectedAt: U32, i: nat)
    requires i < |arrivals|
  {
    var a := arrivals[i];
    a.Ended? || (a.TimedOut? && (a.at - ActiveBefore(arrivals, connectedAt, i)) % TICK_WRAP > 30_000)
  }

  function Reads(arrivals: seq<Arrival>): seq<Chunk> {
    if arrivals == [] then []
    else Reads(arrivals[..|arrivals| - 1]) + if arrivals[|arrivals| - 1].Data? then [arrivals[|arrivals| - 1].chunk]
      else []
  }

  lemma {:induction false} ActiveShifts(arrivals: seq<Arrival>, connectedAt: U32, i: nat)
    requires arrivals != [] && i < |arrivals|
    ensures var first := if arrivals[0].Data? then arrivals[0].at else connectedAt;
            ActiveBefore(arrivals, connectedAt, i + 1) == ActiveBefore(arrivals[1..], first, i)
  {
    if i > 0 {
      ActiveShifts(arrivals, connectedAt, i - 1);
      assert arrivals[1..][i - 1] == arrivals[i];
    }
  }

  lemma {:induction false} ReadsFirst(arrivals: seq<Arrival>)
    requires arrivals != []
    ensures Reads(arrivals) == (if arrivals[0].Data? then [arrivals[0].chunk] else []) + Reads(arrivals[1..])
  {
    if |arrivals| == 1 {
      assert arrivals[..0] == arrivals[1..] == [];
    } else {
      var front := arrivals[..|arrivals| - 1];
      ReadsFirst(front);
      assert front[1..] == arrivals[1..][..|arrivals| - 2];
    }
  }

  /** The reads heard are exactly those before the first call that ends the loop. */
  lemma {:induction false} HeardExactly(arrivals: seq<Arrival>, connectedAt: U32, n: nat)
    requires n <= |arrivals| && (forall i :: 0 <= i < n ==> !StopsAt(arrivals, connectedAt, i))
    requires n < |arrivals| ==> StopsAt(arrivals, connectedAt, n)
    ensures Heard(arrivals, connectedAt) == Reads(arrivals[..n])
  {
    if n == 0 {
      assert arrivals[..0] == [];
    } else {
      var first := if arrivals[0].Data? then arrivals[0].at else connectedAt;
      var rest := arrivals[1..];
      assert !StopsAt(arrivals, connectedAt, 0);
      forall i | 0 <= i < |rest|
        ensures StopsAt(rest, first, i) <==> StopsAt(arrivals, connectedAt, i + 1)
      {
        ActiveShifts(arrivals, connectedAt, i);
      }
      HeardExactly(rest, first, n - 1);
      ReadsFirst(arrivals[..n]);
      assert arrivals[..n][1..] == rest[..n - 1];
    }
  }

  lemma {:induction false} ClosedStaysClosed(tls: Tls, incoming: seq<Chunk>, i: nat)
    requires i <= |incoming|
    requires i == |incoming| || !ReceiveAll(tls, FRESH, incoming[..i]).open
    ensures ReceiveAll(tls, FRESH, incoming) == ReceiveAll(tls, FRESH, incoming[..i])
    decreases |incoming|
  {
    if i == |incoming| {
      assert incoming[..i] == incoming;
    } else {
      var front := incoming[..|incoming| - 1];
      assert front[..i] == incoming[..i];
      ClosedStaysClosed(tls, front, i);
    }
  }

  /** The worker loop over what recv() comes back with; `connectedAt` is the tick counter on accept. */
  method ClientWorkerLoop(tls: Tls, arrivals: seq<Arrival>, connectedAt: U32)
    returns (delivered: seq<Frame>, dropped: bool)
    ensures delivered == ReceiveAll(tls, FRESH, Heard(arrivals, connectedAt)).delivered
    ensures dropped == !ReceiveAll(tls, FRESH, Heard(arrivals, connectedAt)).open
  {
    hide Receive;
    var session := new ClientSession(tls);
    var lastActive := connectedAt;
    var i := 0;
    ghost var done: seq<Chunk> := [];
    ghost var all := Heard(arrivals, connectedAt);
    ghost var left := all;
    while i < |arrivals| && session.socketOpen
      invariant i <= |arrivals| && left == Heard(arrivals[i..], lastActive) && all == done + left
      invariant session.tls == tls && session.View() == ReceiveAll(tls, FRESH, done)
      invariant fresh(session)
      decreases |arrivals| - i
    {
      assert arrivals[i..][1..] == arrivals[i + 1..];
      if arrivals[i].Ended? {
        left := [];
        break;
      }
      if arrivals[i].TimedOut? {
        if (arrivals[i].at - lastActive) % TICK_WRAP > IDLE_MS {
          left := [];
          break;
        }
        i := i + 1;
        continue;
      }
      var chunk := arrivals[i].chunk;
      lastActive := arrivals[i].at;
      assert (done + [chunk])[..|done|] == done;
      assert done + left == (done + [chunk]) + left[1..];
      session.OnRead(chunk);
      done, left := done + [chunk], left[1..];
      i := i + 1;
    }
    assert session.socketOpen ==> left == [];
    assert all[..|done|] == done;
    ClosedStaysClosed(tls, all, |done|);
    return session.delivered, !session.socketOpen;
  }
}
