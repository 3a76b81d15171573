/** The inbound loop (`ipop_recv_thread`): one datagram received from a
    peer has its header region decoded, its IPv4 addresses translated when
    that is on and the sender is known, its MAC rewritten, and is written
    to the tap. */
module Inbound {
  import opened Seqs
  import opened Peers
  import opened Effects
  import opened Config

  /** One receive, through the receive override or the IPv4 datagram
      socket: a failure, or the whole receive buffer (header region then
      payload region) with the count of bytes received. */
  datatype Received = RecvFailed | Datagram(enc: Buffer, count: nat)

  /** `peerlist_get_by_id`: its result code (-1 when no peer has the id)
      and the peer it found. */
  datatype IdAnswer = IdAnswer(code: int, peer: Peer)

  /** What the world supplies to one iteration: the receive, the directory
      answer for the sender id (consulted only when translating), and the
      status the tap returns for a write whose count `write` accepts. */
  datatype InboundInput = InboundInput(recv: Received, byId: IdAnswer, writeStatus: int)

  /** The receive buffer extends past byte 14 of its payload region, the
      only payload byte the loop reads, and holds what was received; the
      count is an `int`. */
  predicate WellFormed(input: InboundInput) {
    input.recv.Datagram? ==>
      |input.recv.enc| > BufOffset + 14 && input.recv.count <= |input.recv.enc| &&
      input.recv.count <= IntMax
  }

  /** Does the tap write of `len` bytes fail? `write` receives `len`
      converted to `size_t`: a count above `SSIZE_MAX` is rejected whatever
      the device would have done; otherwise the device's status decides. */
  predicate WriteFails(len: int, writeStatus: int) {
    ToSizeT(len) > SsizeMax || writeStatus < 0
  }

  /** An iteration is fatal when the receive fails or the tap write does. */
  predicate Fatal(input: InboundInput) {
    match input.recv
    case RecvFailed => true
    case Datagram(_, count) => WriteFails(count - BufOffset, input.writeStatus)
  }

  /** The diagnostic printed when the receive fails. */
  function RecvFailure(opts: Options): Failure {
    if opts.hasRecvFunc then RecvFuncFailed else UdpRecvFailed
  }

  /** The translation of an inbound IPv4 packet maps the sending peer's
      local address to this node's local address. */
  function InboundMapping(local: LocalPeer, peer: Peer): Translation {
    Mapped(peer.localIpv4, local.localIpv4)
  }

  /** Does the loop look the sender up? IPv4 payload and translation on. */
  predicate LooksUpSender(opts: Options, buf: Buffer)
    requires |buf| > 14
  {
    HighNibble(buf[14]) == 4 && opts.translate
  }

  /** Does the loop translate? It looks the sender up and finds it. */
  predicate TranslatesInbound(opts: Options, buf: Buffer, byId: IdAnswer)
    requires |buf| > 14
  {
    LooksUpSender(opts, buf) && byId.code != -1
  }

  /** The payload region after translation, when it happens: the packet
      first, then the header copies, both with the same address pair. */
  function Translated(opts: Options, co: Collaborators, local: LocalPeer,
                      buf: Buffer, len: int, byId: IdAnswer): Buffer
    requires |buf| > 14
  {
    if TranslatesInbound(opts, buf, byId) then
      var p := byId.peer;
      co.translateHeaders(co.translatePacket(buf, InboundMapping(local, p), len),
                          p.localIpv4, local.localIpv4, len)
    else buf
  }

  /** The frame written to the tap: the payload region, translated when
      that happens, with its MAC rewritten. */
  function Written(opts: Options, co: Collaborators, local: LocalPeer,
                   buf: Buffer, len: int, byId: IdAnswer): Buffer
    requires |buf| > 14
  {
    co.updateMac(Translated(opts, co, local, buf, len, byId), opts.mac)
  }

  /** The directory lookup of the sender, when the loop makes one. */
  function SenderLookup(opts: Options, co: Collaborators, enc: Buffer): seq<Effect>
    requires |enc| > BufOffset + 14
  {
    if LooksUpSender(opts, enc[BufOffset..]) then [Resolve(ById(co.getHeaders(enc).source))] else []
  }

  /** The calls of the two translators, when they run. */
  function TranslationCalls(opts: Options, local: LocalPeer, buf: Buffer, byId: IdAnswer): seq<Effect>
    requires |buf| > 14
  {
    if TranslatesInbound(opts, buf, byId) then
      [TranslatePacket(InboundMapping(local, byId.peer)),
       TranslateHeaders(byId.peer.localIpv4, local.localIpv4)]
    else []
  }

  /** The MAC rewrite, the tap write (its length converted to `size_t`), and
      the report of a failed write. */
  function Delivery(opts: Options, co: Collaborators, local: LocalPeer,
                    buf: Buffer, len: int, byId: IdAnswer, writeStatus: int): seq<Effect>
    requires |buf| > 14
  {
    [UpdateMac(opts.mac), WriteTap(Written(opts, co, local, buf, len, byId), ToSizeT(len))]
    + (if WriteFails(len, writeStatus) then [Report(TapWriteFailed)] else [])
  }

  /** One iteration of the inbound loop. */
  function InboundStep(opts: Options, co: Collaborators, local: LocalPeer, input: InboundInput): (s: Step)
    requires WellFormed(input)
    ensures KeepsHandles(s.effects)
    ensures s.next == Stop <==> Fatal(input)
  {
    match input.recv
    case RecvFailed => Step([Report(RecvFailure(opts))], Stop)
    case Datagram(enc, count) =>
      var buf := enc[BufOffset..];
      var len := count - BufOffset;
      var effects := SenderLookup(opts, co, enc) + TranslationCalls(opts, local, buf, input.byId)
                     + Delivery(opts, co, local, buf, len, input.byId, input.writeStatus);
      Step(effects, if WriteFails(len, input.writeStatus) then Stop else Continue)
  }

  /** The iterations of the inbound loop over successive receives. */
  function InboundSteps(opts: Options, co: Collaborators, local: LocalPeer, inputs: seq<InboundInput>): (steps: seq<Step>)
    requires forall i :: 0 <= i < |inputs| ==> WellFormed(inputs[i])
    ensures |steps| == |inputs|
    ensures forall i :: 0 <= i < |inputs| ==> steps[i] == InboundStep(opts, co, local, inputs[i])
  {
    if |inputs| == 0 then []
    else [InboundStep(opts, co, local, inputs[0])] + InboundSteps(opts, co, local, inputs[1..])
  }

  /** The inbound loop over successive receives. While no iteration is
      fatal it performs every iteration and keeps running. */
  function RunInbound(opts: Options, co: Collaborators, local: LocalPeer, inputs: seq<InboundInput>): (trace: seq<Effect>)
    requires forall i :: 0 <= i < |inputs| ==> WellFormed(inputs[i])
    ensures (forall i :: 0 <= i < |inputs| ==> !Fatal(inputs[i]))
            ==> trace == Flatten(InboundSteps(opts, co, local, inputs))
  {
    RunLoop(InboundSteps(opts, co, local, inputs))
  }

  // ---------------------------------------------------------------------
  // One iteration.

  /** A received datagram's effects: the lookup and translation calls, then
      the delivery. */
  lemma DatagramEffects(opts: Options, co: Collaborators, local: LocalPeer, input: InboundInput)
    requires WellFormed(input) && input.recv.Datagram?
    ensures var enc := input.recv.enc;
            var buf := enc[BufOffset..];
            InboundStep(opts, co, local, input).effects
            == (SenderLookup(opts, co, enc) + TranslationCalls(opts, local, buf, input.byId))
               + Delivery(opts, co, local, buf, input.recv.count - BufOffset, input.byId, input.writeStatus)
  {
  }

  /** The delivery: the MAC rewrite, then one write of the frame with the
      length converted to `size_t`, then a report exactly when the write
      fails; it calls no translator and no directory. */
  lemma DeliveryParts(opts: Options, co: Collaborators, local: LocalPeer,
                      buf: Buffer, len: int, byId: IdAnswer, writeStatus: int, x: Effect)
    requires |buf| > 14
    requires x.Resolve?
    ensures var d := Delivery(opts, co, local, buf, len, byId, writeStatus);
            && |d| >= 2 && d[0] == UpdateMac(opts.mac)
            && d[1] == WriteTap(Written(opts, co, local, buf, len, byId), ToSizeT(len))
            && |d| == (if WriteFails(len, writeStatus) then 3 else 2)
            && (WriteFails(len, writeStatus) ==> d[2] == Report(TapWriteFailed))
            && Only(WriteTapKind, d) == [d[1]]
            && Only(TranslatePacketKind, d) == []
            && Only(TranslateHeadersKind, d) == []
            && Count(d, x) == 0
  {
    var d := Delivery(opts, co, local, buf, len, byId, writeStatus);
    OnlyNone(WriteTapKind, d[2..]);
    OnlyNone(TranslatePacketKind, d);
    OnlyNone(TranslateHeadersKind, d);
    assert d == [d[0], d[1]] + d[2..];
    OnlyConcat(WriteTapKind, [d[0], d[1]], d[2..]);
    assert x !in d;
  }

  lemma LookupAndTranslationParts(opts: Options, co: Collaborators, local: LocalPeer, enc: Buffer, byId: IdAnswer)
    requires |enc| > BufOffset + 14
    ensures var pre := SenderLookup(opts, co, enc) + TranslationCalls(opts, local, enc[BufOffset..], byId);
            var buf := enc[BufOffset..];
            var gate := TranslatesInbound(opts, buf, byId);
            && Only(WriteTapKind, pre) == []
            && Only(TranslatePacketKind, pre) == (if gate then [TranslatePacket(InboundMapping(local, byId.peer))] else [])
            && Only(TranslateHeadersKind, pre) == (if gate then [TranslateHeaders(byId.peer.localIpv4, local.localIpv4)] else [])
            && Count(pre, Resolve(ById(co.getHeaders(enc).source))) == (if LooksUpSender(opts, buf) then 1 else 0)
  {
    var lookup := SenderLookup(opts, co, enc);
    var translation := TranslationCalls(opts, local, enc[BufOffset..], byId);
    OnlyConcat(WriteTapKind, lookup, translation);
    OnlyConcat(TranslatePacketKind, lookup, translation);
    OnlyConcat(TranslateHeadersKind, lookup, translation);
    CountConcat(lookup, translation, Resolve(ById(co.getHeaders(enc).source)));
  }

  /** Exactly one tap write per datagram, of length `count - BUF_OFFSET`
      converted to `size_t`, carrying the payload region as translated (if
      at all) and then MAC-rewritten. */
  lemma OneWritePerDatagram(opts: Options, co: Collaborators, local: LocalPeer, input: InboundInput)
    requires WellFormed(input) && input.recv.Datagram?
    ensures Only(WriteTapKind, InboundStep(opts, co, local, input).effects)
            == [WriteTap(Written(opts, co, local, input.recv.enc[BufOffset..], input.recv.count - BufOffset, input.byId),
                         ToSizeT(input.recv.count - BufOffset))]
  {
    var enc := input.recv.enc;
    var buf := enc[BufOffset..];
    var len := input.recv.count - BufOffset;
    var pre := SenderLookup(opts, co, enc) + TranslationCalls(opts, local, buf, input.byId);
    var d := Delivery(opts, co, local, buf, len, input.byId, input.writeStatus);
    var effects := InboundStep(opts, co, local, input).effects;
    DatagramEffects(opts, co, local, input);
    assert effects == pre + d;
    LookupAndTranslationParts(opts, co, local, enc, input.byId);
    DeliveryParts(opts, co, local, buf, len, input.byId, input.writeStatus, Resolve(ById([])));
    OnlyConcat(WriteTapKind, pre, d);
    assert Only(WriteTapKind, effects) == [] + [d[1]];
  }

  /** The MAC rewrite is the effect immediately before the tap write, which
      is the last effect or, when it fails, the last but one. */
  lemma MacRewrittenJustBeforeWrite(opts: Options, co: Collaborators, local: LocalPeer, input: InboundInput)
    requires WellFormed(input) && input.recv.Datagram?
    ensures var e := InboundStep(opts, co, local, input).effects;
            var k := |e| - (if WriteFails(input.recv.count - BufOffset, input.writeStatus) then 2 else 1);
            && 1 <= k < |e|
            && e[k].WriteTap? && e[k - 1] == UpdateMac(opts.mac)
  {
    var enc := input.recv.enc;
    var buf := enc[BufOffset..];
    var len := input.recv.count - BufOffset;
    var pre := SenderLookup(opts, co, enc) + TranslationCalls(opts, local, buf, input.byId);
    var d := Delivery(opts, co, local, buf, len, input.byId, input.writeStatus);
    var e := InboundStep(opts, co, local, input).effects;
    DatagramEffects(opts, co, local, input);
    assert e == pre + d;
    DeliveryParts(opts, co, local, buf, len, input.byId, input.writeStatus, Resolve(ById([])));
    assert e[|pre|] == d[0] && e[|pre| + 1] == d[1];
  }

  /** No translation runs once the MAC has been rewritten: everything from
      the rewrite on is the delivery. */
  lemma NoTranslationAfterMac(opts: Options, co: Collaborators, local: LocalPeer, input: InboundInput)
    requires WellFormed(input) && input.recv.Datagram?
    ensures var e := InboundStep(opts, co, local, input).effects;
            var k := |e| - (if WriteFails(input.recv.count - BufOffset, input.writeStatus) then 3 else 2);
            && 0 <= k < |e| && e[k] == UpdateMac(opts.mac)
            && Only(TranslatePacketKind, e[k..]) == []
            && Only(TranslateHeadersKind, e[k..]) == []
  {
    var enc := input.recv.enc;
    var buf := enc[BufOffset..];
    var len := input.recv.count - BufOffset;
    var pre := SenderLookup(opts, co, enc) + TranslationCalls(opts, local, buf, input.byId);
    var d := Delivery(opts, co, local, buf, len, input.byId, input.writeStatus);
    var e := InboundStep(opts, co, local, input).effects;
    DatagramEffects(opts, co, local, input);
    assert e == pre + d;
    DeliveryParts(opts, co, local, buf, len, input.byId, input.writeStatus, Resolve(ById([])));
    var k := |e| - (if WriteFails(len, input.writeStatus) then 3 else 2);
    assert k == |pre|;
    assert e[k..] == d;
  }

  /** Translation gating: `translate_packet` and `translate_headers` each
      run once, with the sender's and this node's local addresses, exactly
      when the payload's version nibble is 4, translation is on, and the
      sender id is known to the directory; otherwise neither runs. The
      directory is asked about the sender only in the first two cases. */
  lemma TranslationGate(opts: Options, co: Collaborators, local: LocalPeer, input: InboundInput)
    requires WellFormed(input) && input.recv.Datagram?
    ensures var s := InboundStep(opts, co, local, input);
            var buf := input.recv.enc[BufOffset..];
            var gate := HighNibble(buf[14]) == 4 && opts.translate && input.byId.code != -1;
            var p := input.byId.peer;
            && Only(TranslatePacketKind, s.effects)
               == (if gate then [TranslatePacket(Mapped(p.localIpv4, local.localIpv4))] else [])
            && Only(TranslateHeadersKind, s.effects)
               == (if gate then [TranslateHeaders(p.localIpv4, local.localIpv4)] else [])
            && Count(s.effects, Resolve(ById(co.getHeaders(input.recv.enc).source)))
               == (if HighNibble(buf[14]) == 4 && opts.translate then 1 else 0)
  {
    var enc := input.recv.enc;
    var buf := enc[BufOffset..];
    var len := input.recv.count - BufOffset;
    var key := Resolve(ById(co.getHeaders(enc).source));
    var pre := SenderLookup(opts, co, enc) + TranslationCalls(opts, local, buf, input.byId);
    var d := Delivery(opts, co, local, buf, len, input.byId, input.writeStatus);
    var e := InboundStep(opts, co, local, input).effects;
    DatagramEffects(opts, co, local, input);
    assert e == pre + d;
    LookupAndTranslationParts(opts, co, local, enc, input.byId);
    DeliveryParts(opts, co, local, buf, len, input.byId, input.writeStatus, key);
    OnlyConcat(TranslatePacketKind, pre, d);
    OnlyConcat(TranslateHeadersKind, pre, d);
    CountConcat(pre, d, key);
    assert Only(TranslatePacketKind, e) == Only(TranslatePacketKind, pre) + [];
    assert Only(TranslateHeadersKind, e) == Only(TranslateHeadersKind, pre) + [];
    assert Count(e, key) == Count(pre, key);
  }

  /** When the gate holds, the frame written is the payload region with its
      packet translated, then its header copies, both from the sender's
      local address to this node's, and then its MAC rewritten. */
  lemma TranslatedWhenGated(opts: Options, co: Collaborators, local: LocalPeer, input: InboundInput)
    requires WellFormed(input) && input.recv.Datagram?
    requires HighNibble(input.recv.enc[BufOffset + 14]) == 4 && opts.translate && input.byId.code != -1
    ensures var buf := input.recv.enc[BufOffset..];
            var len := input.recv.count - BufOffset;
            var p := input.byId.peer;
            var packet := co.translatePacket(buf, Mapped(p.localIpv4, local.localIpv4), len);
            var headers := co.translateHeaders(packet, p.localIpv4, local.localIpv4, len);
            Only(WriteTapKind, InboundStep(opts, co, local, input).effects)
            == [WriteTap(co.updateMac(headers, opts.mac), ToSizeT(len))]
  {
    OneWritePerDatagram(opts, co, local, input);
  }

  /** A payload that is not IPv4 (or translation off, or an unknown
      sender) is written with only the MAC rewritten. */
  lemma UntranslatedUnlessGated(opts: Options, co: Collaborators, local: LocalPeer, input: InboundInput)
    requires WellFormed(input) && input.recv.Datagram?
    requires HighNibble(input.recv.enc[BufOffset + 14]) != 4 || !opts.translate || input.byId.code == -1
    ensures var s := InboundStep(opts, co, local, input);
            var buf := input.recv.enc[BufOffset..];
            && Only(WriteTapKind, s.effects)
               == [WriteTap(co.updateMac(buf, opts.mac), ToSizeT(input.recv.count - BufOffset))]
            && Only(TranslatePacketKind, s.effects) == []
            && Only(TranslateHeadersKind, s.effects) == []
  {
    OneWritePerDatagram(opts, co, local, input);
    TranslationGate(opts, co, local, input);
  }

  /** The decoded receiver id is never checked: replacing the header decoder
      by one that agrees on the sender id changes nothing. */
  lemma DestinationIdIgnored(opts: Options, co: Collaborators, local: LocalPeer, input: InboundInput,
                             decode: Buffer -> Header)
    requires WellFormed(input)
    requires forall enc :: decode(enc).source == co.getHeaders(enc).source
    ensures InboundStep(opts, co, local, input) == InboundStep(opts, co.(getHeaders := decode), local, input)
  {
  }

  /** A datagram that holds the header region is written with exactly the
      length of its payload region. */
  lemma FullDatagramWriteLength(opts: Options, co: Collaborators, local: LocalPeer, input: InboundInput)
    requires WellFormed(input) && input.recv.Datagram?
    requires input.recv.count >= BufOffset
    ensures Only(WriteTapKind, InboundStep(opts, co, local, input).effects)
            == [WriteTap(Written(opts, co, local, input.recv.enc[BufOffset..], input.recv.count - BufOffset, input.byId),
                         input.recv.count - BufOffset)]
  {
    var len := input.recv.count - BufOffset;
    assert ToSizeT(len) == len;
    OneWritePerDatagram(opts, co, local, input);
  }

  /** The length is not checked: a datagram shorter than the header region
      leaves a negative `int` length, which `write` receives as a count
      above `SSIZE_MAX`. That write is rejected and reported, and it ends
      the loop, whatever the device would have answered. */
  lemma ShortDatagramEndsLoop(opts: Options, co: Collaborators, local: LocalPeer, input: InboundInput)
    requires WellFormed(input) && input.recv.Datagram?
    requires input.recv.count < BufOffset
    ensures var s := InboundStep(opts, co, local, input);
            var wrapped := input.recv.count - BufOffset + SizeTModulus;
            && SsizeMax < wrapped
            && Only(WriteTapKind, s.effects)
               == [WriteTap(Written(opts, co, local, input.recv.enc[BufOffset..], input.recv.count - BufOffset, input.byId),
                            wrapped)]
            && |s.effects| > 0 && s.effects[|s.effects| - 1] == Report(TapWriteFailed)
            && s.next == Stop
  {
    var enc := input.recv.enc;
    var buf := enc[BufOffset..];
    var len := input.recv.count - BufOffset;
    var pre := SenderLookup(opts, co, enc) + TranslationCalls(opts, local, buf, input.byId);
    var d := Delivery(opts, co, local, buf, len, input.byId, input.writeStatus);
    var e := InboundStep(opts, co, local, input).effects;
    DatagramEffects(opts, co, local, input);
    assert e == pre + d;
    assert ToSizeT(len) == len + SizeTModulus;
    DeliveryParts(opts, co, local, buf, len, input.byId, input.writeStatus, Resolve(ById([])));
    assert e[|e| - 1] == d[2];
    OneWritePerDatagram(opts, co, local, input);
  }

  // ---------------------------------------------------------------------
  // The loop.

  /** The inbound loop ends only on a failed receive or a failed tap write;
      then, and only then, both sockets and the tap are closed, once each,
      as the last effects of the loop. */
  lemma InboundTeardown(opts: Options, co: Collaborators, local: LocalPeer, inputs: seq<InboundInput>, h: Handle)
    requires forall i :: 0 <= i < |inputs| ==> WellFormed(inputs[i])
    ensures var trace := RunInbound(opts, co, local, inputs);
            var fatal := exists i :: 0 <= i < |inputs| && Fatal(inputs[i]);
            && Count(trace, Close(h)) == (if fatal then 1 else 0)
            && (fatal ==> |trace| >= 3 && trace[|trace| - 3..] == Teardown)
  {
    var steps := InboundSteps(opts, co, local, inputs);
    TeardownOnceOnStop(steps, h);
    assert Stops(steps) <==> exists i :: 0 <= i < |inputs| && Fatal(inputs[i]) by {
      if Stops(steps) {
        var i :| 0 <= i < |steps| && steps[i].next == Stop;
        assert Fatal(inputs[i]);
      }
      if exists i :: 0 <= i < |inputs| && Fatal(inputs[i]) {
        var i :| 0 <= i < |inputs| && Fatal(inputs[i]);
        assert steps[i].next == Stop;
      }
    }
  }

  /** Datagrams are handled strictly in order: the loop performs the
      iterations of every receive up to and including the first fatal one,
      then tears down; with no fatal iteration it performs them all. */
  lemma InboundRunsUntilFatal(opts: Options, co: Collaborators, local: LocalPeer,
                              inputs: seq<InboundInput>, j: nat)
    requires forall i :: 0 <= i < |inputs| ==> WellFormed(inputs[i])
    requires j <= |inputs|
    requires forall i :: 0 <= i < j ==> !Fatal(inputs[i])
    requires j < |inputs| ==> Fatal(inputs[j])
    ensures j < |inputs| ==> RunInbound(opts, co, local, inputs)
                             == Flatten(InboundSteps(opts, co, local, inputs[..j + 1])) + Teardown
    ensures j == |inputs| ==> RunInbound(opts, co, local, inputs)
                              == Flatten(InboundSteps(opts, co, local, inputs))
  {
    var steps := InboundSteps(opts, co, local, inputs);
    RunLoopIsPrefixThenTeardown(steps, j);
    if j < |inputs| {
      assert steps[..j + 1] == InboundSteps(opts, co, local, inputs[..j + 1]);
    }
  }
}
