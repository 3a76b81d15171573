/** The outbound loop (`ipop_send_thread`): one frame read from the tap is
    answered locally (ARP request), dropped (unknown IP version), or sent
    to every peer the directory matches for its destination address. */
module Outbound {
  import opened Seqs
  import opened Peers
  import opened Effects
  import opened Config
  import opened Frame

  /** One read from the tap. `ReadFrame` carries the whole payload region
      of the buffer after the read, the count `read` returned, and the
      answers the directory will give for this frame. */
  datatype TapRead =
    | ReadFailed
    | ReadFrame(buf: Buffer, count: nat, rounds: seq<Round>)

  /** Is the frame one the loop forwards to peers? */
  predicate IsIpFrame(buf: Buffer)
    requires |buf| >= MinView
  {
    Classify(buf).Ipv4? || Classify(buf).Ipv6?
  }

  /** What a read can deliver: a buffer long enough for the classifier, a
      count within it, and, for an IP frame, a directory that eventually
      answers -1 or 0. */
  predicate WellFormed(r: TapRead) {
    r.ReadFrame? ==>
      |r.buf| >= MinView && r.count <= |r.buf| &&
      (IsIpFrame(r.buf) ==> Ends(r.rounds))
  }

  /** Translation is applied to outbound frames that are IPv4 when the
      option is on; IPv6 frames are never translated. */
  predicate Translates(opts: Options, key: LookupKey) {
    key.ByIpv4? && opts.translate
  }

  /** The transport of one copy: the send override when one is set,
      otherwise the datagram socket to the peer's address and port. */
  function RouteTo(opts: Options, peer: Peer): (r: Route)
    ensures r.ViaSendFunc? <==> opts.hasSendFunc
    ensures r.ViaSocket? ==> r.addr == peer.destIpv4 && r.port == peer.port
  {
    if opts.hasSendFunc then ViaSendFunc else ViaSocket(peer.destIpv4, peer.port)
  }

  /** The diagnostic printed when a copy cannot be sent. */
  function SendFailure(opts: Options): Failure {
    if opts.hasSendFunc then SendFuncFailed else SendToFailed
  }

  /** The buffer after the translation of one matched round (if any). */
  function AfterTranslation(opts: Options, co: Collaborators, key: LookupKey, buf: Buffer, count: nat): Buffer {
    if Translates(opts, key) then co.translatePacket(buf, Unmapped, count) else buf
  }

  /** The buffer after `n` in-place translations. */
  function TranslatedTimes(co: Collaborators, buf: Buffer, count: nat, n: nat): Buffer
    decreases n
  {
    if n == 0 then buf else TranslatedTimes(co, co.translatePacket(buf, Unmapped, count), count, n - 1)
  }

  /** The effects for one matched peer: the optional in-place translation,
      the send of the whole encapsulated buffer, and the report of a failed
      send. */
  function SendToMatch(opts: Options, co: Collaborators, local: LocalPeer, key: LookupKey,
                       buf: Buffer, count: nat, r: Round): seq<Effect>
  {
    (if Translates(opts, key) then [TranslatePacket(Unmapped)] else [])
    + [Send(RouteTo(opts, r.peer), Header(local.id, r.peer.id),
            AfterTranslation(opts, co, key, buf, count), count + BufOffset)]
    + (if r.sent < 0 then [Report(SendFailure(opts))] else [])
  }

  /** The lookup loop after `peerlist_reset_iterators`: ask the directory,
      stop on -1, otherwise send, and stop after a 0. */
  function FanOut(opts: Options, co: Collaborators, local: LocalPeer, key: LookupKey,
                  buf: Buffer, count: nat, rounds: seq<Round>): (effects: seq<Effect>)
    requires Ends(rounds)
    ensures |effects| > 0 && effects[0] == Resolve(key)
    decreases |rounds|
  {
    var r := rounds[0];
    if r.code == -1 then [Resolve(key)]
    else
      var here := [Resolve(key)] + SendToMatch(opts, co, local, key, buf, count, r);
      if r.code == 0 then here
      else
        here + FanOut(opts, co, local, key, AfterTranslation(opts, co, key, buf, count), count, rounds[1..])
  }

  /** The fan-out neither writes to the tap nor releases a handle. */
  lemma {:induction false} FanOutOnlyForwards(opts: Options, co: Collaborators, local: LocalPeer, key: LookupKey,
                                              buf: Buffer, count: nat, rounds: seq<Round>)
    requires Ends(rounds)
    ensures KeepsHandles(FanOut(opts, co, local, key, buf, count, rounds))
    ensures forall i :: 0 <= i < |FanOut(opts, co, local, key, buf, count, rounds)|
              ==> !FanOut(opts, co, local, key, buf, count, rounds)[i].WriteTap?
    decreases |rounds|
  {
    var r := rounds[0];
    if r.code != -1 {
      var here := [Resolve(key)] + SendToMatch(opts, co, local, key, buf, count, r);
      if r.code != 0 {
        var buf' := AfterTranslation(opts, co, key, buf, count);
        var rest := FanOut(opts, co, local, key, buf', count, rounds[1..]);
        FanOutOnlyForwards(opts, co, local, key, buf', count, rounds[1..]);
        KeepsHandlesConcat(here, rest);
        assert forall i :: 0 <= i < |here + rest| ==> (here + rest)[i] == if i < |here| then here[i] else rest[i - |here|];
      }
    }
  }

  /** One iteration of the outbound loop. */
  function OutboundStep(opts: Options, co: Collaborators, local: LocalPeer, input: TapRead): (s: Step)
    requires WellFormed(input)
    ensures KeepsHandles(s.effects)
    ensures s.next == Stop <==> input.ReadFailed?
  {
    match input
    case ReadFailed => Step([Report(TapReadFailed)], Stop)
    case ReadFrame(buf, count, rounds) =>
      match Classify(buf)
      case ArpRequest =>
        var answer := co.createArpResponse(buf);
        if answer.status == 0 then Step([WriteTap(answer.frame, count)], Continue)
        else Step([Drop(NoArpResponse)], Continue)
      case UnknownType(n) => Step([Drop(UnknownIpType(n))], Continue)
      case Ipv4(addr) =>
        FanOutOnlyForwards(opts, co, local, ByIpv4(addr), buf, count, rounds);
        KeepsHandlesConcat([ResetIterators], FanOut(opts, co, local, ByIpv4(addr), buf, count, rounds));
        Step([ResetIterators] + FanOut(opts, co, local, ByIpv4(addr), buf, count, rounds), Continue)
      case Ipv6(addr) =>
        FanOutOnlyForwards(opts, co, local, ByIpv6(addr), buf, count, rounds);
        KeepsHandlesConcat([ResetIterators], FanOut(opts, co, local, ByIpv6(addr), buf, count, rounds));
        Step([ResetIterators] + FanOut(opts, co, local, ByIpv6(addr), buf, count, rounds), Continue)
  }

  /** The iterations of the outbound loop over successive reads. */
  function OutboundSteps(opts: Options, co: Collaborators, local: LocalPeer, inputs: seq<TapRead>): (steps: seq<Step>)
    requires forall i :: 0 <= i < |inputs| ==> WellFormed(inputs[i])
    ensures |steps| == |inputs|
    ensures forall i :: 0 <= i < |inputs| ==> steps[i] == OutboundStep(opts, co, local, inputs[i])
  {
    if |inputs| == 0 then []
    else [OutboundStep(opts, co, local, inputs[0])] + OutboundSteps(opts, co, local, inputs[1..])
  }

  /** The outbound loop over successive reads. While every read succeeds
      it performs every iteration and keeps running. */
  function RunOutbound(opts: Options, co: Collaborators, local: LocalPeer, inputs: seq<TapRead>): (trace: seq<Effect>)
    requires forall i :: 0 <= i < |inputs| ==> WellFormed(inputs[i])
    ensures (forall i :: 0 <= i < |inputs| ==> inputs[i].ReadFrame?)
            ==> trace == Flatten(OutboundSteps(opts, co, local, inputs))
  {
    RunLoop(OutboundSteps(opts, co, local, inputs))
  }

  // ---------------------------------------------------------------------
  // The fan-out protocol.

  /** The payload region carried by the copy for the `k`-th match (from 0):
      translation happens in place once per match, so the `k`-th copy has
      been through it `k + 1` times; without translation it is the frame
      as read. */
  function PayloadOfMatch(opts: Options, co: Collaborators, key: LookupKey, buf: Buffer, count: nat, k: nat): Buffer {
    if Translates(opts, key) then TranslatedTimes(co, buf, count, k + 1) else buf
  }

  /** The copy the loop sends to the `k`-th matched peer. */
  function CopyFor(opts: Options, co: Collaborators, local: LocalPeer, key: LookupKey,
                   buf: Buffer, count: nat, rounds: seq<Round>, k: nat): Effect
    requires k < |rounds|
  {
    Send(RouteTo(opts, rounds[k].peer), Header(local.id, rounds[k].peer.id),
         PayloadOfMatch(opts, co, key, buf, count, k), count + BufOffset)
  }

  lemma MatchCountTail(rounds: seq<Round>)
    requires Ends(rounds) && !IsStop(rounds[0].code)
    ensures Ends(rounds[1..])
    ensures FirstStop(rounds) == 1 + FirstStop(rounds[1..])
    ensures MatchCount(rounds) == 1 + MatchCount(rounds[1..])
  {
  }

  /** The effects for one matched peer: one send of the (possibly
      translated) frame to the peer's route, a translation exactly when it
      applies, and no directory call. */
  lemma SendToMatchParts(opts: Options, co: Collaborators, local: LocalPeer, key: LookupKey,
                         buf: Buffer, count: nat, r: Round)
    ensures Only(SendKind, SendToMatch(opts, co, local, key, buf, count, r))
            == [Send(RouteTo(opts, r.peer), Header(local.id, r.peer.id),
                     AfterTranslation(opts, co, key, buf, count), count + BufOffset)]
    ensures Only(TranslatePacketKind, SendToMatch(opts, co, local, key, buf, count, r))
            == if Translates(opts, key) then [TranslatePacket(Unmapped)] else []
    ensures Count(SendToMatch(opts, co, local, key, buf, count, r), Resolve(key)) == 0
    ensures Count(SendToMatch(opts, co, local, key, buf, count, r), ResetIterators) == 0
  {
    var t: seq<Effect> := if Translates(opts, key) then [TranslatePacket(Unmapped)] else [];
    var snd := [Send(RouteTo(opts, r.peer), Header(local.id, r.peer.id),
                     AfterTranslation(opts, co, key, buf, count), count + BufOffset)];
    var rep: seq<Effect> := if r.sent < 0 then [Report(SendFailure(opts))] else [];
    var m := SendToMatch(opts, co, local, key, buf, count, r);
    assert m == t + snd + rep;
    SendToMatchSends(t, snd, rep);
    SendToMatchTranslations(t, snd, rep);
    SendToMatchNoLookup(t, snd, rep, Resolve(key));
    SendToMatchNoLookup(t, snd, rep, ResetIterators);
  }

  /** The shape of the effects for one matched peer: translations, one
      send, reports. */
  predicate MatchShape(t: seq<Effect>, snd: seq<Effect>, rep: seq<Effect>) {
    && |snd| == 1 && snd[0].Send?
    && (forall i :: 0 <= i < |t| ==> t[i].TranslatePacket?)
    && (forall i :: 0 <= i < |rep| ==> rep[i].Report?)
  }

  lemma SendToMatchNoLookup(t: seq<Effect>, snd: seq<Effect>, rep: seq<Effect>, x: Effect)
    requires MatchShape(t, snd, rep)
    requires x.Resolve? || x.ResetIterators?
    ensures Count(t + snd + rep, x) == 0
  {
    assert x !in t + snd + rep;
  }

  lemma SendToMatchSends(t: seq<Effect>, snd: seq<Effect>, rep: seq<Effect>)
    requires MatchShape(t, snd, rep)
    ensures Only(SendKind, t + snd + rep) == snd
  {
    OnlyConcat(SendKind, t + snd, rep);
    OnlyConcat(SendKind, t, snd);
    OnlyNone(SendKind, t);
    OnlyNone(SendKind, rep);
    assert Only(SendKind, snd) == snd by {
      assert snd == [snd[0]];
    }
  }

  lemma SendToMatchTranslations(t: seq<Effect>, snd: seq<Effect>, rep: seq<Effect>)
    requires MatchShape(t, snd, rep)
    ensures Only(TranslatePacketKind, t + snd + rep) == t
  {
    OnlyConcat(TranslatePacketKind, t + snd, rep);
    OnlyConcat(TranslatePacketKind, t, snd);
    OnlyNone(TranslatePacketKind, snd);
    OnlyNone(TranslatePacketKind, rep);
    OnlyAll(TranslatePacketKind, t);
  }

  /** Fan-out count and contents: the loop sends exactly one copy per
      round before the first -1, up to and including the first 0, and the
      `k`-th copy goes to the `k`-th matched peer, with header
      (local id, peer id), the transport chosen for that peer, and length
      `count + BUF_OFFSET`. */
  lemma FanOutSends(opts: Options, co: Collaborators, local: LocalPeer, key: LookupKey,
                    buf: Buffer, count: nat, rounds: seq<Round>)
    requires Ends(rounds)
    ensures |Only(SendKind, FanOut(opts, co, local, key, buf, count, rounds))| == MatchCount(rounds)
    ensures forall k :: 0 <= k < MatchCount(rounds) ==>
              Only(SendKind, FanOut(opts, co, local, key, buf, count, rounds))[k]
              == CopyFor(opts, co, local, key, buf, count, rounds, k)
  {
    FanOutSendCount(opts, co, local, key, buf, count, rounds);
    FanOutCopies(opts, co, local, key, buf, count, rounds);
  }

  lemma {:induction false} FanOutSendCount(opts: Options, co: Collaborators, local: LocalPeer, key: LookupKey,
                                           buf: Buffer, count: nat, rounds: seq<Round>)
    requires Ends(rounds)
    ensures |Only(SendKind, FanOut(opts, co, local, key, buf, count, rounds))| == MatchCount(rounds)
    decreases |rounds|
  {
    var r := rounds[0];
    var effects := FanOut(opts, co, local, key, buf, count, rounds);
    var here := [Resolve(key)] + SendToMatch(opts, co, local, key, buf, count, r);
    if r.code == -1 {
      assert effects == [Resolve(key)];
      OnlyNone(SendKind, effects);
    } else if r.code == 0 {
      assert effects == here;
      FirstMatchSends(opts, co, local, key, buf, count, rounds);
      assert MatchCount(rounds) == 1;
    } else {
      MatchCountTail(rounds);
      var buf' := AfterTranslation(opts, co, key, buf, count);
      var rest := FanOut(opts, co, local, key, buf', count, rounds[1..]);
      assert effects == here + rest;
      FirstMatchSends(opts, co, local, key, buf, count, rounds);
      FanOutSendCount(opts, co, local, key, buf', count, rounds[1..]);
      OnlyConcat(SendKind, here, rest);
    }
  }

  lemma {:induction false} FanOutCopies(opts: Options, co: Collaborators, local: LocalPeer, key: LookupKey,
                                        buf: Buffer, count: nat, rounds: seq<Round>)
    requires Ends(rounds)
    ensures |Only(SendKind, FanOut(opts, co, local, key, buf, count, rounds))| <= |rounds|
    ensures forall k :: 0 <= k < |Only(SendKind, FanOut(opts, co, local, key, buf, count, rounds))| ==>
              Only(SendKind, FanOut(opts, co, local, key, buf, count, rounds))[k]
              == CopyFor(opts, co, local, key, buf, count, rounds, k)
    decreases |rounds|
  {
    FanOutSendsShape(opts, co, local, key, buf, count, rounds);
    var sends := Only(SendKind, FanOut(opts, co, local, key, buf, count, rounds));
    var first := CopyFor(opts, co, local, key, buf, count, rounds, 0);
    if rounds[0].code == 0 {
      CopiesAfterFirst(opts, co, local, key, buf, count, rounds, [], sends);
    } else if rounds[0].code != -1 {
      var buf' := AfterTranslation(opts, co, key, buf, count);
      var tail := Only(SendKind, FanOut(opts, co, local, key, buf', count, rounds[1..]));
      FanOutCopies(opts, co, local, key, buf', count, rounds[1..]);
      assert sends == [first] + tail;
      CopiesAfterFirst(opts, co, local, key, buf, count, rounds, tail, sends);
    }
  }

  /** The sends of the fan-out: none when the first lookup answers -1, the
      first copy alone when it answers 0, and otherwise the first copy
      followed by the sends of the remaining lookups from the translated
      buffer. */
  lemma FanOutSendsShape(opts: Options, co: Collaborators, local: LocalPeer, key: LookupKey,
                         buf: Buffer, count: nat, rounds: seq<Round>)
    requires Ends(rounds)
    ensures rounds[0].code == -1 ==> Only(SendKind, FanOut(opts, co, local, key, buf, count, rounds)) == []
    ensures rounds[0].code == 0 ==>
              Only(SendKind, FanOut(opts, co, local, key, buf, count, rounds))
              == [CopyFor(opts, co, local, key, buf, count, rounds, 0)]
    ensures !IsStop(rounds[0].code) ==>
              Ends(rounds[1..]) &&
              Only(SendKind, FanOut(opts, co, local, key, buf, count, rounds))
              == [CopyFor(opts, co, local, key, buf, count, rounds, 0)]
                 + Only(SendKind, FanOut(opts, co, local, key, AfterTranslation(opts, co, key, buf, count), count, rounds[1..]))
  {
    var r := rounds[0];
    var effects := FanOut(opts, co, local, key, buf, count, rounds);
    var here := [Resolve(key)] + SendToMatch(opts, co, local, key, buf, count, r);
    if r.code == -1 {
      assert effects == [Resolve(key)];
      OnlyNone(SendKind, effects);
    } else if r.code == 0 {
      assert effects == here;
      FirstMatchSends(opts, co, local, key, buf, count, rounds);
    } else {
      assert Ends(rounds[1..]);
      var rest := FanOut(opts, co, local, key, AfterTranslation(opts, co, key, buf, count), count, rounds[1..]);
      assert effects == here + rest;
      FirstMatchSends(opts, co, local, key, buf, count, rounds);
      OnlyConcat(SendKind, here, rest);
    }
  }

  /** The copies of the rounds after the first, sent from the buffer the
      first translation left, follow the first copy as the copies for
      matches 1, 2, ... */
  lemma CopiesAfterFirst(opts: Options, co: Collaborators, local: LocalPeer, key: LookupKey,
                         buf: Buffer, count: nat, rounds: seq<Round>, tail: seq<Effect>, sends: seq<Effect>)
    requires |rounds| > 0 && |tail| <= |rounds[1..]|
    requires forall k :: 0 <= k < |tail| ==>
               tail[k] == CopyFor(opts, co, local, key, AfterTranslation(opts, co, key, buf, count), count, rounds[1..], k)
    requires sends == [CopyFor(opts, co, local, key, buf, count, rounds, 0)] + tail
    ensures |sends| <= |rounds|
    ensures forall k :: 0 <= k < |sends| ==> sends[k] == CopyFor(opts, co, local, key, buf, count, rounds, k)
  {
    forall k | 0 <= k < |sends|
      ensures sends[k] == CopyFor(opts, co, local, key, buf, count, rounds, k)
    {
      if k > 0 {
        assert sends[k] == tail[k - 1];
        CopyForShift(opts, co, local, key, buf, count, rounds, k);
      }
    }
  }

  /** The first match's copy is the copy for match 0. */
  lemma FirstMatchSends(opts: Options, co: Collaborators, local: LocalPeer, key: LookupKey,
                        buf: Buffer, count: nat, rounds: seq<Round>)
    requires |rounds| > 0
    ensures Only(SendKind, [Resolve(key)] + SendToMatch(opts, co, local, key, buf, count, rounds[0]))
            == [CopyFor(opts, co, local, key, buf, count, rounds, 0)]
  {
    var m := SendToMatch(opts, co, local, key, buf, count, rounds[0]);
    SendToMatchParts(opts, co, local, key, buf, count, rounds[0]);
    OnlyConcat(SendKind, [Resolve(key)], m);
    OnlyNone(SendKind, [Resolve(key)]);
  }

  /** The copy for match `k` of the rounds after the first, sent from the
      buffer after the first match, is the copy for match `k` + 1. */
  lemma CopyForShift(opts: Options, co: Collaborators, local: LocalPeer, key: LookupKey,
                     buf: Buffer, count: nat, rounds: seq<Round>, k: nat)
    requires 0 < k < |rounds|
    ensures CopyFor(opts, co, local, key, AfterTranslation(opts, co, key, buf, count), count, rounds[1..], k - 1)
            == CopyFor(opts, co, local, key, buf, count, rounds, k)
  {
    assert rounds[1..][k - 1] == rounds[k];
  }

  lemma FirstMatchTranslations(opts: Options, co: Collaborators, local: LocalPeer, key: LookupKey,
                               buf: Buffer, count: nat, r: Round)
    ensures Only(TranslatePacketKind, [Resolve(key)] + SendToMatch(opts, co, local, key, buf, count, r))
            == if Translates(opts, key) then [TranslatePacket(Unmapped)] else []
  {
    var m := SendToMatch(opts, co, local, key, buf, count, r);
    SendToMatchParts(opts, co, local, key, buf, count, r);
    OnlyConcat(TranslatePacketKind, [Resolve(key)], m);
    OnlyNone(TranslatePacketKind, [Resolve(key)]);
  }

  /** Outbound translation runs once per matched peer, with no addresses,
      and only for IPv4 frames with translation on. */
  lemma {:induction false} FanOutTranslations(opts: Options, co: Collaborators, local: LocalPeer, key: LookupKey,
                                              buf: Buffer, count: nat, rounds: seq<Round>)
    requires Ends(rounds)
    ensures Only(TranslatePacketKind, FanOut(opts, co, local, key, buf, count, rounds))
            == Replicate(TranslatePacket(Unmapped), if Translates(opts, key) then MatchCount(rounds) else 0)
    decreases |rounds|
  {
    var r := rounds[0];
    var here := [Resolve(key)] + SendToMatch(opts, co, local, key, buf, count, r);
    var t := TranslatePacket(Unmapped);
    var f := FanOut(opts, co, local, key, buf, count, rounds);
    if r.code == -1 {
      assert f == [Resolve(key)];
      OnlyNone(TranslatePacketKind, f);
    } else if r.code == 0 {
      assert f == here;
      FirstMatchTranslations(opts, co, local, key, buf, count, r);
      assert MatchCount(rounds) == 1;
    } else {
      MatchCountTail(rounds);
      var buf' := AfterTranslation(opts, co, key, buf, count);
      var rest := FanOut(opts, co, local, key, buf', count, rounds[1..]);
      assert f == here + rest;
      FirstMatchTranslations(opts, co, local, key, buf, count, r);
      FanOutTranslations(opts, co, local, key, buf', count, rounds[1..]);
      OnlyConcat(TranslatePacketKind, here, rest);
    }
  }

  /** The directory is asked once per round up to and including the round
      that ends the fan-out, always for the frame's own key, and its
      iterators are never reset inside the fan-out. */
  lemma {:induction false} FanOutLookups(opts: Options, co: Collaborators, local: LocalPeer, key: LookupKey,
                                         buf: Buffer, count: nat, rounds: seq<Round>)
    requires Ends(rounds)
    ensures Count(FanOut(opts, co, local, key, buf, count, rounds), Resolve(key)) == FirstStop(rounds) + 1
    ensures Count(FanOut(opts, co, local, key, buf, count, rounds), ResetIterators) == 0
    ensures forall e :: e in FanOut(opts, co, local, key, buf, count, rounds) && e.Resolve? ==> e == Resolve(key)
    decreases |rounds|
  {
    FanOutResolvesOnlyKey(opts, co, local, key, buf, count, rounds);
    var r := rounds[0];
    var here := [Resolve(key)] + SendToMatch(opts, co, local, key, buf, count, r);
    SendToMatchParts(opts, co, local, key, buf, count, r);
    CountConcat([Resolve(key)], SendToMatch(opts, co, local, key, buf, count, r), Resolve(key));
    CountConcat([Resolve(key)], SendToMatch(opts, co, local, key, buf, count, r), ResetIterators);
    if r.code != -1 && r.code != 0 {
      MatchCountTail(rounds);
      var buf' := AfterTranslation(opts, co, key, buf, count);
      FanOutLookups(opts, co, local, key, buf', count, rounds[1..]);
      CountConcat(here, FanOut(opts, co, local, key, buf', count, rounds[1..]), Resolve(key));
      CountConcat(here, FanOut(opts, co, local, key, buf', count, rounds[1..]), ResetIterators);
    }
  }

  /** Every directory call of the fan-out is a lookup of the frame's own
      key. */
  lemma {:induction false} FanOutResolvesOnlyKey(opts: Options, co: Collaborators, local: LocalPeer, key: LookupKey,
                                                 buf: Buffer, count: nat, rounds: seq<Round>)
    requires Ends(rounds)
    ensures forall e :: e in FanOut(opts, co, local, key, buf, count, rounds) && e.Resolve? ==> e == Resolve(key)
    decreases |rounds|
  {
    if !IsStop(rounds[0].code) {
      assert Ends(rounds[1..]);
      FanOutResolvesOnlyKey(opts, co, local, key, AfterTranslation(opts, co, key, buf, count), count, rounds[1..]);
    }
  }

  /** A failed send is only reported: two directories that agree on codes
      and peers produce the same copies, whatever the transport returned. */
  lemma {:induction false} SendFailuresIgnored(opts: Options, co: Collaborators, local: LocalPeer, key: LookupKey,
                                               buf: Buffer, count: nat, a: seq<Round>, b: seq<Round>)
    requires Ends(a) && SameLookups(a, b)
    ensures Ends(b)
    ensures Only(SendKind, FanOut(opts, co, local, key, buf, count, a))
            == Only(SendKind, FanOut(opts, co, local, key, buf, count, b))
    decreases |a|
  {
    var ra, rb := a[0], b[0];
    var fa := FanOut(opts, co, local, key, buf, count, a);
    var ha := [Resolve(key)] + SendToMatch(opts, co, local, key, buf, count, ra);
    var hb := [Resolve(key)] + SendToMatch(opts, co, local, key, buf, count, rb);
    if ra.code == -1 {
      assert fa == [Resolve(key)] && FanOut(opts, co, local, key, buf, count, b) == [Resolve(key)];
    } else {
      FirstMatchSends(opts, co, local, key, buf, count, a);
      FirstMatchSends(opts, co, local, key, buf, count, b);
      assert CopyFor(opts, co, local, key, buf, count, a, 0) == CopyFor(opts, co, local, key, buf, count, b, 0);
      if ra.code == 0 {
        assert fa == ha && FanOut(opts, co, local, key, buf, count, b) == hb;
      } else {
        assert SameLookups(a[1..], b[1..]) by {
          forall i | 0 <= i < |a[1..]| ensures a[1..][i].code == b[1..][i].code && a[1..][i].peer == b[1..][i].peer {
            assert a[1..][i] == a[i + 1] && b[1..][i] == b[i + 1];
          }
        }
        var buf' := AfterTranslation(opts, co, key, buf, count);
        var resta := FanOut(opts, co, local, key, buf', count, a[1..]);
        SendFailuresIgnored(opts, co, local, key, buf', count, a[1..], b[1..]);
        var restb := FanOut(opts, co, local, key, buf', count, b[1..]);
        assert fa == ha + resta && FanOut(opts, co, local, key, buf, count, b) == hb + restb;
        OnlyConcat(SendKind, ha, resta);
        OnlyConcat(SendKind, hb, restb);
      }
    }
  }

  /** One round of the fan-out that neither ends it: its lookup and send,
      then the fan-out of the remaining rounds from the buffer as the send
      left it. */
  lemma FanOutPeel(opts: Options, co: Collaborators, local: LocalPeer, key: LookupKey,
                   buf: Buffer, count: nat, rounds: seq<Round>, done: seq<Effect>)
    requires Ends(rounds) && !IsStop(rounds[0].code)
    ensures Ends(rounds[1..])
    ensures done + FanOut(opts, co, local, key, buf, count, rounds)
            == (done + [Resolve(key)] + SendToMatch(opts, co, local, key, buf, count, rounds[0]))
               + FanOut(opts, co, local, key, AfterTranslation(opts, co, key, buf, count), count, rounds[1..])
  {
    var here := [Resolve(key)] + SendToMatch(opts, co, local, key, buf, count, rounds[0]);
    var rest := FanOut(opts, co, local, key, AfterTranslation(opts, co, key, buf, count), count, rounds[1..]);
    assert FanOut(opts, co, local, key, buf, count, rounds) == here + rest;
    ConcatAssoc(done, here, rest);
    ConcatAssoc(done, [Resolve(key)], SendToMatch(opts, co, local, key, buf, count, rounds[0]));
  }

  /** The lookup loop as the source writes it: a `while` loop that asks the
      directory, breaks on -1, sends, and breaks after 0. It performs
      exactly the effects of `FanOut`. */
  method FanOutLoop(opts: Options, co: Collaborators, local: LocalPeer, key: LookupKey,
                    buf: Buffer, count: nat, rounds: seq<Round>) returns (effects: seq<Effect>)
    requires Ends(rounds)
    ensures effects == FanOut(opts, co, local, key, buf, count, rounds)
    ensures |Only(SendKind, effects)| == MatchCount(rounds)
  {
    effects := [];
    var cur := buf;
    var i := 0;
    while true
      invariant i <= |rounds| && Ends(rounds[i..])
      invariant effects + FanOut(opts, co, local, key, cur, count, rounds[i..])
                == FanOut(opts, co, local, key, buf, count, rounds)
      decreases |rounds| - i
    {
      var r := rounds[i];
      ghost var before, done := cur, effects;
      effects := effects + [Resolve(key)];
      if r.code == -1 {
        assert FanOut(opts, co, local, key, before, count, rounds[i..]) == [Resolve(key)];
        break;
      }
      var header := Header(local.id, r.peer.id);
      var step := [];
      if Translates(opts, key) {
        cur := co.translatePacket(cur, Unmapped, count);
        step := [TranslatePacket(Unmapped)];
      }
      step := step + [Send(RouteTo(opts, r.peer), header, cur, count + BufOffset)];
      if r.sent < 0 {
        step := step + [Report(SendFailure(opts))];
      }
      assert step == SendToMatch(opts, co, local, key, before, count, r);
      effects := effects + step;
      if r.code == 0 {
        assert FanOut(opts, co, local, key, before, count, rounds[i..]) == [Resolve(key)] + step;
        ConcatAssoc(done, [Resolve(key)], step);
        break;
      }
      FanOutPeel(opts, co, local, key, before, count, rounds[i..], done);
      assert rounds[i..][1..] == rounds[i + 1..];
      i := i + 1;
    }
    FanOutSends(opts, co, local, key, buf, count, rounds);
  }

  // ---------------------------------------------------------------------
  // One iteration.

  /** An ARP request never reaches a peer: it is written back to the tap,
      with the length that was read, when `create_arp_response` returns 0,
      and dropped otherwise; the loop goes on either way. */
  lemma ArpRequestAnsweredLocally(opts: Options, co: Collaborators, local: LocalPeer,
                                  buf: Buffer, count: nat, rounds: seq<Round>)
    requires |buf| >= MinView && count <= |buf|
    requires buf[12] == 0x08 && buf[13] == 0x06 && buf[21] == 0x01
    ensures WellFormed(ReadFrame(buf, count, rounds))
    ensures var s := OutboundStep(opts, co, local, ReadFrame(buf, count, rounds));
            var answer := co.createArpResponse(buf);
            && s.next == Continue
            && Only(SendKind, s.effects) == []
            && Count(s.effects, ResetIterators) == 0
            && Only(WriteTapKind, s.effects)
               == (if answer.status == 0 then [WriteTap(answer.frame, count)] else [])
  {
  }

  /** A frame that is neither an ARP request nor of IP version 4 or 6 is
      dropped with a report of its version nibble: no write, no send, and
      the loop goes on. */
  lemma UnknownVersionDropped(opts: Options, co: Collaborators, local: LocalPeer,
                              buf: Buffer, count: nat, rounds: seq<Round>)
    requires |buf| >= MinView && count <= |buf|
    requires !IsArpRequest(buf)
    requires HighNibble(buf[14]) != 4 && HighNibble(buf[14]) != 6
    ensures WellFormed(ReadFrame(buf, count, rounds))
    ensures var s := OutboundStep(opts, co, local, ReadFrame(buf, count, rounds));
            && s.next == Continue
            && s.effects == [Drop(UnknownIpType(HighNibble(buf[14])))]
            && Only(SendKind, s.effects) == []
            && Only(WriteTapKind, s.effects) == []
  {
  }

  /** The lookup key of an IP frame: the classifier's key, by IPv4 or IPv6
      address. */
  function KeyOf(buf: Buffer): (key: LookupKey)
    requires |buf| >= MinView && IsIpFrame(buf)
    ensures key.ByIpv4? <==> Classify(buf).Ipv4?
    ensures key.ByIpv4? ==> key.addr == Ipv4Destination(buf) && |key.addr| == 4
    ensures key.ByIpv6? ==> key.addr == Ipv6Destination(buf) && |key.addr| == 16
  {
    if Classify(buf).Ipv4? then ByIpv4(Classify(buf).key) else ByIpv6(Classify(buf).key)
  }

  /** An IPv4 or IPv6 frame resets the directory iterators, then runs the
      fan-out for its destination-address key; the loop goes on. */
  lemma IpStepIsFanOut(opts: Options, co: Collaborators, local: LocalPeer,
                       buf: Buffer, count: nat, rounds: seq<Round>)
    requires |buf| >= MinView && count <= |buf|
    requires IsIpFrame(buf) && Ends(rounds)
    ensures WellFormed(ReadFrame(buf, count, rounds))
    ensures OutboundStep(opts, co, local, ReadFrame(buf, count, rounds))
            == Step([ResetIterators] + FanOut(opts, co, local, KeyOf(buf), buf, count, rounds), Continue)
  {
  }

  /** An IP frame resets the directory iterators exactly once, first, and
      then looks its destination-address key up. */
  lemma IpFrameStartsWithLookup(opts: Options, co: Collaborators, local: LocalPeer,
                                buf: Buffer, count: nat, rounds: seq<Round>)
    requires |buf| >= MinView && count <= |buf|
    requires IsIpFrame(buf) && Ends(rounds)
    ensures WellFormed(ReadFrame(buf, count, rounds))
    ensures var s := OutboundStep(opts, co, local, ReadFrame(buf, count, rounds));
            && s.next == Continue
            && |s.effects| >= 2
            && s.effects[0] == ResetIterators
            && s.effects[1] == Resolve(KeyOf(buf))
            && Count(s.effects, ResetIterators) == 1
  {
    var key := KeyOf(buf);
    var f := FanOut(opts, co, local, key, buf, count, rounds);
    var e := OutboundStep(opts, co, local, ReadFrame(buf, count, rounds)).effects;
    IpStepIsFanOut(opts, co, local, buf, count, rounds);
    assert e == [ResetIterators] + f;
    FanOutLookups(opts, co, local, key, buf, count, rounds);
    CountConcat([ResetIterators], f, ResetIterators);
  }

  /** An IP frame is never written back to the tap. */
  lemma IpFrameNeverWritten(opts: Options, co: Collaborators, local: LocalPeer,
                            buf: Buffer, count: nat, rounds: seq<Round>)
    requires |buf| >= MinView && count <= |buf|
    requires IsIpFrame(buf) && Ends(rounds)
    ensures WellFormed(ReadFrame(buf, count, rounds))
    ensures Only(WriteTapKind, OutboundStep(opts, co, local, ReadFrame(buf, count, rounds)).effects) == []
  {
    var key := KeyOf(buf);
    var f := FanOut(opts, co, local, key, buf, count, rounds);
    var e := OutboundStep(opts, co, local, ReadFrame(buf, count, rounds)).effects;
    IpStepIsFanOut(opts, co, local, buf, count, rounds);
    assert e == [ResetIterators] + f;
    FanOutOnlyForwards(opts, co, local, key, buf, count, rounds);
    OnlyNone(WriteTapKind, e);
  }

  /** An IP frame is sent to every match, one copy each (see
      `FanOutSends`). */
  lemma IpFrameSends(opts: Options, co: Collaborators, local: LocalPeer,
                     buf: Buffer, count: nat, rounds: seq<Round>)
    requires |buf| >= MinView && count <= |buf|
    requires IsIpFrame(buf) && Ends(rounds)
    ensures WellFormed(ReadFrame(buf, count, rounds))
    ensures var sends := Only(SendKind, OutboundStep(opts, co, local, ReadFrame(buf, count, rounds)).effects);
            && |sends| == MatchCount(rounds)
            && forall k :: 0 <= k < MatchCount(rounds) ==>
                 sends[k] == CopyFor(opts, co, local, KeyOf(buf), buf, count, rounds, k)
  {
    var key := KeyOf(buf);
    var f := FanOut(opts, co, local, key, buf, count, rounds);
    var e := OutboundStep(opts, co, local, ReadFrame(buf, count, rounds)).effects;
    IpStepIsFanOut(opts, co, local, buf, count, rounds);
    assert e == [ResetIterators] + f;
    OnlyConcat(SendKind, [ResetIterators], f);
    OnlyNone(SendKind, [ResetIterators]);
    assert Only(SendKind, e) == Only(SendKind, f);
    FanOutSends(opts, co, local, key, buf, count, rounds);
  }

  /** An IP frame is translated once per match when it is IPv4 and
      translation is on, and never otherwise. */
  lemma IpFrameTranslations(opts: Options, co: Collaborators, local: LocalPeer,
                            buf: Buffer, count: nat, rounds: seq<Round>)
    requires |buf| >= MinView && count <= |buf|
    requires IsIpFrame(buf) && Ends(rounds)
    ensures WellFormed(ReadFrame(buf, count, rounds))
    ensures Only(TranslatePacketKind, OutboundStep(opts, co, local, ReadFrame(buf, count, rounds)).effects)
            == Replicate(TranslatePacket(Unmapped),
                         if Classify(buf).Ipv4? && opts.translate then MatchCount(rounds) else 0)
  {
    var key := KeyOf(buf);
    var f := FanOut(opts, co, local, key, buf, count, rounds);
    var e := OutboundStep(opts, co, local, ReadFrame(buf, count, rounds)).effects;
    IpStepIsFanOut(opts, co, local, buf, count, rounds);
    assert e == [ResetIterators] + f;
    OnlyConcat(TranslatePacketKind, [ResetIterators], f);
    OnlyNone(TranslatePacketKind, [ResetIterators]);
    assert Only(TranslatePacketKind, e) == Only(TranslatePacketKind, f);
    FanOutTranslations(opts, co, local, key, buf, count, rounds);
  }

  /** An IPv4 frame for a single peer, with translation off, leaves as
      exactly one copy to that peer's transport address whose payload
      region is the frame as read. */
  lemma SinglePeerUntranslated(opts: Options, co: Collaborators, local: LocalPeer,
                               buf: Buffer, count: nat, rounds: seq<Round>)
    requires |buf| >= MinView && count <= |buf|
    requires !IsArpRequest(buf) && HighNibble(buf[14]) == 4
    requires !opts.translate && !opts.hasSendFunc
    requires Ends(rounds) && MatchCount(rounds) == 1
    ensures WellFormed(ReadFrame(buf, count, rounds))
    ensures Only(SendKind, OutboundStep(opts, co, local, ReadFrame(buf, count, rounds)).effects)
            == [Send(ViaSocket(rounds[0].peer.destIpv4, rounds[0].peer.port),
                     Header(local.id, rounds[0].peer.id), buf, count + BufOffset)]
  {
    IpFrameSends(opts, co, local, buf, count, rounds);
  }

  // ---------------------------------------------------------------------
  // The loop.

  /** The outbound loop ends only on a failed tap read; then, and only
      then, both sockets and the tap are closed, once each, as the last
      effects of the loop. */
  lemma OutboundTeardown(opts: Options, co: Collaborators, local: LocalPeer, inputs: seq<TapRead>, h: Handle)
    requires forall i :: 0 <= i < |inputs| ==> WellFormed(inputs[i])
    ensures var trace := RunOutbound(opts, co, local, inputs);
            var failed := exists i :: 0 <= i < |inputs| && inputs[i].ReadFailed?;
            && Count(trace, Close(h)) == (if failed then 1 else 0)
            && (failed ==> |trace| >= 3 && trace[|trace| - 3..] == Teardown)
  {
    var steps := OutboundSteps(opts, co, local, inputs);
    TeardownOnceOnStop(steps, h);
    assert Stops(steps) <==> exists i :: 0 <= i < |inputs| && inputs[i].ReadFailed? by {
      if Stops(steps) {
        var i :| 0 <= i < |steps| && steps[i].next == Stop;
        assert inputs[i].ReadFailed?;
      }
      if exists i :: 0 <= i < |inputs| && inputs[i].ReadFailed? {
        var i :| 0 <= i < |inputs| && inputs[i].ReadFailed?;
        assert steps[i].next == Stop;
      }
    }
  }

  /** Frames are handled strictly in order: the loop performs the
      iterations of every read up to and including the first failed one,
      then tears down; without a failed read it performs them all. */
  lemma OutboundRunsUntilReadFailure(opts: Options, co: Collaborators, local: LocalPeer,
                                     inputs: seq<TapRead>, j: nat)
    requires forall i :: 0 <= i < |inputs| ==> WellFormed(inputs[i])
    requires j <= |inputs|
    requires forall i :: 0 <= i < j ==> inputs[i].ReadFrame?
    requires j < |inputs| ==> inputs[j].ReadFailed?
    ensures j < |inputs| ==> RunOutbound(opts, co, local, inputs)
                             == Flatten(OutboundSteps(opts, co, local, inputs[..j + 1])) + Teardown
    ensures j == |inputs| ==> RunOutbound(opts, co, local, inputs)
                              == Flatten(OutboundSteps(opts, co, local, inputs))
  {
    var steps := OutboundSteps(opts, co, local, inputs);
    RunLoopIsPrefixThenTeardown(steps, j);
    if j < |inputs| {
      assert steps[..j + 1] == OutboundSteps(opts, co, local, inputs[..j + 1]);
    }
  }
}
