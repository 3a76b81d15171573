/** What one iteration of a forwarding loop does to the world: an ordered
    trace of effects and a decision to go round again or to shut down. The
    whole loop is the concatenation of its iterations' traces, closed by a
    single teardown. */
module Effects {
  import opened Seqs
  import opened Peers

  /** How a copy reaches a peer: through the configured send override, or
      through the IPv4 datagram socket to the peer's address and port. */
  datatype Route = ViaSendFunc | ViaSocket(addr: Ipv4Addr, port: int)

  /** The address arguments of `translate_packet`: the outbound loop passes
      two null pointers, the inbound loop a (peer, local) address pair. */
  datatype Translation = Unmapped | Mapped(from: Ipv4Addr, to: Ipv4Addr)

  /** The key of a directory lookup. */
  datatype LookupKey = ByIpv4(addr: seq<byte>) | ByIpv6(addr: seq<byte>) | ById(id: PeerId)

  /** Why a frame went nowhere. Only the unknown type is reported. */
  datatype DropReason = NoArpResponse | UnknownIpType(nibble: int)

  /** The diagnostics printed for failed I/O. */
  datatype Failure =
    | TapReadFailed
    | SendFuncFailed
    | SendToFailed
    | RecvFuncFailed
    | UdpRecvFailed
    | TapWriteFailed

  /** The handles released when a loop ends. */
  datatype Handle = Sock4 | Sock6 | Tap

  datatype Effect =
      /** `write` to the tap of `frame`, with the byte count `len` the call receives */
    | WriteTap(frame: Buffer, len: int)
      /** one encapsulated copy: header region `header`, payload region `payload`, `len` bytes in all */
    | Send(route: Route, header: Header, payload: Buffer, len: int)
    | ResetIterators
    | Resolve(key: LookupKey)
    | TranslatePacket(mapping: Translation)
    | TranslateHeaders(from: Ipv4Addr, to: Ipv4Addr)
    | UpdateMac(mac: seq<byte>)
    | Drop(reason: DropReason)
    | Report(failure: Failure)
    | Close(handle: Handle)

  datatype Next = Continue | Stop

  /** The result of one loop iteration. */
  datatype Step = Step(effects: seq<Effect>, next: Next)

  /** The cleanup after either loop exits. */
  const Teardown: seq<Effect> := [Close(Sock4), Close(Sock6), Close(Tap)]

  /** The kinds of effect the properties count. */
  datatype Kind = SendKind | WriteTapKind | TranslatePacketKind | TranslateHeadersKind

  predicate OfKind(e: Effect, k: Kind) {
    match k
    case SendKind => e.Send?
    case WriteTapKind => e.WriteTap?
    case TranslatePacketKind => e.TranslatePacket?
    case TranslateHeadersKind => e.TranslateHeaders?
  }

  /** The effects of kind `k` in `effects`, in their original order. */
  function Only(k: Kind, effects: seq<Effect>): (r: seq<Effect>)
    ensures |r| <= |effects|
    ensures forall e :: e in r ==> e in effects && OfKind(e, k)
  {
    if |effects| == 0 then []
    else (if OfKind(effects[0], k) then [effects[0]] else []) + Only(k, effects[1..])
  }

  lemma {:induction false} OnlyConcat(k: Kind, a: seq<Effect>, b: seq<Effect>)
    ensures Only(k, a + b) == Only(k, a) + Only(k, b)
  {
    if |a| == 0 {
      assert a + b == b;
    } else {
      assert (a + b)[1..] == a[1..] + b;
      OnlyConcat(k, a[1..], b);
    }
  }

  lemma OnlyNone(k: Kind, effects: seq<Effect>)
    requires forall i :: 0 <= i < |effects| ==> !OfKind(effects[i], k)
    ensures Only(k, effects) == []
  {
    assert forall e | e in Only(k, effects) :: OfKind(e, k);
  }

  lemma {:induction false} OnlyAll(k: Kind, effects: seq<Effect>)
    requires forall i :: 0 <= i < |effects| ==> OfKind(effects[i], k)
    ensures Only(k, effects) == effects
  {
    if |effects| > 0 {
      OnlyAll(k, effects[1..]);
    }
  }

  /** An iteration never releases a handle itself. */
  predicate KeepsHandles(effects: seq<Effect>) {
    forall i :: 0 <= i < |effects| ==> !effects[i].Close?
  }

  /** Some iteration decides to stop. */
  predicate Stops(steps: seq<Step>) {
    exists i :: 0 <= i < |steps| && steps[i].next == Stop
  }

  /** The trace of a loop whose iterations produce `steps` (as many as the
      inputs seen so far): the iterations run in order until one decides
      to stop, and then the handles are released. */
  function RunLoop(steps: seq<Step>): (trace: seq<Effect>)
    ensures |steps| > 0 ==> |steps[0].effects| <= |trace| && trace[..|steps[0].effects|] == steps[0].effects
    ensures (forall i :: 0 <= i < |steps| ==> steps[i].next == Continue) ==> trace == Flatten(steps)
  {
    if |steps| == 0 then []
    else if steps[0].next == Stop then steps[0].effects + Teardown
    else steps[0].effects + RunLoop(steps[1..])
  }

  /** All the effects of `steps`, in order. */
  function Flatten(steps: seq<Step>): seq<Effect>
  {
    if |steps| == 0 then [] else steps[0].effects + Flatten(steps[1..])
  }

  lemma {:induction false} KeepsHandlesConcat(a: seq<Effect>, b: seq<Effect>)
    requires KeepsHandles(a) && KeepsHandles(b)
    ensures KeepsHandles(a + b)
  {
    forall i | 0 <= i < |a + b|
      ensures !(a + b)[i].Close?
    {
      if i < |a| { assert (a + b)[i] == a[i]; } else { assert (a + b)[i] == b[i - |a|]; }
    }
  }

  lemma NoCloseInKept(effects: seq<Effect>, h: Handle)
    requires KeepsHandles(effects)
    ensures Count(effects, Close(h)) == 0
  {
    assert forall x | x in effects :: !x.Close?;
  }

  lemma StopsTail(steps: seq<Step>)
    requires |steps| > 0 && steps[0].next == Continue
    requires forall i :: 0 <= i < |steps| ==> KeepsHandles(steps[i].effects)
    ensures Stops(steps) <==> Stops(steps[1..])
    ensures forall i :: 0 <= i < |steps[1..]| ==> KeepsHandles(steps[1..][i].effects)
  {
    var rest := steps[1..];
    if Stops(steps) {
      var i :| 0 <= i < |steps| && steps[i].next == Stop;
      assert rest[i - 1] == steps[i];
    }
  }

  /** The loop, read as a reference definition: it performs every
      iteration up to and including the first that stops, in order, then
      tears down; if none stops, it performs them all and is still
      running. */
  lemma {:induction false} RunLoopIsPrefixThenTeardown(steps: seq<Step>, j: nat)
    requires j <= |steps|
    requires forall i :: 0 <= i < j ==> steps[i].next == Continue
    requires j < |steps| ==> steps[j].next == Stop
    ensures j < |steps| ==> RunLoop(steps) == Flatten(steps[..j + 1]) + Teardown
    ensures j == |steps| ==> RunLoop(steps) == Flatten(steps)
  {
    if |steps| == 0 {
    } else if j == 0 {
      assert steps[..1] == [steps[0]];
      assert Flatten([steps[0]]) == steps[0].effects + Flatten([]);
    } else {
      RunLoopIsPrefixThenTeardown(steps[1..], j - 1);
      if j < |steps| {
        assert steps[..j + 1] == [steps[0]] + steps[1..][..j];
        assert steps[..j + 1][1..] == steps[1..][..j];
      }
    }
  }

  /** Each handle is released exactly once if some iteration stops, and
      never otherwise; when it happens the releases are the last effects
      of the loop. */
  lemma TeardownOnceOnStop(steps: seq<Step>, h: Handle)
    requires forall i :: 0 <= i < |steps| ==> KeepsHandles(steps[i].effects)
    ensures Count(RunLoop(steps), Close(h)) == (if Stops(steps) then 1 else 0)
    ensures Stops(steps) ==> |RunLoop(steps)| >= 3 && RunLoop(steps)[|RunLoop(steps)| - 3..] == Teardown
  {
    CloseCount(steps, h);
    TeardownLast(steps);
  }

  lemma {:induction false} CloseCount(steps: seq<Step>, h: Handle)
    requires forall i :: 0 <= i < |steps| ==> KeepsHandles(steps[i].effects)
    ensures Count(RunLoop(steps), Close(h)) == (if Stops(steps) then 1 else 0)
  {
    if |steps| > 0 {
      var e := steps[0].effects;
      assert KeepsHandles(e);
      NoCloseInKept(e, h);
      if steps[0].next == Stop {
        assert Stops(steps);
        CountConcat(e, Teardown, Close(h));
        assert Count(Teardown, Close(h)) == 1;
      } else {
        StopsTail(steps);
        CloseCount(steps[1..], h);
        CountConcat(e, RunLoop(steps[1..]), Close(h));
      }
    }
  }

  lemma {:induction false} TeardownLast(steps: seq<Step>)
    requires forall i :: 0 <= i < |steps| ==> KeepsHandles(steps[i].effects)
    ensures Stops(steps) ==> |RunLoop(steps)| >= 3 && RunLoop(steps)[|RunLoop(steps)| - 3..] == Teardown
  {
    if |steps| > 0 {
      var e := steps[0].effects;
      if steps[0].next == Stop {
        assert (e + Teardown)[|e + Teardown| - 3..] == Teardown;
      } else {
        var rest := steps[1..];
        StopsTail(steps);
        TeardownLast(rest);
        if Stops(steps) {
          var r := RunLoop(rest);
          assert (e + r)[|e + r| - 3..] == r[|r| - 3..];
        }
      }
    }
  }
}
