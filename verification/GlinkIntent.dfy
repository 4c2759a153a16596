/** Receive-intent credits on the two GLINK channels (q8b/kernel/bsp/npu_pas.c).  A remote intent is the
    peer's permission for one message of bounded size. */
module GlinkIntent {
  import opened GlinkMessage

  const HELLO_SIZE: nat := 52
  const SHUTDOWN_SIZE: nat := 40
  const MESSAGE_SIZE: nat := 40 // struct npu_fastrpc_msg

  /** What the driver remembers of a channel, and the history of its credits: grants received, messages
      whose first frame went out, messages that went out whole, the size and intent last granted, and whether
      the channel was opened again since. */
  datatype Account = Account(valid: bool, waitDone: bool, iid: nat, isize: nat, grants: nat, started: nat,
                             finished: nat, offered: nat, offeredIid: nat, reopened: bool)

  const EMPTY := Account(false, false, 0, 0, 0, 0, 0, 0, 0, false)

  /** Never more whole messages than grants, never both available and awaiting completion, and the
      size on record is the one the peer granted. */
  predicate Sound(a: Account) {
    && !(a.valid && a.waitDone)
    && a.finished + (if a.valid then 1 else 0) <= a.grants
    && a.finished <= a.started
    && (a.valid || a.waitDone ==> a.isize == a.offered && a.iid == if a.reopened then 0 else a.offeredIid)
  }

  /** The same with every begun message counted. */
  predicate Frugal(a: Account) {
    a.started + (if a.valid then 1 else 0) <= a.grants
  }

  datatype Intent = Intent(size: nat, iid: nat)

  function MaxSize(intents: seq<Intent>): (m: nat)
    ensures forall k :: 0 <= k < |intents| ==> intents[k].size <= m
    ensures m == 0 || exists k :: 0 <= k < |intents| && intents[k].size == m
  {
    if intents == [] then 0 else
    var rest, last := MaxSize(intents[..|intents| - 1]), intents[|intents| - 1].size;
    if last > rest then last else rest
  }

  /** The selection loop of the INTENT branch: the first of the largest nonempty intents. */
  method BestIntent(intents: seq<Intent>) returns (best: Intent)
    ensures best.size == MaxSize(intents)
    ensures best.size != 0 ==> exists k :: 0 <= k < |intents| && intents[k] == best
                                 && forall j :: 0 <= j < k ==> intents[j].size < best.size
  {
    best := Intent(0, 0);
    for k := 0 to |intents|
      invariant best.size == MaxSize(intents[..k])
      invariant best.size != 0 ==> exists i :: 0 <= i < k && intents[i] == best
                                     && forall j :: 0 <= j < i ==> intents[j].size < best.size
    {
      assert intents[..k + 1][..k] == intents[..k];
      assert forall j :: 0 <= j < k ==> intents[..k][j] == intents[j];
      if intents[k].size > best.size {
        best := intents[k];
      }
    }
    assert intents[..|intents|] == intents;
  }

  function Granted(a: Account, best: Intent): Account {
    a.(valid := true, waitDone := false, iid := best.iid, isize := best.size, grants := a.grants + 1,
       offered := best.size, offeredIid := best.iid, reopened := false)
  }

  // glink_request_remote_intent supersedes whatever intent was on record.
  function Requested(a: Account): Account {
    a.(valid := false, waitDone := false, iid := 0, isize := 0)
  }

  /** The RX_DONE branches: the intent a channel was waiting on is available again, or used up. */
  function Settled(frpc: Account, qrtr: Account, onFrpc: bool, onQrtr: bool, reuse: bool, iid: nat)
    : (Account, Account)
  {
    if onQrtr && qrtr.waitDone && iid == qrtr.iid then
      (frpc, qrtr.(valid := reuse, waitDone := false, grants := qrtr.grants + if reuse then 1 else 0))
    else if onFrpc && frpc.waitDone && iid == frpc.iid then
      (if reuse then frpc.(valid := true, waitDone := false, grants := frpc.grants + 1) else Requested(frpc), qrtr)
    else (frpc, qrtr)
  }

  /** The chunk loop of a send: accepted[k] says whether the ring takes chunk k. */
  function Sent(a: Account, size: nat, accepted: seq<bool>): Account
    requires |accepted| == (size + CHUNK - 1) / CHUNK
  {
    if size == 0 || !accepted[0] then a
    else if false in accepted then a.(started := a.started + 1)
    else a.(valid := false, waitDone := true, started := a.started + 1, finished := a.finished + 1)
  }

  // Frames that touch the credits, as glink_poll sees them.
  datatype Rx =
    | Version
    | OpenFrpc(remote: nat)
    | OpenQrtr(remote: nat)
    | OpenAck(local: nat)
    | Intents(remote: nat, intents: seq<Intent>)
    | RxDone(reuse: bool, remote: nat, iid: nat)

  datatype Event =
    | Poll(frames: seq<Rx>)
    | Send(size: nat, polled: seq<Rx>, accepted: seq<bool>)
    | Hello(txOk: bool)
    | Shutdown(polled: seq<Rx>, ssctl: bool, txOk: bool)

  class Endpoint {
    var frpc: Account
    var qrtr: Account
    var cid: nat
    var remoteCid: nat
    var qrtrCid: nat
    var qrtrRemoteCid: nat
    var versionAck: bool
    var openSent: bool
    var openAck: bool
    var qrtrOpenAck: bool
    var helloSent: bool

    constructor ()
      ensures frpc == EMPTY && qrtr == EMPTY && cid == 0 && remoteCid == 0 && qrtrRemoteCid == 0
    {
      frpc, qrtr := EMPTY, EMPTY;
      cid, remoteCid, qrtrCid, qrtrRemoteCid := 0, 0, 0, 0;
      versionAck, openSent, openAck, qrtrOpenAck, helloSent := false, false, false, false, false;
    }

    /** One frame of glink_poll. */
    method Receive(f: Rx)
      requires Sound(frpc) && Sound(qrtr)
      modifies this
      ensures Sound(frpc) && Sound(qrtr)
      ensures frpc.started == old(frpc.started) && frpc.finished == old(frpc.finished)
      ensures qrtr.started == old(qrtr.started) && qrtr.finished == old(qrtr.finished)
      ensures (old(Frugal(frpc)) ==> Frugal(frpc)) && (old(Frugal(qrtr)) ==> Frugal(qrtr))
      ensures f.Intents? && f.remote == old(qrtrRemoteCid) && MaxSize(f.intents) != 0 ==>
                && qrtr == Granted(old(qrtr), Intent(MaxSize(f.intents), qrtr.iid)) && frpc == old(frpc)
                && Intent(MaxSize(f.intents), qrtr.iid) in f.intents
      ensures f.Intents? && f.remote != old(qrtrRemoteCid) && f.remote == old(remoteCid) && MaxSize(f.intents) != 0 ==>
                && frpc == Granted(old(frpc), Intent(MaxSize(f.intents), frpc.iid)) && qrtr == old(qrtr)
                && Intent(MaxSize(f.intents), frpc.iid) in f.intents
      ensures f.Intents? && f.remote != old(qrtrRemoteCid) && f.remote != old(remoteCid) ==>
                frpc == old(frpc) && qrtr == old(qrtr)
      ensures f.Intents? && MaxSize(f.intents) == 0 ==> frpc == old(frpc) && qrtr == old(qrtr)
      ensures f.OpenFrpc? ==> frpc == old(frpc).(iid := 0, reopened := true) && cid == 1 && remoteCid == f.remote
      ensures !f.OpenFrpc? ==> cid == old(cid) && remoteCid == old(remoteCid)
      ensures qrtrRemoteCid == if f.OpenQrtr? then f.remote else old(qrtrRemoteCid)
      ensures !f.OpenFrpc? && !f.Intents? ==>
                frpc.reopened == old(frpc.reopened) && frpc.offeredIid == old(frpc.offeredIid)
      ensures !f.Intents? && !f.RxDone? ==>
                frpc.grants == old(frpc.grants) && (frpc.valid ==> old(frpc.valid)) && qrtr == old(qrtr)
      ensures f.RxDone? && old(f.remote == qrtrRemoteCid && qrtr.waitDone && f.iid == qrtr.iid) ==>
                qrtr.valid == f.reuse && !qrtr.waitDone && qrtr.grants == old(qrtr.grants) + if f.reuse then 1 else 0
      ensures f.RxDone? && f.remote != old(qrtrRemoteCid)
              && old(f.remote == remoteCid && frpc.waitDone && f.iid == frpc.iid) ==>
                frpc.valid == f.reuse && !frpc.waitDone && frpc.grants == old(frpc.grants) + if f.reuse then 1 else 0
      ensures f.RxDone? && !old(frpc.waitDone && f.remote == remoteCid && f.iid == frpc.iid) ==> frpc == old(frpc)
      ensures f.RxDone? && !old(qrtr.waitDone && f.remote == qrtrRemoteCid && f.iid == qrtr.iid) ==> qrtr == old(qrtr)
    {
      hide Sound, Frugal, MaxSize, Granted, Settled;
      match f {
        case Intents(remote, intents) =>
          TakeIntents(remote, intents);
        case RxDone(reuse, remote, iid) =>
          TakeDone(reuse, remote, iid);
        case _ =>
          TakeControl(f);
      }
    }

    // Version and channel frames.
    method TakeControl(f: Rx)
      requires Sound(frpc) && !f.Intents? && !f.RxDone?
      modifies this
      ensures Sound(frpc) && (old(Frugal(frpc)) ==> Frugal(frpc)) && qrtr == old(qrtr)
      ensures frpc.started == old(frpc.started) && frpc.finished == old(frpc.finished)
      ensures frpc.grants == old(frpc.grants) && (frpc.valid ==> old(frpc.valid))
      ensures frpc.offeredIid == old(frpc.offeredIid)
      ensures if f.OpenFrpc? then frpc == old(frpc).(iid := 0, reopened := true) && cid == 1 && remoteCid == f.remote
              else frpc.reopened == old(frpc.reopened) && cid == old(cid) && remoteCid == old(remoteCid)
      ensures qrtrRemoteCid == if f.OpenQrtr? then f.remote else old(qrtrRemoteCid)
    {
      match f {
        case Version =>
          versionAck := true;
          if openAck && !frpc.valid {
            frpc := Requested(frpc);
          }
        case OpenFrpc(remote) =>
          remoteCid, openAck, cid, openSent := remote, false, 1, true;
          frpc := frpc.(iid := 0, reopened := true);
        case OpenQrtr(remote) =>
          qrtrCid, qrtrRemoteCid := 2, remote;
        case OpenAck(local) =>
          if openSent && local == cid {
            openAck := true;
            if versionAck && !frpc.valid {
              frpc := Requested(frpc);
            }
          } else if qrtrCid != 0 && local == qrtrCid {
            qrtrOpenAck := true;
          }
      }
    }

    // The RX_DONE branch.
    method TakeDone(reuse: bool, remote: nat, iid: nat)
      requires Sound(frpc) && Sound(qrtr)
      modifies `frpc, `qrtr
      ensures (frpc, qrtr) == Settled(old(frpc), old(qrtr), remote == remoteCid, remote == qrtrRemoteCid, reuse, iid)
      ensures Sound(frpc) && Sound(qrtr)
      ensures (old(Frugal(frpc)) ==> Frugal(frpc)) && (old(Frugal(qrtr)) ==> Frugal(qrtr))
      ensures frpc.started == old(frpc.started) && frpc.finished == old(frpc.finished)
      ensures qrtr.started == old(qrtr.started) && qrtr.finished == old(qrtr.finished)
      ensures frpc.reopened == old(frpc.reopened) && frpc.offeredIid == old(frpc.offeredIid)
      ensures old(remote == qrtrRemoteCid && qrtr.waitDone && iid == qrtr.iid) ==>
                qrtr.valid == reuse && !qrtr.waitDone && qrtr.grants == old(qrtr.grants) + if reuse then 1 else 0
      ensures old(remote == remoteCid && remote != qrtrRemoteCid && frpc.waitDone && iid == frpc.iid) ==>
                frpc.valid == reuse && !frpc.waitDone && frpc.grants == old(frpc.grants) + if reuse then 1 else 0
      ensures !old(frpc.waitDone && remote == remoteCid && iid == frpc.iid) ==> frpc == old(frpc)
      ensures !old(qrtr.waitDone && remote == qrtrRemoteCid && iid == qrtr.iid) ==> qrtr == old(qrtr)
    {
      var after := Settled(frpc, qrtr, remote == remoteCid, remote == qrtrRemoteCid, reuse, iid);
      frpc, qrtr := after.0, after.1;
    }

    // The INTENT branch: the first of the largest intents becomes the channel's.
    method TakeIntents(remote: nat, intents: seq<Intent>)
      requires Sound(frpc) && Sound(qrtr)
      modifies `frpc, `qrtr
      ensures Sound(frpc) && Sound(qrtr)
      ensures (old(Frugal(frpc)) ==> Frugal(frpc)) && (old(Frugal(qrtr)) ==> Frugal(qrtr))
      ensures frpc.started == old(frpc.started) && frpc.finished == old(frpc.finished)
      ensures qrtr.started == old(qrtr.started) && qrtr.finished == old(qrtr.finished)
      ensures frpc == (if MaxSize(intents) != 0 && remote == remoteCid && remote != qrtrRemoteCid
                       then Granted(old(frpc), Intent(MaxSize(intents), frpc.iid)) else old(frpc))
      ensures qrtr == (if MaxSize(intents) != 0 && remote == qrtrRemoteCid
                       then Granted(old(qrtr), Intent(MaxSize(intents), qrtr.iid)) else old(qrtr))
      ensures MaxSize(intents) != 0 && remote == remoteCid && remote != qrtrRemoteCid ==>
                Intent(MaxSize(intents), frpc.iid) in intents
      ensures MaxSize(intents) != 0 && remote == qrtrRemoteCid ==> Intent(MaxSize(intents), qrtr.iid) in intents
    {
      if remote == remoteCid || remote == qrtrRemoteCid {
        var best := BestIntent(intents);
        if best.size != 0 {
          if remote == qrtrRemoteCid {
            qrtr := Granted(qrtr, best);
          } else {
            frpc := Granted(frpc, best);
          }
        }
      }
    }

    method ReceiveAll(frames: seq<Rx>)
      requires Sound(frpc) && Sound(qrtr)
      modifies this
      ensures Sound(frpc) && Sound(qrtr)
      ensures frpc.started == old(frpc.started) && qrtr.started == old(qrtr.started)
      ensures frpc.finished == old(frpc.finished) && qrtr.finished == old(qrtr.finished)
      ensures (old(Frugal(frpc)) ==> Frugal(frpc)) && (old(Frugal(qrtr)) ==> Frugal(qrtr))
    {
      for i := 0 to |frames|
        invariant Sound(frpc) && Sound(qrtr)
        invariant frpc.started == old(frpc.started) && qrtr.started == old(qrtr.started)
        invariant frpc.finished == old(frpc.finished) && qrtr.finished == old(qrtr.finished)
        invariant (old(Frugal(frpc)) ==> Frugal(frpc)) && (old(Frugal(qrtr)) ==> Frugal(qrtr))
      {
        Receive(frames[i]);
      }
    }

    /** glink_send_data: an intent large enough is on record, or asked for, before any frame goes out. */
    method SendData(size: nat, polled: seq<Rx>, accepted: seq<bool>) returns (ok: bool)
      requires Sound(frpc) && Sound(qrtr) && |accepted| == (size + CHUNK - 1) / CHUNK
      modifies this
      ensures Sound(frpc) && Sound(qrtr)
      ensures ok ==> 0 < size <= MESSAGE_MAX && size <= frpc.offered && frpc.waitDone
      ensures ok ==> (frpc.iid == frpc.offeredIid <==> !frpc.reopened || frpc.offeredIid == 0)
      ensures frpc.finished == old(frpc.finished) + if ok then 1 else 0
      ensures old(cid) == 0 || size == 0 || size > MESSAGE_MAX ==> !ok && frpc == old(frpc)
      ensures old(cid) != 0 && 0 < size <= MESSAGE_MAX && old(frpc.valid) && size <= old(frpc.isize) ==>
                (ok <==> false !in accepted) && frpc == Sent(old(frpc), size, accepted)
      ensures frpc.started != old(frpc.started) ==> size <= frpc.offered
      ensures (old(Frugal(qrtr)) ==> Frugal(qrtr)) && (size <= CHUNK && old(Frugal(frpc)) ==> Frugal(frpc))
    {
      if cid == 0 || size == 0 || size > MESSAGE_MAX {
        return false;
      }
      if !frpc.valid || frpc.isize < size {
        frpc := Requested(frpc);
        ReceiveAll(polled);
        if !frpc.valid || frpc.isize < size {
          return false;
        }
      }
      SentKeeps(frpc, size, accepted);
      var k, chunks := 0, |accepted|;
      while k < chunks && accepted[k]
        invariant k <= chunks && forall j :: 0 <= j < k ==> accepted[j]
      {
        k := k + 1;
      }
      ok := k == chunks;
      frpc := Sent(frpc, size, accepted);
      assert ok <==> false !in accepted;
    }

    /** glink_qrtr_hello and the request of glink_ssctl_shutdown: single-frame QRTR messages. */
    method SendQrtr(size: nat, txOk: bool) returns (ok: bool)
      requires Sound(frpc) && Sound(qrtr)
      modifies `qrtr
      ensures Sound(qrtr) && (old(Frugal(qrtr)) ==> Frugal(qrtr))
      ensures ok <==> old(qrtr.valid) && size <= old(qrtr.isize) && txOk
      ensures ok ==> size <= qrtr.offered && qrtr.waitDone && qrtr.finished == old(qrtr.finished) + 1
      ensures !ok ==> qrtr == old(qrtr)
    {
      if !qrtr.valid || qrtr.isize < size || !txOk {
        return false;
      }
      qrtr := qrtr.(valid := false, waitDone := true, started := qrtr.started + 1, finished := qrtr.finished + 1);
      return true;
    }

    /** Any run on both channels: whole messages never outnumber grants; if no message is longer than
        one chunk, neither do begun ones. */
    method Run(events: seq<Event>)
      requires Sound(frpc) && Sound(qrtr) && Frugal(qrtr)
      requires forall k :: 0 <= k < |events| && events[k].Send? ==>
                |events[k].accepted| == (events[k].size + CHUNK - 1) / CHUNK
      modifies this
      ensures Sound(frpc) && Sound(qrtr) && Frugal(qrtr)
      ensures frpc.finished <= frpc.grants && qrtr.started <= qrtr.grants
      ensures old(Frugal(frpc)) && (forall k :: 0 <= k < |events| && events[k].Send? ==> events[k].size <= CHUNK) ==>
                Frugal(frpc)
    {
      ghost var short := forall k :: 0 <= k < |events| && events[k].Send? ==> events[k].size <= CHUNK;
      for i := 0 to |events|
        invariant Sound(frpc) && Sound(qrtr) && Frugal(qrtr)
        invariant old(Frugal(frpc)) && short ==> Frugal(frpc)
      {
        var ok;
        match events[i] {
          case Poll(frames) =>
            ReceiveAll(frames);
          case Send(size, polled, accepted) =>
            ok := SendData(size, polled, accepted);
          case Hello(txOk) =>
            if versionAck && qrtrOpenAck && !helloSent {
              ok := SendQrtr(HELLO_SIZE, txOk);
              helloSent := ok;
            }
          case Shutdown(polled, ssctl, txOk) =>
            ReceiveAll(polled);
            if qrtrOpenAck && ssctl {
              ok := SendQrtr(SHUTDOWN_SIZE, txOk);
            }
        }
      }
    }
  }

  /** What the driver does with the channels: its one caller of glink_send_data sends the fixed message header. */
  datatype Call =
    | Polled(frames: seq<Rx>)
    | Submit(polled: seq<Rx>, accepted: bool)
    | SayHello(txOk: bool)
    | AskShutdown(polled: seq<Rx>, ssctl: bool, txOk: bool)

  function EventOf(c: Call): Event {
    match c
    case Polled(frames) => Poll(frames)
    case Submit(polled, accepted) => Send(MESSAGE_SIZE, polled, [accepted])
    case SayHello(txOk) => Hello(txOk)
    case AskShutdown(polled, ssctl, txOk) => Shutdown(polled, ssctl, txOk)
  }

  /** Every run of the driver: on both channels neither begun nor completed messages ever outnumber grants. */
  method Drive(e: Endpoint, calls: seq<Call>)
    requires Sound(e.frpc) && Sound(e.qrtr) && Frugal(e.frpc) && Frugal(e.qrtr)
    modifies e
    ensures Sound(e.frpc) && Sound(e.qrtr) && Frugal(e.frpc) && Frugal(e.qrtr)
    ensures e.frpc.started <= e.frpc.grants && e.qrtr.started <= e.qrtr.grants
  {
    e.Run(seq(|calls|, k requires 0 <= k < |calls| => EventOf(calls[k])));
  }

  /** A channel opened again keeps its intent but forgets its number: the next message names intent 0, which the
      peer did not grant. */
  method ReopenForgetsIntent() returns (e: Endpoint, ok: bool)
    ensures ok && e.frpc.iid == 0 && e.frpc.offeredIid == 7
  {
    e := new Endpoint();
    e.Receive(OpenFrpc(5));
    var intents := [Intent(1024, 7)];
    assert intents[..0] == [] && MaxSize(intents) == 1024;
    e.Receive(Intents(5, intents));
    e.Receive(OpenFrpc(5));
    ok := e.SendData(MESSAGE_SIZE, [], [true]);
  }

  lemma SentKeeps(a: Account, size: nat, accepted: seq<bool>)
    requires Sound(a) && a.valid && 0 < size <= a.isize && |accepted| == (size + CHUNK - 1) / CHUNK
    ensures Sound(Sent(a, size, accepted))
    ensures size <= CHUNK && Frugal(a) ==> Frugal(Sent(a, size, accepted))
  {
  }

  /** Of the function alone, for a size its one caller never asks for: a send that breaks off after its first chunk
      leaves the intent marked available although it has been used.  With two chunks and a ring that refuses the
      second, two messages begin on one grant. */
  lemma BrokenSendReusesIntent()
    ensures var granted := Granted(EMPTY, Intent(16384, 1));
            var once := Sent(granted, 16384, [true, false]);
            var twice := Sent(once, 16384, [true, true]);
            Frugal(granted) && !Frugal(once) && twice.started == 2 && twice.grants == 1
  {
  }

  /** A message is safe from that, whatever the ring does, exactly when it is one chunk or a second grant is unused. */
  lemma FrugalIffOneChunk(a: Account, size: nat)
    requires Sound(a) && Frugal(a) && a.valid && 0 < size <= a.isize
    ensures (forall accepted: seq<bool> :: |accepted| == (size + CHUNK - 1) / CHUNK ==> Frugal(Sent(a, size, accepted)))
            <==> size <= CHUNK || a.started + 2 <= a.grants
  {
    if size > CHUNK && a.started + 2 > a.grants {
      var n := (size + CHUNK - 1) / CHUNK;
      var broken := [true] + seq(n - 1, _ => false);
      assert broken[1] == false;
      assert !Frugal(Sent(a, size, broken));
    }
  }
}
