/** "Everyone except one": the login loop of freezer/lib/user_netlink.c. */
module Broadcasts {
  import opened CTypes
  import opened Netlink

  /** What `getpwnam_r` says about one login entry. */
  datatype Resolution = LookupError | NoSuchUser | ResolvedTo(uid: uint32)

  /** What the system calls of one `send_socket_msg` give back. */
  datatype Exchange = Exchange(socketOpened: bool, messageSent: bool, reply: int, closeResult: int)

  /** `send_socket_msg` */
  function SendSocketMsg(e: Exchange): bool {
    if !e.socketOpened then false
    else if !e.messageSent then false
    else if e.reply != NLMSG_DONE then false
    else if e.closeResult == 0 then false
    else true
  }

  /** The kernel acknowledged the command. */
  predicate Acknowledged(e: Exchange) {
    e.socketOpened && e.messageSent && e.reply == NLMSG_DONE
  }

  /** The reported result agrees with the acknowledgement exactly when closing the socket
      fails, or there was no acknowledgement to report. */
  lemma ReportIsFaithfulIff(e: Exchange)
    ensures SendSocketMsg(e) == Acknowledged(e) <==> !(Acknowledged(e) && e.closeResult == 0)
    ensures Acknowledged(e) <==> e.socketOpened && e.messageSent && e.reply == 3
  {
  }

  /** The uids the loop would message, up to the first lookup error. */
  function Targets(logins: seq<Resolution>, except: uint32): seq<uint32> {
    if logins == [] || logins[0].LookupError? then []
    else if logins[0].ResolvedTo? && logins[0].uid != except then [logins[0].uid] + Targets(logins[1..], except)
    else Targets(logins[1..], except)
  }

  /** Every login entry counts, in order, repeats included, up to the first lookup error. */
  lemma {:induction false} TargetsSplit(a: seq<Resolution>, b: seq<Resolution>, except: uint32)
    ensures Targets(a + b, except) == Targets(a, except) + if LookupError in a then [] else Targets(b, except)
  {
    if a == [] {
      assert a + b == b;
    } else {
      assert (a + b)[1..] == a[1..] + b && a == [a[0]] + a[1..];
      TargetsSplit(a[1..], b, except);
    }
  }

  lemma TargetOfOne(login: Resolution, except: uint32)
    ensures Targets([login], except) == if login.ResolvedTo? && login.uid != except then [login.uid] else []
  {
    assert [login][1..] == [];
  }

  /** Without lookup errors the targets are exactly the resolved uids other than the
      excepted one. */
  lemma {:induction false} TargetsAreTheOthers(logins: seq<Resolution>, except: uint32, u: uint32)
    requires LookupError !in logins
    ensures u in Targets(logins, except) <==> u != except && ResolvedTo(u) in logins
  {
    if logins != [] {
      TargetsAreTheOthers(logins[1..], except, u);
      assert logins == [logins[0]] + logins[1..];
    }
  }

  /** The outcome of a broadcast: the targets in order, up to and including the first
      one whose send reports false. */
  ghost predicate BroadcastOf(targets: seq<uint32>, exchanges: nat -> Exchange, sent: seq<uint32>) {
    && sent <= targets
    && (forall k: nat | k < |sent| - 1 :: SendSocketMsg(exchanges(k)))
    && (|sent| < |targets| ==> |sent| > 0 && !SendSocketMsg(exchanges(|sent| - 1)))
  }

  /** `send_socket_msg_except_uid`; the k-th message goes through `exchanges(k)`. */
  method SendSocketMsgExceptUid(logins: seq<Resolution>, uid: uint32, exchanges: nat -> Exchange)
    returns (ok: bool, sent: seq<uint32>)
    ensures BroadcastOf(Targets(logins, uid), exchanges, sent)
    ensures ok <==> LookupError !in logins && sent == Targets(logins, uid) &&
                    forall k: nat | k < |sent| :: SendSocketMsg(exchanges(k))
  {
    sent := [];
    var entry := 0;
    while entry < |logins|
      invariant 0 <= entry <= |logins|
      invariant forall k | 0 <= k < entry :: !logins[k].LookupError?
      invariant sent + Targets(logins[entry..], uid) == Targets(logins, uid)
      invariant forall k: nat | k < |sent| :: SendSocketMsg(exchanges(k))
    {
      assert logins[entry..][1..] == logins[entry + 1..];
      if logins[entry].LookupError? {
        assert logins[entry] in logins;
        return false, sent;
      }

      if logins[entry].ResolvedTo? {
        if logins[entry].uid != uid {
          var attempt := |sent|;
          sent := sent + [logins[entry].uid];
          if !SendSocketMsg(exchanges(attempt)) {
            assert !SendSocketMsg(exchanges(|sent| - 1));
            return false, sent;
          }
        }
      }

      entry := entry + 1;
    }

    return true, sent;
  }

  /** Everyone else is messaged exactly when all sends but the last report true. */
  lemma {:induction false} EveryoneIsMessagedIff(targets: seq<uint32>, exchanges: nat -> Exchange, sent: seq<uint32>)
    requires BroadcastOf(targets, exchanges, sent)
    ensures sent == targets <==> forall k: nat | k < |targets| - 1 :: SendSocketMsg(exchanges(k))
  {
  }

  /** So as long as sockets close without error, a broadcast to any number of users stops
      after its first message. */
  lemma CleanCloseStopsTheBroadcast(targets: seq<uint32>, exchanges: nat -> Exchange, sent: seq<uint32>)
    requires BroadcastOf(targets, exchanges, sent)
    requires forall k: nat :: exchanges(k).closeResult == 0
    ensures |sent| == if targets == [] then 0 else 1
  {
    assert !SendSocketMsg(exchanges(0));
  }

  /// What reaches the kernel

  /** The kernel gets a message once the socket is open and the message is sent, whatever
      becomes of the reply. */
  predicate Arrives(e: Exchange) {
    e.socketOpened && e.messageSent
  }

  /** The uids whose messages reach the kernel. */
  function Arrived(sent: seq<uint32>, exchanges: nat -> Exchange): (got: seq<uint32>)
    ensures forall u | u in got :: u in sent
  {
    if sent == [] then []
    else
      var n := |sent| - 1;
      Arrived(sent[..n], exchanges) + if Arrives(exchanges(n)) then [sent[n]] else []
  }

  lemma {:induction false} AllArrive(sent: seq<uint32>, exchanges: nat -> Exchange)
    requires forall k: nat | k < |sent| :: Arrives(exchanges(k))
    ensures Arrived(sent, exchanges) == sent
    decreases |sent|
  {
    if sent != [] {
      AllArrive(sent[..|sent| - 1], exchanges);
    }
  }

  lemma {:induction false} AllButTheLastArrive(sent: seq<uint32>, exchanges: nat -> Exchange)
    requires sent != [] && forall k: nat | k < |sent| - 1 :: Arrives(exchanges(k))
    ensures Arrived(sent, exchanges) == if Arrives(exchanges(|sent| - 1)) then sent else sent[..|sent| - 1]
  {
    var n := |sent| - 1;
    AllArrive(sent[..n], exchanges);
    assert sent == sent[..n] + [sent[n]];
  }

  /** Of a broadcast at most the last message is lost. */
  lemma {:induction false} OnlyTheLastIsLost(targets: seq<uint32>, exchanges: nat -> Exchange, sent: seq<uint32>)
    requires BroadcastOf(targets, exchanges, sent)
    ensures Arrived(sent, exchanges) ==
            if sent != [] && !(exchanges(|sent| - 1).socketOpened && exchanges(|sent| - 1).messageSent)
            then sent[..|sent| - 1] else sent
  {
    if sent != [] {
      forall k: nat | k < |sent| - 1
        ensures Arrives(exchanges(k))
      {
        assert SendSocketMsg(exchanges(k));
      }
      AllButTheLastArrive(sent, exchanges);
    }
  }

  /** Everyone else is reached exactly when all sends but the last report true and the last
      one gets through. */
  lemma EveryoneIsReachedIff(targets: seq<uint32>, exchanges: nat -> Exchange, sent: seq<uint32>)
    requires BroadcastOf(targets, exchanges, sent)
    ensures Arrived(sent, exchanges) == targets <==>
            (forall k: nat | k < |targets| - 1 :: SendSocketMsg(exchanges(k))) &&
            (targets != [] ==> Arrives(exchanges(|targets| - 1)))
  {
    OnlyTheLastIsLost(targets, exchanges, sent);
    EveryoneIsMessagedIff(targets, exchanges, sent);
  }

  lemma {:induction false} ExceptedIsNoTarget(logins: seq<Resolution>, except: uint32)
    ensures except !in Targets(logins, except)
  {
    if logins != [] {
      ExceptedIsNoTarget(logins[1..], except);
    }
  }
}
