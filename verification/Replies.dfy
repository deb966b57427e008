/** The table of outstanding method calls of aj_introspect.c, over runs in which the serial number does not wrap. */
module Replies {
  import opened Common

  const DEFAULT_REPLY_TIMEOUT := 20000
  const INVALID_MSG_ID := 0xFFFF_FFFF
  const REPLY_FLAG := 0x8000_0000

  /** AJ_REPLY_ID: sets the reply bit. */
  function ReplyId(id: nat): nat
    requires id < 0x1_0000_0000
  {
    if id < REPLY_FLAG then id + REPLY_FLAG else id
  }

  /** The message id of a reply: that of its call with the highest of 32 bits set. */
  predicate IsReplyTo(id: nat, call: nat) {
    0x8000_0000 <= id < 0x1_0000_0000 && id % 0x8000_0000 == call % 0x8000_0000
  }

  lemma ReplyIdIs(id: nat, call: nat)
    requires call < 0x1_0000_0000
    ensures IsReplyTo(id, call) <==> id == ReplyId(call)
  {
  }

  /** ReplyContext; serial 0 means unused. */
  datatype Context = Context(serial: nat, messageId: nat, timeout: nat, callTime: int)

  class ReplyTable {
    const contexts: array<Context>
    /** The bus's next serial number. */
    var serial: nat
    /** Every call that has been given a context, with its message id. */
    ghost var calls: map<nat, nat>
    /** The calls that have been completed: by a reply, a timeout or a release. */
    ghost var done: set<nat>

    ghost predicate Valid()
      reads this, contexts
    {
      && serial <= 0x1_0000_0000
      && (forall i :: 0 <= i < contexts.Length && contexts[i].serial != 0 ==>
            contexts[i].serial in calls && calls[contexts[i].serial] == contexts[i].messageId
              && contexts[i].serial !in done)
      && (forall i, j :: 0 <= i < j < contexts.Length && contexts[i].serial != 0 ==>
           contexts[i].serial != contexts[j].serial)
      && (forall s :: s in calls ==> 0 < s < serial && calls[s] < 0x1_0000_0000)
      && (forall s :: s in calls && s !in done ==> exists i :: 0 <= i < contexts.Length && contexts[i].serial == s)
      && done <= calls.Keys
    }

    /** Contexts in use are as they were. */
    twostate predicate OthersKept()
      reads this, contexts
    {
      forall i :: 0 <= i < contexts.Length && contexts[i].serial != 0 ==> contexts[i] == old(contexts[i])
    }

    /** An unused context has been taken, and no other has changed. */
    twostate predicate Taken(i: nat, c: Context)
      reads this, contexts
    {
      i < contexts.Length && old(contexts[i].serial) == 0 && contexts[..] == old(contexts[..])[i := c]
    }

    /** A call that has been made and not completed. */
    ghost predicate Outstanding(s: nat)
      reads this
    {
      s in calls && s !in done
    }

    constructor (n: nat, first: nat)
      requires first < 0x1_0000_0000
      ensures Valid() && calls == map[] && done == {} && contexts.Length == n && fresh(contexts) && serial == first
    {
      contexts := new Context[n](_ => Context(0, 0, 0, 0));
      serial, calls, done := first, map[], {};
    }

    /** The loop of MarshalMsg that gives a message its serial number. */
    method NextSerial() returns (s: nat)
      requires Valid() && serial < 0xFFFF_FFFF
      modifies this`serial
      ensures Valid() && 0 < s < serial && s >= old(serial) && serial <= old(serial) + 2
    {
      s := serial;
      serial := serial + 1;
      while serial == 1
        invariant serial == s + 1 && s >= old(serial) && serial <= old(serial) + 2 && Valid()
        decreases 2 - serial
      {
        s := serial;
        serial := serial + 1;
      }
    }

    /** FindReplyContext. */
    method Find(s: nat) returns (i: nat)
      requires Valid()
      ensures i <= contexts.Length && (i < contexts.Length ==> contexts[i].serial == s)
      ensures i == contexts.Length ==> forall j :: 0 <= j < contexts.Length ==> contexts[j].serial != s
      ensures s != 0 ==> (i < contexts.Length <==> Outstanding(s))
      ensures s != 0 && i < contexts.Length ==> contexts[i].messageId == calls[s]
    {
      i := 0;
      while i < contexts.Length
        invariant i <= contexts.Length && forall j :: 0 <= j < i ==> contexts[j].serial != s
      {
        if contexts[i].serial == s {
          return;
        }
        i := i + 1;
      }
    }

    /** AJ_AllocReplyContext, for the message that was just given the serial number `s`. */
    method AllocReplyContext(s: nat, messageId: nat, noReply: bool, timeout: nat, now: int)
      returns (status: Status, ghost slot: nat)
      requires Valid() && 0 < s < serial && s !in calls && messageId < 0x1_0000_0000
      modifies this`calls, contexts
      ensures Valid()
      ensures status == if noReply || old(exists i :: 0 <= i < contexts.Length && contexts[i].serial == 0)
        then OK else ErrResources
      ensures calls == if status == OK && !noReply then old(calls)[s := messageId] else old(calls)
      ensures status == OK && !noReply ==>
        Taken(slot, Context(s, messageId, if timeout != 0 then timeout else 20000, now))
      ensures status != OK || noReply ==> contexts[..] == old(contexts[..])
    {
      slot := 0;
      if noReply {
        return OK, slot;
      }
      var i := Find(0);
      if i == contexts.Length {
        return ErrResources, slot;
      }
      slot := i;
      ghost var before := contexts[..];
      contexts[i] := Context(s, messageId, if timeout != 0 then timeout else DEFAULT_REPLY_TIMEOUT, now);
      calls := calls[s := messageId];
      forall t | t in calls && t !in done ensures exists j :: 0 <= j < contexts.Length && contexts[j].serial == t {
        if t == s {
          assert contexts[i].serial == t;
        } else {
          var j :| 0 <= j < |before| && before[j].serial == t;
          assert contexts[j].serial == t;
        }
      }
      return OK, slot;
    }

    /** Setting a context's serial number to 0. */
    method Clear(i: nat)
      requires Valid() && i < contexts.Length && contexts[i].serial != 0
      modifies this`done, contexts
      ensures Valid() && done == old(done) + {old(contexts[i].serial)}
      ensures contexts[..] == old(contexts[..])[i := old(contexts[i]).(serial := 0)]
    {
      ghost var s := contexts[i].serial;
      ghost var before := contexts[..];
      done := done + {s};
      contexts[i] := contexts[i].(serial := 0);
      forall t | t in calls && t !in done ensures exists j :: 0 <= j < contexts.Length && contexts[j].serial == t {
        var j :| 0 <= j < |before| && before[j].serial == t;
        assert contexts[j].serial == t;
      }
    }

    /**
     The reply half of AJ_IdentifyMessage.  `check` is what CheckReturnSignature says of the
     message; the context is released whatever it says.  A reply without a serial number has been
     rejected before.
     */
    method IdentifyReply(replySerial: nat, check: Status) returns (status: Status, msgId: nat)
      requires Valid() && replySerial != 0
      modifies this`done, contexts
      ensures Valid() && OthersKept()
      ensures done == if old(Outstanding(replySerial)) then old(done) + {replySerial} else old(done)
      ensures status == if old(Outstanding(replySerial)) then check else ErrNoMatch
      ensures old(Outstanding(replySerial)) && check == OK ==> IsReplyTo(msgId, calls[replySerial])
      ensures !old(Outstanding(replySerial)) || check != OK ==> msgId == 0xFFFF_FFFF
    {
      status, msgId := ErrNoMatch, INVALID_MSG_ID;
      var i := Find(replySerial);
      if i < contexts.Length {
        status := check;
        if check == OK {
          msgId := ReplyId(contexts[i].messageId);
          ReplyIdIs(msgId, contexts[i].messageId);
        }
        Clear(i);
      }
    }

    /** AJ_ReleaseReplyContext of a method call. */
    method Release(s: nat)
      requires Valid() && s != 0
      modifies this`done, contexts
      ensures Valid() && OthersKept() && done == if old(Outstanding(s)) then old(done) + {s} else old(done)
    {
      var i := Find(s);
      if i < contexts.Length {
        Clear(i);
      }
    }

    /** AJ_TimedOutMethodCall: completes the first outstanding call whose time is up. */
    method TimedOut(now: int) returns (found: bool, replySerial: nat, msgId: nat)
      requires Valid()
      modifies this`done, contexts
      ensures Valid() && OthersKept()
      ensures found <==> exists i ::
        0 <= i < contexts.Length && old(contexts[i].serial != 0 && now - contexts[i].callTime > contexts[i].timeout)
      ensures found ==>
        old(Outstanding(replySerial)) && IsReplyTo(msgId, calls[replySerial]) && done == old(done) + {replySerial}
      ensures !found ==> done == old(done)
    {
      for i := 0 to contexts.Length
        invariant forall j :: 0 <= j < i ==>
          !(contexts[j].serial != 0 && now - contexts[j].callTime > contexts[j].timeout)
        invariant Valid() && done == old(done) && contexts[..] == old(contexts[..])
      {
        var c := contexts[i];
        if c.serial != 0 && now - c.callTime > c.timeout {
          Clear(i);
          ReplyIdIs(ReplyId(c.messageId), c.messageId);
          return true, c.serial, ReplyId(c.messageId);
        }
      }
      return false, 0, INVALID_MSG_ID;
    }

    /** AJ_ReleaseReplyContexts. */
    method ReleaseAll()
      requires Valid()
      modifies this`done, contexts
      ensures Valid() && done == calls.Keys
    {
      forall i | 0 <= i < contexts.Length {
        contexts[i] := Context(0, 0, 0, 0);
      }
      done := calls.Keys;
    }

    /** A method call as AJ_MarshalMethodCall makes it: its serial number has never been a call's before. */
    method MethodCall(messageId: nat, noReply: bool, timeout: nat, now: int) returns (status: Status, s: nat)
      requires Valid() && serial < 0xFFFF_FFFF && messageId < 0x1_0000_0000
      modifies this`serial, this`calls, contexts
      ensures Valid() && s != 0 && s !in old(calls)
      ensures calls == if status == OK && !noReply then old(calls)[s := messageId] else old(calls)
    {
      s := NextSerial();
      ghost var slot;
      status, slot := AllocReplyContext(s, messageId, noReply, timeout, now);
    }
  }
}
