/** Whole messages: marshaled, carried over the link, unmarshaled, reset and closed. */
module Session {
  import opened Common
  import opened Wire
  import opened Args
  import opened IoBuf
  import Marshaling
  import Unmarshaling
  import MarshalClient
  import opened UnmarshalClient
  import opened Decoding
  import opened Skipping
  import opened Framing

  /**
   The round trip.  `out` has its header in its transmit buffer and nothing of its body;
   `in_` has taken the same header out of its receive buffer, which is at least as large.
   The arguments `vs` are marshaled, what was marshaled is put on the link with whatever
   follows it, and arguments are unmarshaled until the signature is used up.  Unless the
   arguments do not fit or the link fails, the same arguments come back, exactly the octets
   written are consumed, and nothing is left of the body or of the signature.
   */
  method RoundTrip(out: Marshaling.Message, in_: Unmarshaling.Message, vs: seq<Value>, flatOut: bool, flatIn: bool,
                   following: seq<byte>)
    returns (status: Status, got: seq<Value>)
    requires forall i :: 0 <= i < |vs| ==> WellFormed(vs[i]) && |SigOf(vs[i])| < 256
    requires out.ValidTx() && out.outer == null && out.varOffset == 0 && out.sigOffset == 0 && out.bodyBytes == 0
    requires in_.ValidRx() && in_.outer == null && in_.varOffset == 0 && in_.sigOffset == 0 && !in_.scalarAsElement
    requires out.signature == SigsOf(vs) && in_.signature == SigsOf(vs)
    requires out.tx != in_.rx && out.tx.data != in_.rx.data && out.tx.data.Length <= in_.rx.data.Length
    requires in_.rx.readPos == in_.rx.writePos == out.tx.writePos
    modifies out, out.tx, out.tx.data, in_, in_.rx, in_.rx.data
    ensures status == OK || in_.rx.failed || |EncAll(vs, old(out.tx.writePos))| > old(out.tx.Space())
    ensures status == OK ==> got == vs && in_.rx.Valid() && in_.rx.Unread() == following
    ensures status == OK ==> in_.rx.readPos == out.tx.writePos && in_.bodyBytes == 0 && in_.sigOffset == |in_.signature|
  {
    hide Enc, EncAll, SigOf, SigsOf, WellFormed, CStr;
    got := [];
    ghost var start := out.tx.writePos;
    NothingAfter(SigsOf(vs));
    status := MarshalClient.PutAll(out, vs, flatOut, SigsOf(vs), []);
    if status == OK {
      var wire := out.tx.data[in_.rx.writePos..out.tx.writePos];
      assert wire == EncAll(vs, start);
      in_.rx.incoming := wire + following;
      in_.bodyBytes := out.bodyBytes;
      ghost var r := in_.rx.Received();
      OnTheLink(in_.rx.data[..in_.rx.writePos], wire, following);
      status, got := GetFields(in_, flatIn, vs, [], r);
      if status == OK {
        assert r[in_.rx.readPos..] == following;
      }
    }
  }

  lemma OnTheLink(before: seq<byte>, wire: seq<byte>, following: seq<byte>)
    ensures At(before + (wire + following), |before|, wire)
    ensures (before + (wire + following))[|before| + |wire|..] == following
  {
  }

  /**
   The arguments `vs` are what is left of the message: its signature ends with them, and its body
   with the `mac` octets that a decrypted message still counts.
   */
  ghost predicate ArgsLeft(msg: Unmarshaling.Message, vs: seq<Value>, end: nat, mac: nat, r: seq<byte>)
    reads msg, msg.rx, msg.rx.data
  {
    && AllWaiting(msg, vs, r) && msg.outer == null && msg.signature[msg.sigOffset..] == SigsOf(vs)
    && msg.rx.readPos + |EncAll(vs, msg.rx.readPos)| == end && msg.bodyBytes == end - msg.rx.readPos + mac
  }

  /** The message whose header is `h` has exactly the arguments `vs`, all of them in the buffer's reach. */
  ghost predicate HasArgs(msg: Unmarshaling.Message, h: Unmarshaling.Header, vs: seq<Value>, end: nat, mac: nat,
                          r: seq<byte>)
    reads msg
  {
    && msg.hdr == Some(h) && msg.signature == SigsOf(vs)
    && (forall i :: 0 <= i < |vs| ==> WellFormed(vs[i]) && |SigOf(vs[i])| < 256)
    && At(r, BodyStart(h), EncAll(vs, BodyStart(h)))
    && BodyStart(h) + |EncAll(vs, BodyStart(h))| == end && h.bodyLen == |EncAll(vs, BodyStart(h))| + mac
  }

  /**
   AJ_ResetArgs from an argument boundary: `k` of the arguments `vs` have been read.  If the
   ones that are left can be skipped, the message is as it was before its first argument was
   read; if not, the reset fails.
   */
  method ResetArgs(msg: Unmarshaling.Message, h: Unmarshaling.Header, ghost vs: seq<Value>, ghost k: nat,
                   ghost end: nat, ghost mac: nat, ghost r: seq<byte>)
    returns (status: Status)
    requires
      && k <= |vs| && HasArgs(msg, h, vs, end, mac, r) && ArgsLeft(msg, vs[k..], end, mac, r)
      && BodyStart(h) <= msg.rx.readPos
    modifies msg, msg.rx, msg.rx.data
    ensures status == OK ==> ArgsLeft(msg, vs, end, mac, r) && msg.rx.readPos == BodyStart(h)
    ensures !msg.rx.failed ==>
      (status == OK <==> vs == [] || (mac == 0 && forall i :: k <= i < |vs| ==> Skippable(vs[i])))
  {
    hide Enc, EncAll, SigOf, SigsOf, WellFormed, CStr, Skippable;
    status := OK;
    SigsEmpty(vs);
    if msg.signature == [] {
      return;
    }
    ghost var j := k;
    while msg.bodyBytes != 0 && status == OK
      invariant k <= j <= |vs|
      invariant status == OK ==> HasArgs(msg, h, vs, end, mac, r) && SomeSkipped(msg, vs, k, j, end, mac, r)
      invariant status != OK ==> msg.rx.failed || mac > 0 || exists i :: k <= i < |vs| && !Skippable(vs[i])
      decreases if status == OK then 1 else 0, |vs| - j
    {
      status := SkipOne(msg, vs, k, j, end, mac, r);
      j := if status == OK then j + 1 else j;
    }
    SkippedAll(vs, j, msg.rx.readPos);
    if status == OK {
      msg.rx.readPos := BodyStart(h);
      msg.sigOffset := 0;
      msg.bodyBytes := h.bodyLen;
    }
  }

  /** Reads the first `k` of the arguments that are left. */
  method TakeArgs(msg: Unmarshaling.Message, flat: bool, k: nat, ghost vs: seq<Value>, ghost end: nat, ghost mac: nat,
                  ghost r: seq<byte>)
    returns (status: Status, got: seq<Value>)
    requires k <= |vs| && ArgsLeft(msg, vs, end, mac, r)
    modifies msg, msg.rx, msg.rx.data
    ensures status == OK || msg.rx.failed
    ensures status == OK ==> got == vs[..k] && ArgsLeft(msg, vs[k..], end, mac, r) && msg.open == old(msg.open)
  {
    hide Enc, EncAll, SigOf, SigsOf, WellFormed, CStr;
    status, got := OK, [];
    if k == 0 {
      assert vs[0..] == vs;
      return;
    }
    ghost var at := msg.rx.readPos;
    MarshalClient.HeadAndRest(vs, at, []);
    NothingAfter(SigsOf(vs));
    NothingAfter(SigsOf(vs[1..]));
    AtSplit(r, at, Enc(vs[0], at), EncAll(vs[1..], at + |Enc(vs[0], at)|));
    DropSum(SigOf(vs[0]), SigsOf(vs[1..]));
    var head;
    status, head := Get(msg, flat, vs[0], msg.NextArgSig(), SigsOf(vs[1..]), r);
    if status == OK {
      var tail;
      status, tail := TakeArgs(msg, flat, k - 1, vs[1..], end, mac, r);
      got := [head] + tail;
      TakeOneMore(vs, k);
    }
  }

  lemma TakeOneMore(vs: seq<Value>, k: nat)
    requires 0 < k <= |vs|
    ensures vs[1..][k - 1..] == vs[k..] && [vs[0]] + vs[1..][..k - 1] == vs[..k]
  {
  }

  /**
   Framing: however many of its arguments were unmarshaled, closing a message leaves the
   stream exactly where the next message starts.
   */
  method TakeAndClose(msg: Unmarshaling.Message, flat: bool, k: nat, ghost vs: seq<Value>, ghost end: nat,
                      ghost mac: nat, ghost r: seq<byte>)
    returns (status: Status, got: seq<Value>)
    requires k <= |vs| && ArgsLeft(msg, vs, end, mac, r) && msg.open && msg.rx.data.Length > 0
    modifies msg, msg.rx, msg.rx.data
    ensures status == OK || msg.rx.failed
    ensures status == OK ==> got == vs[..k] && Discarded(msg, r, end + mac)
  {
    hide Enc, EncAll, SigOf, SigsOf, WellFormed, CStr;
    status, got := TakeArgs(msg, flat, k, vs, end, mac, r);
    if status == OK {
      DropDrop(r, msg.rx.readPos, msg.bodyBytes);
      status := CloseMsg(msg);
    }
  }

  /** In the middle of AJ_ResetArgs: of the arguments `vs`, those from `k` to `j` have been skipped. */
  ghost predicate SomeSkipped(msg: Unmarshaling.Message, vs: seq<Value>, k: nat, j: nat, end: nat, mac: nat,
                              r: seq<byte>)
    requires k <= j <= |vs|
    reads msg, msg.rx, msg.rx.data
  {
    && msg.ValidRx() && r == msg.rx.Received() && msg.outer == null
    && (if msg.varOffset == 0 then ArgsLeft(msg, vs[j..], end, mac, r) && forall i :: k <= i < j ==> Skippable(vs[i])
        else msg.bodyBytes != 0 && exists i :: k <= i < j && !Skippable(vs[i]))
  }

  method SkipOne(msg: Unmarshaling.Message, ghost vs: seq<Value>, ghost k: nat, ghost j: nat, ghost end: nat,
                 ghost mac: nat, ghost r: seq<byte>)
    returns (status: Status)
    requires k <= j <= |vs| && SomeSkipped(msg, vs, k, j, end, mac, r) && msg.bodyBytes != 0
    modifies msg, msg.rx, msg.rx.data
    ensures status == OK ==> msg.signature == old(msg.signature) && msg.hdr == old(msg.hdr)
    ensures status == OK ==> j < |vs| && SomeSkipped(msg, vs, k, j + 1, end, mac, r)
    ensures status != OK ==> msg.rx.failed || mac > 0 || exists i :: k <= i < |vs| && !Skippable(vs[i])
  {
    hide Enc, EncAll, SigOf, SigsOf, WellFormed, CStr, Skippable;
    ghost var left := vs[j..];
    ghost var at := msg.rx.readPos;
    MarshalClient.HeadAndRest(left, at, []);
    NothingAfter(SigsOf(left));
    if left != [] {
      AtSplit(r, at, Enc(left[0], at), EncAll(left[1..], at + |Enc(left[0], at)|));
      assert left[1..] == vs[j + 1..];
      NothingAfter(SigsOf(left[1..]));
      DropSum(SigOf(left[0]), SigsOf(left[1..]));
    }
    status :=
      SkipArg(msg, if left != [] then left[0]
      else Struct(false, []), msg.NextArgSig(), SigsOf(vs[Min(j + 1, |vs|)..]), r);
  }

  lemma SkippedAll(vs: seq<Value>, j: nat, at: nat)
    requires j <= |vs|
    ensures |EncAll(vs[j..], at)| == 0 && (forall i :: 0 <= i < |vs| ==> WellFormed(vs[i])) ==> j == |vs|
  {
    if j < |vs| && WellFormed(vs[j]) {
      EncNonEmpty(vs[j], at);
    }
  }

  lemma SigsEmpty(vs: seq<Value>)
    ensures SigsOf(vs) == [] <==> vs == []
    ensures forall at: nat :: EncAll([], at) == []
  {
  }
}
