/**
 The I/O buffers: a fixed array with a read and a write index, filled by `recv` and drained
 by `send`.  What the other end of the link does is an input of the model: `incoming` is what
 it will still deliver, `events` how it will deliver it, `sends` how often a send succeeds.
 */
module IoBuf {
  import opened Common

  /** What one call of recv does. */
  datatype RxEvent = Chunk(max: nat) | Interrupted | Timeout

  class IoBuffer {
    const data: array<byte>
    var readPos: nat
    var writePos: nat
    var incoming: seq<byte>
    var events: seq<RxEvent>
    var sends: nat
    var sent: seq<byte>
    /** Set once a recv or a send has reported an error. */
    ghost var failed: bool

    ghost predicate InBounds()
      reads this
    {
      writePos <= data.Length < 0x1_0000
    }

    ghost predicate Valid()
      reads this
    {
      InBounds() && readPos <= writePos
    }

    /** Everything received since the buffer was last rebased, and everything still to come. */
    ghost function Received(): seq<byte>
      requires InBounds()
      reads this, data
    {
      data[..writePos] + incoming
    }

    /** What has not been read yet. */
    ghost function Unread(): (s: seq<byte>)
      requires Valid()
      reads this, data
      ensures s == Received()[readPos..]
    {
      data[readPos..writePos] + incoming
    }

    /** What has been written, whether or not it has been sent. */
    ghost function Written(): seq<byte>
      requires InBounds()
      reads this, data
    {
      sent + data[..writePos]
    }

    /** What the buffer holds. */
    function Bytes(): (s: seq<byte>)
      requires InBounds()
      reads this, data
      ensures |s| == writePos
    {
      data[..writePos]
    }

    constructor (buffer: array<byte>)
      requires buffer.Length < 0x1_0000
      ensures data == buffer && Valid() && readPos == writePos == 0
      ensures incoming == [] && events == [] && sends == 0 && sent == [] && !failed
    {
      data := buffer;
      readPos, writePos := 0, 0;
      incoming, events, sends, sent := [], [], 0, [];
      failed := false;
    }

    function Avail(): nat
      requires Valid()
      reads this
    {
      writePos - readPos
    }

    function Space(): nat
      requires InBounds()
      reads this
    {
      data.Length - writePos
    }

    /** Receives some octets: at least one, perhaps fewer or more than were asked for. */
    method Recv() returns (status: Status)
      requires InBounds()
      modifies this`writePos, this`incoming, this`events, this`failed, data
      ensures InBounds() && old(writePos) <= writePos
      ensures Received() == old(Received())
      ensures events == [] || |events| < old(|events|)
      ensures status == OK <==>
        old(events != [] && events[0].Chunk? && events[0].max > 0 && incoming != [] && Space() > 0)
      ensures failed <==> old(failed) || (status != OK && status != ErrInterrupted)
      ensures status == OK || status == ErrInterrupted ==> |events| < old(|events|)
      ensures old(failed) ==> failed
    {
      if events == [] {
        failed := true;
        return ErrRead;
      }
      var e := events[0];
      events := events[1..];
      match e
      case Interrupted => return ErrInterrupted;
      case Timeout =>
        failed := true;
        return ErrTimeout;
      case Chunk(max) =>
        var n := Min(max, Min(Space(), |incoming|));
        if n == 0 {
          failed := true;
          return ErrRead;
        }
        ghost var before := data[..writePos];
        forall i | 0 <= i < n {
          data[writePos + i] := incoming[i];
        }
        assert data[..writePos + n] == before + incoming[..n];
        assert incoming == incoming[..n] + incoming[n..];
        writePos := writePos + n;
        incoming := incoming[n..];
        status := OK;
    }

    /**
     Makes sure `numBytes` octets beyond `pad` octets of padding are in the buffer and skips
     the padding.  Both counts are 8- or 16-bit in the code, and so is their sum.
     */
    method LoadBytes(numBytes: nat, pad: nat) returns (status: Status)
      requires Valid() && numBytes < 0x1_0000 && pad < 0x100
      modifies this`readPos, this`writePos, this`incoming, this`events, this`failed, data
      ensures InBounds() && old(writePos) <= writePos
      ensures Received() == old(Received())
      ensures readPos == old(readPos) + (if status == OK then pad else 0)
      ensures numBytes + pad < 0x1_0000 ==> (status == ErrResources <==> numBytes + pad > data.Length - old(readPos))
      ensures numBytes + pad < 0x1_0000 && status == OK ==> readPos + numBytes <= writePos
      ensures status == OK || status == ErrResources || failed
      ensures status != ErrInterrupted
      ensures old(failed) ==> failed
    {
      status := OK;
      var need := (numBytes + pad) % 0x1_0000;
      if need > data.Length - readPos {
        return ErrResources;
      }
      while Avail() < need
        invariant Valid() && readPos == old(readPos) && old(writePos) <= writePos
        invariant Received() == old(Received())
        invariant status == OK && (old(failed) ==> failed)
        decreases |events|
      {
        status := Recv();
        if status != OK {
          if status == ErrInterrupted {
            status := OK;
            continue;
          }
          if status == ErrTimeout || status == ErrResources {
            status := ErrRead;
          }
          break;
        }
      }
      if status == OK {
        readPos := readPos + pad;
      }
    }

    /** Moves the read position over octets that are in the buffer. */
    method Skip(n: nat)
      requires Valid() && n <= Avail()
      modifies this`readPos
      ensures Valid() && readPos == old(readPos) + n && Received() == old(Received())
      ensures n <= |old(Unread())| && Unread() == old(Unread())[n..]
    {
      ghost var all := Received();
      readPos := readPos + n;
      assert all[readPos..] == all[readPos - n..][n..];
    }

    /** Hands the whole buffer to the link. */
    method Send() returns (status: Status)
      requires InBounds()
      modifies this`readPos, this`writePos, this`sent, this`sends, this`failed
      ensures InBounds()
      ensures status == OK ==> writePos == 0 && readPos == 0 && Written() == old(Written())
      ensures status != OK ==> failed && writePos == old(writePos) && sent == old(sent)
      ensures old(failed) ==> failed
      ensures status == OK <==> old(sends) > 0
    {
      if sends == 0 {
        failed := true;
        return ErrWrite;
      }
      sends := sends - 1;
      sent := sent + data[..writePos];
      readPos, writePos := 0, 0;
      status := OK;
    }

    /** Copies octets that are known to fit to the write position. */
    method Append(bytes: seq<byte>)
      requires InBounds() && |bytes| <= Space()
      modifies this`writePos, data
      ensures InBounds() && writePos == old(writePos) + |bytes|
      ensures data[..writePos] == old(data[..writePos]) + bytes
      ensures Written() == old(Written()) + bytes
    {
      ghost var before := data[..writePos];
      forall i | 0 <= i < |bytes| {
        data[writePos + i] := bytes[i];
      }
      assert data[..writePos + |bytes|] == before + bytes;
      assert sent + (before + bytes) == (sent + before) + bytes;
      writePos := writePos + |bytes|;
    }

    method AppendPadded(pad: nat, bytes: seq<byte>)
      requires InBounds() && pad + |bytes| <= Space()
      modifies this`writePos, data
      ensures InBounds() && writePos == old(writePos) + pad + |bytes|
      ensures data[..writePos] == old(data[..writePos]) + (Zeros(pad) + bytes)
      ensures Written() == old(Written()) + (Zeros(pad) + bytes)
    {
      Append(Zeros(pad));
      Append(bytes);
    }

    /** What happens when the octets do not fit: an error, or a send once the header has gone. */
    method MakeRoom(hasHdr: bool) returns (status: Status)
      requires InBounds()
      modifies this`readPos, this`writePos, this`sent, this`sends, this`failed
      ensures InBounds()
      ensures hasHdr ==> status == ErrResources && writePos == old(writePos) && readPos == old(readPos)
      ensures hasHdr ==> sent == old(sent) && sends == old(sends) && failed == old(failed)
      ensures !hasHdr && status == OK ==> writePos == 0 && Written() == old(Written())
      ensures !hasHdr && status != OK ==> failed
    {
      if hasHdr {
        status := ErrResources;
      } else {
        status := Send();
      }
    }

    /** One turn of WriteBytes: as much as there is room for, after a send if not all of it fits. */
    method WritePiece(hasHdr: bool, rest: seq<byte>, padLeft: nat) returns (status: Status, canWrite: nat)
      requires InBounds() && |rest| + padLeft > 0
      requires !hasHdr ==> data.Length > 0 && padLeft <= data.Length
      modifies this`readPos, this`writePos, this`sent, this`sends, this`failed, data
      ensures InBounds() && canWrite <= |rest|
      ensures status == OK ==>
        canWrite + padLeft > 0 && Written() == old(Written()) + (Zeros(padLeft) + rest[..canWrite])
      ensures hasHdr ==> sent == old(sent) && sends == old(sends) && readPos == old(readPos) && failed == old(failed)
      ensures hasHdr ==> (status == OK <==> |rest| + padLeft <= old(Space())) && (status == OK ==> canWrite == |rest|)
      ensures hasHdr && status == OK ==> data[..writePos] == old(data[..writePos]) + (Zeros(padLeft) + rest)
      ensures hasHdr && status != OK ==> status == ErrResources && data[..writePos] == old(data[..writePos])
      ensures !hasHdr && status != OK ==> failed
      ensures |rest| + padLeft <= old(Space()) ==> status == OK && canWrite == |rest| && sends == old(sends)
    {
      hide IoBuffer.Written;
      status, canWrite := OK, 0;
      if |rest| + padLeft > Space() {
        status := MakeRoom(hasHdr);
        if status != OK {
          return;
        }
      }
      canWrite := Min(Space() - padLeft, |rest|);
      assert canWrite == |rest| ==> rest[..canWrite] == rest;
      AppendPadded(padLeft, rest[..canWrite]);
    }

    /**
     Writes `pad` zero octets and then `bytes`.  While the message header is still in the
     buffer (`hasHdr`) everything must fit; afterwards the buffer is sent whenever it is full.
     */
    method WriteBytes(hasHdr: bool, bytes: seq<byte>, pad: nat) returns (status: Status)
      requires InBounds()
      requires !hasHdr ==> data.Length > 0 && pad <= data.Length
      modifies this`readPos, this`writePos, this`sent, this`sends, this`failed, data
      ensures InBounds()
      ensures hasHdr ==> (status == OK <==> |bytes| + pad <= old(Space()))
      ensures hasHdr ==> sent == old(sent) && sends == old(sends) && readPos == old(readPos) && failed == old(failed)
      ensures hasHdr && status == OK ==> Bytes() == old(Bytes()) + (Zeros(pad) + bytes)
      ensures hasHdr && status == OK ==> writePos == old(writePos) + pad + |bytes|
      ensures hasHdr && status != OK ==> status == ErrResources && Bytes() == old(Bytes())
      ensures !hasHdr && status == OK ==> Written() == old(Written()) + (Zeros(pad) + bytes)
      ensures !hasHdr && status != OK ==> failed
      ensures |bytes| + pad <= old(Space()) ==> status == OK && sends == old(sends)
    {
      hide IoBuffer.Written;
      status := OK;
      var rest, padLeft: nat := bytes, pad;
      ghost var done: seq<byte> := [];
      while |rest| + padLeft > 0
        invariant InBounds() && status == OK
        invariant done + (Zeros(padLeft) + rest) == Zeros(pad) + bytes
        invariant Written() == old(Written()) + done
        invariant hasHdr ==>
          && sent == old(sent) && sends == old(sends) && readPos == old(readPos)
          && failed == old(failed)
        invariant hasHdr ==> data[..writePos] == old(data[..writePos]) + done
        invariant done == [] ==> Space() == old(Space())
        invariant |bytes| + pad <= old(Space()) ==> sends == old(sends) && (done == [] || rest == [])
        invariant if done == [] then padLeft == pad && rest == bytes
                  else padLeft == 0 && (hasHdr ==> rest == [])
        decreases |rest| + padLeft
      {
        var canWrite;
        status, canWrite := WritePiece(hasHdr, rest, padLeft);
        if status != OK {
          break;
        }
        TakePiece(done, Zeros(padLeft), rest, canWrite);
        done := done + (Zeros(padLeft) + rest[..canWrite]);
        assert canWrite == |rest| ==> rest[..canWrite] == rest;
        padLeft := 0;
        rest := rest[canWrite..];
      }
      NoneLeft(done, rest);
    }

    lemma NoneLeft(done: seq<byte>, rest: seq<byte>)
      ensures rest == [] ==> done + (Zeros(0) + rest) == done
    {
    }

    lemma TakePiece(done: seq<byte>, z: seq<byte>, rest: seq<byte>, n: nat)
      requires n <= |rest|
      ensures (done + (z + rest[..n])) + (Zeros(0) + rest[n..]) == done + (z + rest)
    {
    }

    /** Moves what has not been read to offset `preserve`. */
    method Rebase(preserve: nat)
      requires Valid() && preserve + Avail() <= data.Length
      modifies this`readPos, this`writePos, data
      ensures Valid() && readPos == preserve && Unread() == old(Unread())
      ensures writePos == preserve + old(Avail())
      ensures data[..preserve] == old(data[..preserve])
    {
      var unconsumed := Avail();
      ghost var rest := data[readPos..writePos];
      var from := readPos;
      forall i | 0 <= i < unconsumed {
        data[preserve + i] := data[from + i];
      }
      assert data[preserve..preserve + unconsumed] == rest;
      readPos := preserve;
      writePos := preserve + unconsumed;
    }

    method Reset()
      requires InBounds()
      modifies this`readPos, this`writePos
      ensures Valid() && readPos == 0 && writePos == 0
      ensures old(readPos) == old(writePos) ==> Unread() == old(data[readPos..writePos] + incoming)
    {
      readPos, writePos := 0, 0;
    }
  }
}
