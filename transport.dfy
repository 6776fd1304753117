/** The USB pipes of one opened U6, reduced to what the protocol engine observes: a log of
    the frames written to the OUT endpoint and the queue of replies the IN endpoint will
    deliver, one reply per read. */
module Transport {
  import opened Bytes
  import opened Errors

  class Device {
    var sent: seq<seq<Byte>>
    var replies: seq<seq<Byte>>

    constructor (replies: seq<seq<Byte>>)
      ensures sent == [] && this.replies == replies
    {
      sent := [];
      this.replies := replies;
    }

    /** A write to the OUT endpoint; it always transfers the whole frame. */
    method Write(frame: seq<Byte>) returns (n: nat)
      modifies this
      ensures sent == old(sent) + [frame] && replies == old(replies)
      ensures n == |frame|
    {
      sent := sent + [frame];
      n := |frame|;
    }

    /** A read of the IN endpoint into a buffer of `capacity` bytes: the next reply, cut to
        the buffer; a transfer error when the device has nothing more to say. */
    method Read(capacity: nat) returns (r: Result<seq<Byte>>)
      modifies this
      ensures sent == old(sent)
      ensures old(replies) == [] ==> r == Failure(TransportError) && replies == []
      ensures old(replies) != [] ==> r == Success(Prefix(old(replies)[0], capacity)) &&
                                     replies == old(replies)[1..]
    {
      if replies == [] {
        return Failure(TransportError);
      }
      r := Success(Prefix(replies[0], capacity));
      replies := replies[1..];
    }
  }
}
