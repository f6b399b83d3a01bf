/** NetConnection's notify protocol with its fields updated in place, each method proved to do
    what `NotifyProtocol` says. */
module NetConnectionObject {
  import opened NotifyProtocol

  class NetConnection<P> {
    var mLastSeqRecvd: u32
    var mHighestAckedSeq: u32
    var mLastSendSeq: u32
    var mAckMask: Word
    var mLastRecvAckAck: u32
    const mLastSeqRecvdAtSend: array<u32>
    /** The linked list mNotifyQueueHead .. mNotifyQueueTail. */
    var mNotifyQueue: seq<P>
    /** Every packetReceived (true) and packetDropped (false) call made so far. */
    ghost var Notifications: seq<(P, bool)>

    ghost function View(): Endpoint<P>
      reads this, mLastSeqRecvdAtSend
    {
      Endpoint(mLastSeqRecvd, mHighestAckedSeq, mLastSendSeq, mAckMask, mLastRecvAckAck,
               mLastSeqRecvdAtSend[..], mNotifyQueue)
    }

    ghost predicate Valid()
      reads this, mLastSeqRecvdAtSend
    {
      ValidEndpoint(View())
    }

    constructor (initialSendSeq: u32)
      ensures Valid() && View() == Initial(initialSendSeq, 0) && Notifications == []
      ensures fresh(mLastSeqRecvdAtSend)
    {
      mLastSeqRecvd := 0;
      mHighestAckedSeq, mLastSendSeq := initialSendSeq, initialSendSeq;
      mAckMask := ZERO_WORD;
      mLastRecvAckAck := 0;
      mLastSeqRecvdAtSend := new u32[WINDOW_SIZE](i => 0);
      mNotifyQueue := [];
      Notifications := [];
    }

    method SetInitialRecvSequence(sequence: u32)
      requires Valid()
      modifies this
      ensures Valid() && Notifications == old(Notifications)
      ensures View() == old(View()).(lastSeqRecvd := sequence, lastRecvAckAck := sequence)
    {
      mLastSeqRecvd, mLastRecvAckAck := sequence, sequence;
    }

    method WritePacketHeader(packetType: PacketType) returns (h: Header)
      requires Valid()
      requires packetType.DataPacket? ==> !WindowFull(View(), false)
      modifies this`mLastSendSeq, mLastSeqRecvdAtSend
      ensures View() == if packetType.DataPacket? then old(Advance(View())) else old(View())
      ensures AckByteCount(View()) <= MAX_ACK_BYTES && h == MakeHeader(View(), packetType)
    {
      var ackByteCount := (Sub32(mLastSeqRecvd, mLastRecvAckAck) + 7) / 8;
      if packetType.DataPacket? {
        mLastSendSeq := (mLastSendSeq + 1) % TWO32;
      }
      h := Header(packetType, mLastSendSeq % SEQUENCE_WINDOW, mLastSeqRecvd % ACK_WINDOW,
                  mAckMask[..8 * ackByteCount]);
      if packetType.DataPacket? {
        mLastSeqRecvdAtSend[mLastSendSeq % WINDOW_SIZE] := mLastSeqRecvd;
      }
    }

    method WriteRawPacket(packetType: PacketType, note: P) returns (h: Header)
      requires Valid()
      requires packetType.DataPacket? ==> !WindowFull(View(), false)
      modifies this`mLastSendSeq, this`mNotifyQueue, mLastSeqRecvdAtSend
      ensures Valid()
      ensures View() == if packetType.DataPacket? then old(SendData(View(), note)) else old(View())
      ensures h == MakeHeader(View(), packetType)
    {
      hide Sub32;
      hide WindowFull;
      if packetType.DataPacket? { SendKeepsValid(View(), note); }
      h := WritePacketHeader(packetType);
      if packetType.DataPacket? {
        mNotifyQueue := mNotifyQueue + [note];
      }
    }

    /** Takes the oldest record off the queue and reports its fate to the layer above. */
    method HandleNotify(recvd: bool)
      requires mNotifyQueue != []
      modifies this`mNotifyQueue, this`Notifications
      ensures mNotifyQueue == old(mNotifyQueue)[1..]
      ensures Notifications == old(Notifications) + [(old(mNotifyQueue)[0], recvd)]
    {
      var note := mNotifyQueue[0];
      mNotifyQueue := mNotifyQueue[1..];
      Notifications := Notifications + [(note, recvd)];
    }

    /** Reports the fate of every packet from mHighestAckedSeq + 1 to pkHighestAck, in order. */
    method NotifyUpTo(pkHighestAck: u32, pkAckMask: Word)
      requires Sub32(pkHighestAck, mHighestAckedSeq) <= |mNotifyQueue|
      requires mLastSeqRecvdAtSend.Length == WINDOW_SIZE
      modifies this`mNotifyQueue, this`Notifications, this`mLastRecvAckAck
      ensures var notices := Notices(pkAckMask, mHighestAckedSeq, pkHighestAck);
        && mNotifyQueue == old(mNotifyQueue)[|notices|..]
        && Notifications == old(Notifications) + Zip(old(mNotifyQueue), notices)
        && mLastRecvAckAck == AckAckAfter(mLastSeqRecvdAtSend[..], old(mLastRecvAckAck), mHighestAckedSeq, notices)
    {
      hide Sub32;
      ghost var notices := Notices(pkAckMask, mHighestAckedSeq, pkHighestAck);
      ghost var log := Zip(mNotifyQueue, notices);
      var notifyCount := Sub32(pkHighestAck, mHighestAckedSeq);
      var i := 0;
      while i < notifyCount
        invariant 0 <= i <= notifyCount == |notices| == |log|
        invariant mNotifyQueue == old(mNotifyQueue)[i..]
        invariant Notifications == old(Notifications) + log[..i]
        invariant mLastRecvAckAck
             == AckAckAfter(mLastSeqRecvdAtSend[..], old(mLastRecvAckAck), mHighestAckedSeq, notices[..i])
      {
        var notifyIndex := (mHighestAckedSeq + i + 1) % TWO32;
        NoticeIndex(mHighestAckedSeq, pkHighestAck, i);
        var packetTransmitSuccess := pkAckMask[Sub32(pkHighestAck, notifyIndex) % WINDOW_SIZE];
        HandleNotify(packetTransmitSuccess);
        if packetTransmitSuccess {
          mLastRecvAckAck := mLastSeqRecvdAtSend[notifyIndex % WINDOW_SIZE];
        }
        assert notices[..i + 1][..i] == notices[..i];
        assert log[..i + 1] == log[..i] + [log[i]];
        i := i + 1;
      }
      assert notices[..i] == notices && log[..i] == log;
    }

    /** The state change of an accepted header. */
    method ApplyHeader(h: Header, junk: Word, pkSequenceNumber: u32, pkHighestAck: u32)
      requires Valid() && ValidHeader(h) && Accepts(View(), h) && Recorded(View(), h)
      requires pkSequenceNumber == ReadSeq(View(), h) && pkHighestAck == ReadAck(View(), h)
      modifies this
      ensures View() == old(Receive(View(), h, junk))
      ensures Notifications == old(Notifications) + old(Notified(View(), h, junk))
    {
      mAckMask := ShiftIn(mAckMask, Sub32(pkSequenceNumber, mLastSeqRecvd), h.ptype.DataPacket?);
      NotifyUpTo(pkHighestAck, AckWord(h, junk));
      if Sub32(pkSequenceNumber, mLastRecvAckAck) > WINDOW_SIZE {
        mLastRecvAckAck := Sub32(pkSequenceNumber, WINDOW_SIZE);
      }
      mHighestAckedSeq := pkHighestAck;
      mLastSeqRecvd := pkSequenceNumber;
    }

    /** `process` tells the caller to read the packet's body; `reply` is the header of the
        acknowledgement packet sent back, if any.  `junk` is what an uninitialised
        acknowledgement word holds. */
    method ReadPacketHeader(h: Header, junk: Word) returns (process: bool, reply: seq<Header>)
      requires Valid() && ValidHeader(h) && (Accepts(View(), h) ==> Recorded(View(), h))
      modifies this, mLastSeqRecvdAtSend
      ensures Valid()
      ensures process == old(Processes(View(), h))
      ensures !old(Accepts(View(), h)) ==> reply == [] && View() == old(View()) && Notifications == old(Notifications)
      ensures old(Accepts(View(), h)) ==>
        && View() == old(Receive(View(), h, junk))
        && Notifications == old(Notifications) + old(Notified(View(), h, junk))
        && AckByteCount(View()) <= MAX_ACK_BYTES
        && reply == if AcksBack(View(), h) then [MakeHeader(View(), AckPacket)] else []
      // A ping is answered, and so is a packet that leaves more than half a window unacknowledged.
      ensures reply != [] <==>
        && old(Accepts(View(), h))
        && (h.ptype.PingPacket? || Sub32(mLastSeqRecvd, mLastRecvAckAck) > 16)
      ensures reply != [] ==>
        |reply| == 1 && reply[0].ptype.AckPacket? && reply[0].seqBits == mLastSendSeq % SEQUENCE_WINDOW
          && reply[0].ackBits == mLastSeqRecvd % ACK_WINDOW
    {
      process, reply := false, [];
      var pkSequenceNumber := Reconstruct(mLastSeqRecvd, h.seqBits, SEQUENCE_WINDOW);
      if Sub32(pkSequenceNumber, mLastSeqRecvd) > WINDOW_SIZE - 1 {
        return;
      }
      var pkHighestAck := Reconstruct(mHighestAckedSeq, h.ackBits, ACK_WINDOW);
      if pkHighestAck > mLastSendSeq || h.ptype.InvalidPacketType? {
        return;
      }
      var prevLastSequence := mLastSeqRecvd;
      ReceiveKeepsValid(View(), h, junk);
      ApplyHeader(h, junk, pkSequenceNumber, pkHighestAck);
      process := prevLastSequence != pkSequenceNumber && h.ptype.DataPacket?;
      if h.ptype.PingPacket? || Sub32(mLastSeqRecvd, mLastRecvAckAck) > WINDOW_SIZE / 2 {
        var ack := WritePacketHeader(AckPacket);
        reply := [ack];
      }
    }
  }
}
