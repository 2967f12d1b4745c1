/** struct usb_skel as an object: the completion callbacks, and a whole skel_read by one thread with
    the completions that arrive while it waits. */
module UsbSkelDevice {
  import opened Bytes
  import opened UsbSkel

  const EAGAIN := 11
  const ENOMEM := 12
  const EFAULT := 14
  const ERESTARTSYS := 512

  /** What one turn of the loop in skel_read meets: the answers of usb_submit_urb and copy_to_user,
      a signal, or the end of the transfer with the bytes the device had to send. */
  datatype Turn = Turn(submit: int, fault: bool, signal: bool, status: int, data: seq<Byte>) {
    /** A transfer of this length ends with neither an error nor data. */
    predicate Idles(length: nat) {
      !signal && status >= 0 && (status == 0 ==> Min(|data|, length) == 0)
    }
  }

  function Statuses(turns: seq<Turn>): set<int> {
    set turn | turn in turns :: turn.status
  }

  /** The answer to a read that has waited for a transfer of this length: the error, if there is one, or the front of
      what has arrived, if anything has. */
  predicate Served(turn: Turn, length: nat, errors: int, count: nat, rv: int, handed: seq<Byte>) {
    var data := if turn.status == 0 then turn.data[..Min(|turn.data|, length)] else [];
    && (errors < 0 ==> rv == Code(errors) && handed == [])
    && (errors >= 0 && data != [] ==>
          handed == data[..Min(|data|, count)] && rv == if turn.fault then -EFAULT else |handed|)
  }

  class Skel {
    var limitSem: nat
    const bulkInBuffer: array<Byte>
    var bulkInFilled: nat
    var bulkInCopied: nat
    var errors: int
    var ongoingRead: bool
    var disconnected: bool
    /** The length asked for with bulk_in_urb. */
    var urbLength: nat

    ghost predicate Valid()
      reads this, bulkInBuffer
    {
      && bulkInCopied <= bulkInFilled <= bulkInBuffer.Length
      && (ongoingRead ==> bulkInFilled == 0 && bulkInCopied == 0 && urbLength <= bulkInBuffer.Length)
    }

    /** The part of the state the callbacks and the read path share with the transition system. */
    ghost function Abs(): Dev
      reads this, bulkInBuffer
    {
      Dev(limitSem, bulkInBuffer[..], bulkInFilled, bulkInCopied, errors, ongoingRead, 0, Nobody, disconnected)
    }

    /** The bytes read but not handed over yet. */
    ghost function Unread(): seq<Byte>
      requires Valid()
      reads this, bulkInBuffer
    {
      bulkInBuffer[bulkInCopied..bulkInFilled]
    }

    /** The device has written data to the front of the buffer; then skel_read_bulk_callback. */
    method ReadBulkCallback(status: int, data: seq<Byte>)
      requires |data| <= bulkInBuffer.Length
      modifies `errors, `bulkInFilled, `ongoingRead, bulkInBuffer
      ensures Abs() == old(Abs()).ReadDone(status, data)
    {
      forall i | 0 <= i < |data| { bulkInBuffer[i] := data[i]; }
      assert bulkInBuffer[..] == data + old(bulkInBuffer[..])[|data|..];
      if status != 0 {
        errors := status;
      } else {
        bulkInFilled := |data|;
      }
      ongoingRead := false;
    }

    method WriteBulkCallback(status: int)
      modifies `errors, `limitSem
      ensures Abs() == old(Abs()).WriteDone(status)
    {
      if status != 0 {
        errors := status;
      }
      limitSem := limitSem + 1;
    }

    /** skel_do_read_io, where usb_submit_urb answers `submit`.  The buffer must have been read to its end. */
    method DoReadIo(count: nat, submit: int) returns (rv: int)
      requires Valid() && !ongoingRead && Unread() == []
      modifies `ongoingRead, `bulkInFilled, `bulkInCopied, `urbLength
      ensures Valid() && Unread() == []
      ensures ongoingRead <==> submit >= 0
      ensures ongoingRead ==> urbLength == Min(bulkInBuffer.Length, count)
      ensures rv == if submit >= 0 || submit == -ENOMEM then submit else -EIO
    {
      urbLength := Min(bulkInBuffer.Length, count);
      ongoingRead := true;
      bulkInFilled := 0;
      bulkInCopied := 0;
      rv := submit;
      if rv < 0 {
        rv := if rv == -ENOMEM then rv else -EIO;
        ongoingRead := false;
      }
    }

    /** Waits for the transfer to end.  What arrives is the front of the device's data, as much as was asked for. */
    method Wait(turn: Turn) returns (ghost arrived: seq<Byte>)
      requires Valid() && ongoingRead
      modifies `errors, `bulkInFilled, `ongoingRead, bulkInBuffer
      ensures Valid() && !ongoingRead && Unread() == arrived
      ensures arrived == if turn.status == 0 then turn.data[..Min(|turn.data|, old(urbLength))] else []
      ensures errors == if turn.status == 0 then old(errors) else turn.status
    {
      var data := turn.data[..Min(|turn.data|, urbLength)];
      arrived := if turn.status == 0 then data else [];
      ReadBulkCallback(turn.status, data);
      assert bulkInBuffer[..][..|data|] == data;
    }

    /** The part of skel_read that finds data: hands over what it can, and asks for more if that is less
        than wanted, without waiting for it. */
    method HandOver(count: nat, turn: Turn) returns (rv: int, handed: seq<Byte>)
      requires Valid() && count > 0 && Unread() != []
      modifies `bulkInFilled, `bulkInCopied, `ongoingRead, `urbLength
      ensures Valid() && old(Unread()) == handed + Unread()
      ensures |handed| == Min(|old(Unread())|, count)
      ensures rv == if turn.fault then -EFAULT else |handed|
      ensures ongoingRead <==> |old(Unread())| < count && turn.submit >= 0
      ensures ongoingRead ==> urbLength == Min(bulkInBuffer.Length, count - |handed|)
    {
      var available := bulkInFilled - bulkInCopied;
      var chunk := Min(available, count);
      handed := bulkInBuffer[bulkInCopied..bulkInCopied + chunk];
      rv := if turn.fault then -EFAULT else chunk;
      assert Unread() == handed + bulkInBuffer[bulkInCopied + chunk..bulkInFilled];
      bulkInCopied := bulkInCopied + chunk;
      if available < count {
        var _ := DoReadIo(count - chunk, turn.submit);
      }
    }

    /** skel_read once io_mutex is held and the device found connected: the loop from `retry`.
        A thread that has used up `turns` is interrupted by a signal.  handed is what copy_to_user was given, and
        seen the error that was reported, or 0.  Whatever error is stored when the transfer under way is over is
        reported and cleared; only a call that ends before that leaves one behind. */
    method ReadLocked(count: nat, nonblock: bool, turns: seq<Turn>)
      returns (rv: int, handed: seq<Byte>, ghost arrived: seq<Byte>, ghost seen: int)
      requires Valid() && count > 0
      modifies `errors, `bulkInFilled, `bulkInCopied, `ongoingRead, `urbLength, bulkInBuffer
      ensures Valid()
      ensures old(Unread()) + arrived == handed + Unread()
      ensures |handed| <= count
      ensures rv >= 0 ==> rv == |handed| > 0
      ensures rv == -EFAULT ==> |handed| > 0
      ensures rv < 0 && rv != -EFAULT ==> handed == [] && rv in {-EPIPE, -EIO, -EAGAIN, -ERESTARTSYS, -ENOMEM}
      ensures seen <= 0 && (seen < 0 ==> rv == Code(seen) && errors == 0 && handed == [])
      ensures seen < 0 ==> seen == old(errors) || seen in Statuses(turns)
      ensures seen == 0 ==> rv != -EPIPE && (rv == -EIO || rv == -ENOMEM ==> exists k :: 0 <= k < |turns| && turns[k].submit < 0)
      ensures seen == 0 && rv != -EAGAIN && rv != -ERESTARTSYS ==> errors >= 0
      ensures seen == 0 && errors < 0 ==> errors == old(errors) && (old(ongoingRead) || turns == [])
      ensures turns != [] && old(errors) < 0 && !old(ongoingRead) ==>
        rv == Code(old(errors)) && errors == 0 && Unread() == old(Unread())
      // only a nonblocking call gives up at once, and only a call that waits is interrupted
      ensures rv == -EAGAIN ==> nonblock && ongoingRead
      ensures rv == -ERESTARTSYS && turns != [] ==> ongoingRead && arrived == []
      ensures rv == -ERESTARTSYS ==>
        (exists k :: 0 <= k < |turns| && turns[k].signal) ||
        (forall k :: 1 <= k < |turns| ==> turns[k].Idles(Min(bulkInBuffer.Length, count)))
      // a transfer is under way at first
      ensures turns != [] && old(ongoingRead) && nonblock ==> rv == -EAGAIN && Abs() == old(Abs())
      ensures turns != [] && old(ongoingRead) && !nonblock && turns[0].signal ==> rv == -ERESTARTSYS && Abs() == old(Abs())
      ensures turns != [] && old(ongoingRead) && !nonblock && !turns[0].signal ==>
        Served(turns[0], old(urbLength), if turns[0].status == 0 then old(errors) else turns[0].status, count, rv, handed)
      // data is there at first
      ensures turns != [] && !old(ongoingRead) && old(errors) >= 0 && old(Unread()) != [] ==>
        handed == old(Unread())[..Min(|old(Unread())|, count)] && rv == if turns[0].fault then -EFAULT else |handed|
      // nothing is there at first
      ensures turns != [] && !old(ongoingRead) && old(errors) >= 0 && old(Unread()) == [] && turns[0].submit < 0 ==>
        rv == (if turns[0].submit == -ENOMEM then -ENOMEM else -EIO) && handed == [] && !ongoingRead
      ensures |turns| > 1 && !old(ongoingRead) && old(errors) >= 0 && old(Unread()) == [] && turns[0].submit >= 0 ==>
        if nonblock then rv == -EAGAIN && urbLength == Min(bulkInBuffer.Length, count)
        else if turns[1].signal then rv == -ERESTARTSYS && urbLength == Min(bulkInBuffer.Length, count)
        else Served(turns[1], Min(bulkInBuffer.Length, count),
                    if turns[1].status == 0 then old(errors) else turns[1].status, count, rv, handed)
    {
      handed, arrived, seen := [], [], 0;
      var i := 0;
      while i < |turns|
        invariant 0 <= i <= |turns| && Valid()
        invariant handed == [] && old(Unread()) + arrived == Unread() && seen == 0
        invariant i == 0 ==> Abs() == old(Abs()) && urbLength == old(urbLength) && arrived == []
        invariant i > 0 ==> ongoingRead && urbLength == Min(bulkInBuffer.Length, count) && arrived == [] && errors >= 0
        invariant i > 0 && !old(ongoingRead) ==> old(Unread()) == [] && turns[0].submit >= 0 && old(errors) >= 0
        invariant i == 1 && !old(ongoingRead) ==> errors == old(errors)
        invariant i > 0 && old(ongoingRead) ==>
          !nonblock && turns[0].Idles(old(urbLength)) && (turns[0].status == 0 ==> old(errors) >= 0)
        invariant i > 1 ==> !nonblock
        invariant forall k :: 1 <= k < i ==> turns[k].Idles(Min(bulkInBuffer.Length, count))
      {
        var turn := turns[i];
        i := i + 1;
        if ongoingRead {
          if nonblock {
            rv := -EAGAIN;
            return;
          }
          if turn.signal {
            rv := -ERESTARTSYS;
            return;
          }
          assert Unread() == [];
          ghost var data := Wait(turn);
          arrived := arrived + data;
        }
        rv := errors;
        if rv < 0 {
          seen := errors;
          errors := 0;
          rv := if rv == -EPIPE then rv else -EIO;
          return;
        }
        if bulkInFilled != 0 {
          if bulkInFilled - bulkInCopied == 0 {
            rv := DoReadIo(count, turn.submit);
            if rv < 0 { return; }
          } else {
            rv, handed := HandOver(count, turn);
            return;
          }
        } else {
          rv := DoReadIo(count, turn.submit);
          if rv < 0 { return; }
        }
      }
      rv := -ERESTARTSYS;
    }
  }
}
