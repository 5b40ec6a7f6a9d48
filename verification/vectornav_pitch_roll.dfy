/** The pitch-and-roll decoder of `VectorNav.h`: the same sync search,
    frame read and checksum test as the nine-value decoder, but only the
    pitch and roll values are kept. */
module VectorNavPitchRoll {
  import opened ImuCrc
  import opened Bytes
  import opened Protocol
  import opened Serial

  class VectorNav {
    /** The port the IMU is attached to. */
    const imuSerial: SerialPort
    /** The receive buffer `in`. */
    const inBuffer: array<bv8>
    var imuSyncDetected: bool
    /** The checksum union, read as a little-endian `unsigned short`. */
    var checksum: bv16
    /** The byte arrays of the two float unions. */
    var pitch: seq<bv8>
    var roll: seq<bv8>

    ghost predicate Valid()
      reads this
    {
      inBuffer.Length == BufferLength && |pitch| == 4 && |roll| == 4
    }

    /** The pitch and roll values start out unspecified. */
    constructor (serialPort: SerialPort)
      ensures Valid()
      ensures imuSerial == serialPort && fresh(inBuffer)
      ensures !imuSyncDetected
    {
      imuSerial := serialPort;
      inBuffer := new bv8[BufferLength];
      imuSyncDetected := false;
      checksum := 0;
      pitch, roll := [0, 0, 0, 0], [0, 0, 0, 0];
    }

    /** `update()`: poll the port once. The result says whether the sync
        byte was found; pitch and roll change only when the frame after it
        passes the checksum test. */
    method Update() returns (synced: bool)
      requires Valid() && imuSerial.Valid()
      requires Serves(imuSerial.buffered, imuSerial.incoming)
      modifies this, imuSerial, inBuffer
      ensures Valid() && imuSerial.Valid()
      ensures var avail, s := old(imuSerial.buffered), old(imuSerial.incoming);
        && synced == Synced(avail, s)
        && imuSyncDetected == synced
        && imuSerial.incoming == s[Consumed(avail, s)..]
        && imuSerial.buffered == Drain(avail, Consumed(avail, s))
        && inBuffer[..] == BufferAfter(avail, s, old(inBuffer[..]))
        && checksum == (if synced then Checksum(Frame(avail, s)) else old(checksum))
        && pitch == FieldAfter(avail, s, Pitch, old(pitch))
        && roll == FieldAfter(avail, s, Roll, old(roll))
    {
      ghost var avail, s := imuSerial.buffered, imuSerial.incoming;
      imuSyncDetected := false;
      var available := imuSerial.Available();
      if available > AvailableThreshold {
        CheckSyncByte();
      }
      if imuSyncDetected {
        SyncedPoll(avail, s, old(inBuffer[..]));
        ReadImuData();
        return true;
      }
      return false;
    }

    /** `checkSyncByte()`: read single bytes into `in[0]`, at most
        `SyncAttempts` of them, and stop after the first sync byte. The
        flag is only ever raised here, never lowered. */
    method CheckSyncByte()
      requires Valid() && imuSerial.Valid()
      requires SyncReads(imuSerial.incoming) <= |imuSerial.incoming|
      modifies this`imuSyncDetected, imuSerial, inBuffer
      ensures Valid() && imuSerial.Valid()
      ensures var s, n := old(imuSerial.incoming), SyncReads(old(imuSerial.incoming));
        && imuSyncDetected == (old(imuSyncDetected) || SyncFound(s))
        && imuSerial.incoming == s[n..]
        && imuSerial.buffered == Drain(old(imuSerial.buffered), n)
        && inBuffer[..] == old(inBuffer[..])[0 := s[n - 1]]
    {
      ghost var s := imuSerial.incoming;
      ghost var w := SyncWindow(s);
      ghost var before := inBuffer[..];
      var i := 0;
      while i < SyncAttempts
        invariant 0 <= i <= FirstSync(w) && i <= SyncAttempts
        invariant imuSerial.Valid() && imuSerial.incoming == s[i..]
        invariant imuSerial.buffered == Drain(old(imuSerial.buffered), i)
        invariant inBuffer[..] == if i == 0 then before else before[0 := s[i - 1]]
        invariant imuSyncDetected == old(imuSyncDetected)
      {
        assert i < |w| && s[i] == w[i];
        imuSerial.ReadBytes(inBuffer, 1);
        if inBuffer[0] == SyncByte {
          imuSyncDetected := true;
          break;
        }
        i := i + 1;
      }
    }

    /** `readImuData()`: read the 41 frame bytes into `in[0..40]`, fill
        the checksum union from `in[40]` and `in[39]`, and copy pitch and
        roll from the frame when the checksum of `in[0..38]` matches. */
    method ReadImuData()
      requires Valid() && imuSerial.Valid()
      requires FrameLength <= |imuSerial.incoming|
      modifies this`checksum, this`pitch, this`roll, imuSerial, inBuffer
      ensures Valid() && imuSerial.Valid()
      ensures var f := old(imuSerial.incoming[..FrameLength]);
        && imuSerial.incoming == old(imuSerial.incoming[FrameLength..])
        && imuSerial.buffered == Drain(old(imuSerial.buffered), FrameLength)
        && inBuffer[..] == f + old(inBuffer[FrameLength..])
        && checksum == Checksum(f)
        && pitch == (if FrameAccepted(f) then FieldOf(f, Pitch) else old(pitch))
        && roll == (if FrameAccepted(f) then FieldOf(f, Roll) else old(roll))
    {
      imuSerial.ReadBytes(inBuffer, FrameLength);
      ghost var f := inBuffer[..FrameLength];
      checksum := LeShort(inBuffer[40], inBuffer[39]);
      var crc := CalculateImuCrc(inBuffer, CrcLength);
      assert inBuffer[..CrcLength] == f[..CrcLength];
      if crc == checksum {
        for i := 0 to 4
          modifies this`pitch, this`roll
          invariant pitch == Copied(f, 7, old(pitch), i)
          invariant roll == Copied(f, 11, old(roll), i)
        {
          pitch := pitch[i := inBuffer[7 + i]];
          roll := roll[i := inBuffer[11 + i]];
        }
        CopiedAll(f, 7, old(pitch));
        CopiedAll(f, 11, old(roll));
      }
    }

    // The getters return the raw 32-bit word of each float union.

    function GetPitch(): (w: bv32)
      reads this
      requires Valid()
      ensures LeBytes(w) == pitch
    {
      LeBytesOfWord(pitch);
      LeWord(pitch)
    }

    function GetRoll(): (w: bv32)
      reads this
      requires Valid()
      ensures LeBytes(w) == roll
    {
      LeBytesOfWord(roll);
      LeWord(roll)
    }
  }
}
