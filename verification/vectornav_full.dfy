/** The nine-value decoder of `VectorNav/VectorNav.h`: yaw, pitch, roll,
    the three angular rates and the three accelerations. Each `Update`
    call is proved to do exactly what the `Protocol` functions say one
    poll does. */
module VectorNavFull {
  import opened ImuCrc
  import opened Bytes
  import opened Protocol
  import opened Serial

  class VectorNav {
    /** The port the IMU is attached to. */
    const imuSerial: SerialPort
    /** The receive buffer `in`. */
    const inBuffer: array<bv8>
    var imuSyncDetected: bool
    /** The checksum union, read as a little-endian `unsigned short`. */
    var checksum: bv16
    /** The byte arrays of the nine float unions. */
    var yaw: seq<bv8>
    var pitch: seq<bv8>
    var roll: seq<bv8>
    var wX: seq<bv8>
    var wY: seq<bv8>
    var wZ: seq<bv8>
    var aX: seq<bv8>
    var aY: seq<bv8>
    var aZ: seq<bv8>

    ghost predicate Valid()
      reads this
    {
      && inBuffer.Length == BufferLength
      && |yaw| == 4 && |pitch| == 4 && |roll| == 4
      && |wX| == 4 && |wY| == 4 && |wZ| == 4
      && |aX| == 4 && |aY| == 4 && |aZ| == 4
    }

    /** The bytes of the field that holds `q`. */
    function Field(q: Quantity): seq<bv8>
      reads this
    {
      match q
      case Yaw => yaw
      case Pitch => pitch
      case Roll => roll
      case AngX => wX
      case AngY => wY
      case AngZ => wZ
      case AccX => aX
      case AccY => aY
      case AccZ => aZ
    }

    /** The sensor values start out unspecified. */
    constructor (serialPort: SerialPort)
      ensures Valid()
      ensures imuSerial == serialPort && fresh(inBuffer)
      ensures !imuSyncDetected
    {
      imuSerial := serialPort;
      inBuffer := new bv8[BufferLength];
      imuSyncDetected := false;
      checksum := 0;
      yaw, pitch, roll := [0, 0, 0, 0], [0, 0, 0, 0], [0, 0, 0, 0];
      wX, wY, wZ := [0, 0, 0, 0], [0, 0, 0, 0], [0, 0, 0, 0];
      aX, aY, aZ := [0, 0, 0, 0], [0, 0, 0, 0], [0, 0, 0, 0];
    }

    /** `update()`: poll the port once. The result says whether the sync
        byte was found; the values change only when the frame after it
        passes the checksum test. */
    method Update() returns (synced: bool)
      requires Valid() && imuSerial.Valid()
      requires Serves(imuSerial.buffered, imuSerial.incoming)
      modifies this, imuSerial, inBuffer
      ensures Valid() && imuSerial.Valid()
      ensures var avail, s := old(imuSerial.buffered), old(imuSerial.incoming);
        && synced == Synced(avail, s)
        && imuSyncDetected == synced
        && imuSerial.incoming == s[Consumed(avail, s)..]
        && imuSerial.buffered == Drain(avail, Consumed(avail, s))
        && inBuffer[..] == BufferAfter(avail, s, old(inBuffer[..]))
        && checksum == (if synced then Checksum(Frame(avail, s)) else old(checksum))
        && forall q :: Field(q) == FieldAfter(avail, s, q, old(Field(q)))
    {
      ghost var avail, s := imuSerial.buffered, imuSerial.incoming;
      imuSyncDetected := false;
      var available := imuSerial.Available();
      if available > AvailableThreshold {
        CheckSyncByte();
      }
      if imuSyncDetected {
        SyncedPoll(avail, s, old(inBuffer[..]));
        ReadImuData();
        return true;
      }
      return false;
    }

    /** `checkSyncByte()`: read single bytes into `in[0]`, at most
        `SyncAttempts` of them, and stop after the first sync byte. The
        flag is only ever raised here, never lowered. */
    method CheckSyncByte()
      requires Valid() && imuSerial.Valid()
      requires SyncReads(imuSerial.incoming) <= |imuSerial.incoming|
      modifies this`imuSyncDetected, imuSerial, inBuffer
      ensures Valid() && imuSerial.Valid()
      ensures var s, n := old(imuSerial.incoming), SyncReads(old(imuSerial.incoming));
        && imuSyncDetected == (old(imuSyncDetected) || SyncFound(s))
        && imuSerial.incoming == s[n..]
        && imuSerial.buffered == Drain(old(imuSerial.buffered), n)
        && inBuffer[..] == old(inBuffer[..])[0 := s[n - 1]]
    {
      ghost var s := imuSerial.incoming;
      ghost var w := SyncWindow(s);
      ghost var before := inBuffer[..];
      var i := 0;
      while i < SyncAttempts
        invariant 0 <= i <= FirstSync(w) && i <= SyncAttempts
        invariant imuSerial.Valid() && imuSerial.incoming == s[i..]
        invariant imuSerial.buffered == Drain(old(imuSerial.buffered), i)
        invariant inBuffer[..] == if i == 0 then before else before[0 := s[i - 1]]
        invariant imuSyncDetected == old(imuSyncDetected)
      {
        assert i < |w| && s[i] == w[i];
        imuSerial.ReadBytes(inBuffer, 1);
        if inBuffer[0] == SyncByte {
          imuSyncDetected := true;
          break;
        }
        i := i + 1;
      }
    }

    /** `readImuData()`: read the 41 frame bytes into `in[0..40]`, fill
        the checksum union from `in[40]` and `in[39]`, and copy all nine
        values from the frame when the checksum of `in[0..38]` matches. */
    method ReadImuData()
      requires Valid() && imuSerial.Valid()
      requires FrameLength <= |imuSerial.incoming|
      modifies this`checksum, this`yaw, this`pitch, this`roll, this`wX, this`wY, this`wZ,
               this`aX, this`aY, this`aZ, imuSerial, inBuffer
      ensures Valid() && imuSerial.Valid()
      ensures var f := old(imuSerial.incoming[..FrameLength]);
        && imuSerial.incoming == old(imuSerial.incoming[FrameLength..])
        && imuSerial.buffered == Drain(old(imuSerial.buffered), FrameLength)
        && inBuffer[..] == f + old(inBuffer[FrameLength..])
        && checksum == Checksum(f)
        && forall q :: Field(q) == if FrameAccepted(f) then FieldOf(f, q) else old(Field(q))
    {
      imuSerial.ReadBytes(inBuffer, FrameLength);
      ghost var f := inBuffer[..FrameLength];
      checksum := LeShort(inBuffer[40], inBuffer[39]);
      var crc := CalculateImuCrc(inBuffer, CrcLength);
      assert inBuffer[..CrcLength] == f[..CrcLength];
      if crc == checksum {
        CopyFields(f);
      }
    }

    /** The copy loop of `readImuData()`: pass `i` moves byte `i` of each
        of the nine values out of the frame in `in`. The new unions are
        built in locals and stored after the last pass; nothing reads the
        unions in between, so the effect is that of storing byte by byte. */
    method CopyFields(ghost f: seq<bv8>)
      requires Valid() && |f| == FrameLength && inBuffer[..FrameLength] == f
      modifies this`yaw, this`pitch, this`roll, this`wX, this`wY, this`wZ, this`aX, this`aY, this`aZ
      ensures yaw == f[3..7] && pitch == f[7..11] && roll == f[11..15]
      ensures wX == f[15..19] && wY == f[19..23] && wZ == f[23..27]
      ensures aX == f[27..31] && aY == f[31..35] && aZ == f[35..39]
    {
      var nYaw, nPitch, nRoll, nWX, nWY, nWZ, nAX, nAY, nAZ := yaw, pitch, roll, wX, wY, wZ, aX, aY, aZ;
      for i := 0 to 4
        invariant nYaw == Copied(f, 3, yaw, i)
        invariant nPitch == Copied(f, 7, pitch, i)
        invariant nRoll == Copied(f, 11, roll, i)
        invariant nWX == Copied(f, 15, wX, i)
        invariant nWY == Copied(f, 19, wY, i)
        invariant nWZ == Copied(f, 23, wZ, i)
        invariant nAX == Copied(f, 27, aX, i)
        invariant nAY == Copied(f, 31, aY, i)
        invariant nAZ == Copied(f, 35, aZ, i)
      {
        nYaw := nYaw[i := inBuffer[3 + i]];
        nPitch := nPitch[i := inBuffer[7 + i]];
        nRoll := nRoll[i := inBuffer[11 + i]];
        nWX := nWX[i := inBuffer[15 + i]];
        nWY := nWY[i := inBuffer[19 + i]];
        nWZ := nWZ[i := inBuffer[23 + i]];
        nAX := nAX[i := inBuffer[27 + i]];
        nAY := nAY[i := inBuffer[31 + i]];
        nAZ := nAZ[i := inBuffer[35 + i]];
      }
      CopiedAll(f, 3, yaw);
      CopiedAll(f, 7, pitch);
      CopiedAll(f, 11, roll);
      CopiedAll(f, 15, wX);
      CopiedAll(f, 19, wY);
      CopiedAll(f, 23, wZ);
      CopiedAll(f, 27, aX);
      CopiedAll(f, 31, aY);
      CopiedAll(f, 35, aZ);
      yaw, pitch, roll, wX, wY, wZ, aX, aY, aZ := nYaw, nPitch, nRoll, nWX, nWY, nWZ, nAX, nAY, nAZ;
    }

    // The getters return the raw 32-bit word of each float union.

    function GetPitch(): (w: bv32)
      reads this
      requires Valid()
      ensures LeBytes(w) == pitch
    {
      LeBytesOfWord(pitch);
      LeWord(pitch)
    }

    function GetRoll(): (w: bv32)
      reads this
      requires Valid()
      ensures LeBytes(w) == roll
    {
      LeBytesOfWord(roll);
      LeWord(roll)
    }

    function GetYaw(): (w: bv32)
      reads this
      requires Valid()
      ensures LeBytes(w) == yaw
    {
      LeBytesOfWord(yaw);
      LeWord(yaw)
    }

    function GetAngX(): (w: bv32)
      reads this
      requires Valid()
      ensures LeBytes(w) == wX
    {
      LeBytesOfWord(wX);
      LeWord(wX)
    }

    function GetAngY(): (w: bv32)
      reads this
      requires Valid()
      ensures LeBytes(w) == wY
    {
      LeBytesOfWord(wY);
      LeWord(wY)
    }

    function GetAngZ(): (w: bv32)
      reads this
      requires Valid()
      ensures LeBytes(w) == wZ
    {
      LeBytesOfWord(wZ);
      LeWord(wZ)
    }

    function GetAccX(): (w: bv32)
      reads this
      requires Valid()
      ensures LeBytes(w) == aX
    {
      LeBytesOfWord(aX);
      LeWord(aX)
    }

    function GetAccY(): (w: bv32)
      reads this
      requires Valid()
      ensures LeBytes(w) == aY
    {
      LeBytesOfWord(aY);
      LeWord(aY)
    }

    function GetAccZ(): (w: bv32)
      reads this
      requires Valid()
      ensures LeBytes(w) == aZ
    {
      LeBytesOfWord(aZ);
      LeWord(aZ)
    }
  }
}
