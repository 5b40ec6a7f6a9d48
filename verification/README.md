# VectorNav frame decoder

This project models the Arduino driver for a VectorNav inertial measurement
unit (IMU) and proves properties of it. The driver comes in two variants with
the same structure:

- `VectorNav/VectorNav.h` keeps nine values: yaw, pitch, roll, three angular
  rates and three accelerations.
- `VectorNav.h` keeps only pitch and roll.

Each call to `update()` does four things:

1. It does nothing unless the serial port reports more than 4 buffered bytes.
2. It reads up to six single bytes into `in[0]`, stopping at the first sync
   byte `0xFA`.
3. After a sync byte it reads 41 bytes into `in[0..40]`. It builds the
   checksum union from `in[40]` (low byte) and `in[39]` (high byte) and
   compares it with `calculateImuCrc(in, 39)`.
4. Only on a match does it copy the 4-byte groups at offsets 3, 7, …, 35 into
   the float unions.

`calculateImuCrc` is the compact bytewise form of CRC-16-CCITT: generator
x^16 + x^12 + x^5 + 1 (ITU-T Recommendation V.41) with initial value 0, the
CRC-16/XMODEM parameterisation.

The model has these modules:

- `ImuCrc` (`crc.dfy`): the checksum.
  - `Crc` is a left fold of a five-statement byte step.
  - `CalculateImuCrc` is the loop over an array, proved equal to `Crc`.
  - Lemmas prove that the step is invertible and that every single-byte error
    is detected. The standard check value is proved as well.
- `Bytes` (`bytes.dfy`): the unions, read on a little-endian target. Each
  float union is a 4-byte sequence, and the getters return its raw 32-bit
  word.
- `Serial` (`serial_port.dfy`): the `HardwareSerial` port.
  - `incoming` holds the bytes it will deliver.
  - `buffered` is what `available()` reports.
- `Protocol` (`protocol.dfy`): one poll as functions of the stream.
  - The functions cover what `update()` returns, how many bytes it takes, the
    frame it reads, whether that frame is accepted, the new receive buffer and
    the new field values.
  - It also covers the frame layout and how a sender builds a frame.
- `VectorNavFull` (`vectornav_full.dfy`) and `VectorNavPitchRoll`
  (`vectornav_pitch_roll.dfy`): the two decoder classes.
  - Their fields are the port, the `in` buffer (an `array<bv8>` of 100), the
    sync flag, the checksum union and the value unions.
  - Their methods follow the source's loops. Each `Update` is proved to do
    exactly what the `Protocol` functions describe.
- `Variants` (`variants.dfy`): both decoders fed the same bytes.

The model follows the code in two places where a reader of its comments or of
descriptions of the protocol might expect otherwise:

- `update()` returns `true` whenever the sync byte was found, even when the
  frame then fails the checksum test and no value changes.
  `Protocol.SyncedButRejected` exhibits such a stream.
- `update()` reads 41 bytes after the sync byte, not 40, so a frame is 42
  bytes on the wire. The checksum covers the 39 bytes after the sync byte,
  not the sync byte itself.

## Model

| member | source | states |
|---|---|---|
| `ImuCrc.CalculateImuCrc` | VectorNav/VectorNav.h:102-112 | The result is `Crc(data[0..length))`: the fold from 0 of the five-statement byte step, all in 16 bits. No byte at or after `length` affects it. |
| `ImuCrc.CrcOfZeros` | VectorNav/VectorNav.h:103-110 | Any run of zero bytes, including the empty input, has checksum 0. |
| `ImuCrc.UnstepStep` | VectorNav/VectorNav.h:105-109 | One iteration of the loop body can be undone: with the byte known, the register before the step is recovered from the register after it. |
| `ImuCrc.StepInjectiveInRegister` | VectorNav/VectorNav.h:105-109 | For a fixed data byte, different registers before the step give different registers after it. |
| `ImuCrc.StepInjectiveInByte` | VectorNav/VectorNav.h:105-109 | For a fixed register, different data bytes give different registers after the step. |
| `ImuCrc.FoldAppend` | VectorNav/VectorNav.h:104-110 | Feeding `p + q` gives the same register as feeding `p` and then `q`. |
| `ImuCrc.FoldInjective` | VectorNav/VectorNav.h:104-110 | Two different registers stay different whatever bytes follow. |
| `ImuCrc.DetectsSingleByteError` | VectorNav/VectorNav.h:102-112 | Changing any one byte of any message changes its checksum, so every single-bit error is detected. |
| `ImuCrc.CheckValue` | VectorNav/VectorNav.h:102-112 | The checksum of ASCII "123456789" is 0x31C3, the published CRC-16/XMODEM check value. |
| `Serial.SerialPort.Available` | VectorNav/VectorNav.h:17 | Returns the count of buffered bytes and changes nothing. |
| `Serial.SerialPort.ReadBytes` | VectorNav/VectorNav.h:78 | The next `length` stream bytes land in `buf[0..length)` and leave the stream. The rest of `buf` is untouched. The buffered count drops by `length`, but not below 0. |
| `Protocol.FirstSync` | VectorNav/VectorNav.h:67-73 | The index of the first `0xFA`, or the length when there is none. No `0xFA` comes before it. |
| `Protocol.SyncReads` | VectorNav/VectorNav.h:67-73 | The sync search reads between 1 and 6 bytes. |
| `Protocol.SyncSearchStops` | VectorNav/VectorNav.h:66-74 | The search finds the marker exactly when a `0xFA` is among the bytes it consumed. When it finds one, the last byte consumed is the first `0xFA`. When it finds none, it consumed 6 bytes. |
| `Protocol.SyncAt` | VectorNav/VectorNav.h:67-72 | After fewer than 6 non-sync bytes, the search stops at the `0xFA` that follows them. |
| `Protocol.Checksum` | VectorNav/VectorNav.h:81-82 | The union value is `in[39] * 256 + in[40]`. |
| `Protocol.Index` | VectorNav/VectorNav.h:56-58 | Each of the nine quantities has one position in frame order. |
| `Protocol.Offset` | VectorNav/VectorNav.h:88-96 | Value `k` starts at byte `3 + 4k` and ends inside the 39 checksummed bytes. |
| `Protocol.FieldsTileBody` | VectorNav/VectorNav.h:87-97 | The nine 4-byte groups, in order, are exactly `in[3..38]`: no byte is used twice and none is skipped. |
| `Protocol.SyncedPoll` | VectorNav/VectorNav.h:17-24 | A poll that finds the marker is the sync search followed by one 41-byte read. The frame is the 41 bytes after the search, and the bytes left are the ones after them. The buffer is the frame followed by the search's buffer from `in[41]` on. |
| `Protocol.BufferTailUntouched` | VectorNav/VectorNav.h:78 | `in[41..99]` is never written by a poll. |
| `Protocol.FieldInBody` | VectorNav/VectorNav.h:87-97 | The bytes of value `k` are bytes `4k..4k+3` of `in[3..38]`. |
| `Protocol.DecodeEncode` | VectorNav/VectorNav.h:85-97 | A frame built from a header and nine words passes the checksum test. Each field read from it is the word that was sent. |
| `Protocol.EncodeDecode` | VectorNav/VectorNav.h:81-97 | Every frame that passes the test is the frame built from its own header and its decoded words. |
| `Protocol.PayloadOfWords` | VectorNav/VectorNav.h:87-97 | Re-encoding the nine decoded words gives back `in[3..38]` byte for byte. |
| `Protocol.PollDecodes` | VectorNav/VectorNav.h:13-27 | Suppose a poll sees more than 4 buffered bytes, then up to 5 noise bytes, a `0xFA` and a built frame. It returns true, consumes exactly through that frame, accepts it and delivers the sent values. |
| `Protocol.RejectsSingleByteError` | VectorNav/VectorNav.h:81-85 | Changing any one of the 41 bytes of an accepted frame, checksum bytes included, makes it fail the test. |
| `Protocol.SyncedButRejected` | VectorNav/VectorNav.h:22-25 | A stream exists on which `update()` returns true but rejects the frame: a sync byte, 39 zeros and checksum 1. |
| `Bytes.LeShortValue` | VectorNav/VectorNav.h:59 | The checksum union's value is `b[1] * 256 + b[0]`. |
| `Bytes.LeShortInjective` | VectorNav/VectorNav.h:59 | Different byte pairs give different union values. |
| `Bytes.LeWordOfBytes` | VectorNav/VectorNav.h:56-58 | Storing a word's four bytes and reading the union back gives the same word. |
| `Bytes.LeBytesOfWord` | VectorNav/VectorNav.h:56-58 | Reading four bytes as a word and storing it back gives the same bytes. |
| `Bytes.CopiedAll` | VectorNav/VectorNav.h:87-97 | After the four passes of the copy loop, a union holds `src[off..off+4)`. |
| `VectorNavFull.VectorNav.constructor` | VectorNav/VectorNav.h:10 | Binds the port, allocates a fresh 100-byte buffer and clears the sync flag. It promises nothing about the values. |
| `VectorNavFull.VectorNav.Update` | VectorNav/VectorNav.h:13-27 | Returns `Synced`: more than 4 bytes buffered and a `0xFA` found, whether or not the checksum matches. It consumes `Consumed` bytes: 0 when the guard fails, 6 when no sync is found, otherwise the sync reads plus 41. It leaves `in` as `BufferAfter`. It changes all nine values to the frame's groups exactly when the frame is accepted, and none of them otherwise. |
| `VectorNavFull.VectorNav.CheckSyncByte` | VectorNav/VectorNav.h:66-74 | Consumes `SyncReads` bytes and leaves the last one in `in[0]`. The flag becomes true if a `0xFA` was found and is never cleared. |
| `VectorNavFull.VectorNav.ReadImuData` | VectorNav/VectorNav.h:77-99 | Consumes 41 bytes into `in[0..40]`. Sets the checksum union from `in[40]` and `in[39]`. Sets all nine values from the frame when `Crc(in[0..38])` matches, and leaves all nine unchanged otherwise. |
| `VectorNavFull.VectorNav.CopyFields` | VectorNav/VectorNav.h:87-97 | The four-pass loop leaves each union holding its 4-byte group of `in`. |
| `VectorNavFull.VectorNav.GetPitch` | VectorNav/VectorNav.h:30 | The word whose little-endian bytes are the pitch union. |
| `VectorNavFull.VectorNav.GetRoll` | VectorNav/VectorNav.h:31 | The word whose little-endian bytes are the roll union. |
| `VectorNavFull.VectorNav.GetYaw` | VectorNav/VectorNav.h:32 | The word whose little-endian bytes are the yaw union. |
| `VectorNavFull.VectorNav.GetAngX` | VectorNav/VectorNav.h:33 | The word whose little-endian bytes are the `W_x` union. |
| `VectorNavFull.VectorNav.GetAngY` | VectorNav/VectorNav.h:34 | The word whose little-endian bytes are the `W_y` union. |
| `VectorNavFull.VectorNav.GetAngZ` | VectorNav/VectorNav.h:35 | The word whose little-endian bytes are the `W_z` union. |
| `VectorNavFull.VectorNav.GetAccX` | VectorNav/VectorNav.h:36 | The word whose little-endian bytes are the `a_x` union. |
| `VectorNavFull.VectorNav.GetAccY` | VectorNav/VectorNav.h:37 | The word whose little-endian bytes are the `a_y` union. |
| `VectorNavFull.VectorNav.GetAccZ` | VectorNav/VectorNav.h:38 | The word whose little-endian bytes are the `a_z` union. |
| `VectorNavPitchRoll.VectorNav.constructor` | VectorNav.h:9 | Binds the port, allocates a fresh 100-byte buffer and clears the sync flag. It promises nothing about pitch and roll. |
| `VectorNavPitchRoll.VectorNav.Update` | VectorNav.h:12-26 | Same result, bytes consumed, buffer and checksum union as the nine-value decoder. Pitch and roll change to `in[7..10]` and `in[11..14]` exactly when the frame is accepted. |
| `VectorNavPitchRoll.VectorNav.CheckSyncByte` | VectorNav.h:63-71 | Consumes `SyncReads` bytes and leaves the last one in `in[0]`. The flag becomes true if a `0xFA` was found. |
| `VectorNavPitchRoll.VectorNav.ReadImuData` | VectorNav.h:74-86 | Consumes 41 bytes into `in[0..40]` and sets the checksum union. Sets pitch and roll together when the checksum matches, and neither otherwise. |
| `VectorNavPitchRoll.VectorNav.GetPitch` | VectorNav.h:29-31 | The word whose little-endian bytes are the pitch union. |
| `VectorNavPitchRoll.VectorNav.GetRoll` | VectorNav.h:34-36 | The word whose little-endian bytes are the roll union. |
| `Variants.UpdateBoth` | VectorNav.h:12-26 | On equal streams, both decoders return the same result, leave the same bytes and report the same count. They agree on pitch and roll after an accepted frame, and whenever they agreed before. |

## Left out

- `testConnection()` (`VectorNav/VectorNav.h:41-50`, `VectorNav.h:39-48`) is
  left out. It writes a byte, waits 10 ms and checks for an echo: serial I/O
  and timing with no protocol logic.
- The example sketch `ExampleCode/VectorNovEx.c` is left out. It opens ports
  and prints the getter values.
- The IEEE-754 meaning of the values is not modelled, because no floating-point
  arithmetic happens. Each union is its four bytes, and each getter returns
  the raw 32-bit word.
- Timeouts and short reads of `HardwareSerial::readBytes` are not modelled;
  the code ignores the count it returns. The model assumes reads always
  deliver. `Update` requires `Protocol.Serves`: the port will deliver every
  byte the poll asks for.
- The bytes arriving during a poll are not modelled. `buffered` only drops as
  bytes are read.
- Endianness is fixed: the target is assumed to be little-endian, as the AVR
  and ARM Arduino boards are. This applies to both the float unions and the
  checksum union.
- The constructors promise nothing about the sensor values before the first
  accepted frame; in the source those unions are uninitialised.
- `calculateImuCrc` in `VectorNav.h:89-100` is the same loop as in
  `VectorNav/VectorNav.h:102-112`; only the loop variable is declared
  differently. Both decoders call the one `ImuCrc.CalculateImuCrc`.
- The checksum is not proved equal, for all inputs, to the bit-by-bit
  polynomial division that defines CRC-16/XMODEM. The model proves the
  catalogued check value and the error-detection properties directly.
- `VectorNavFull.VectorNav.CopyFields`: the nine-value copy loop builds the
  new unions in local variables and stores them after the fourth pass. The
  source stores each byte into the union as it goes. Nothing reads the unions
  during the loop, so the final state is the same.
