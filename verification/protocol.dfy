/** What one `update()` call does to the byte stream, as functions of the
    stream: the guard on `available()`, the bounded search for the sync
    byte, the 41-byte read after it, the checksum test and the fixed-offset
    field layout. Both decoder classes are proved against these functions. */
module Protocol {
  import opened ImuCrc
  import opened Bytes

  /** The marker byte that precedes every frame. */
  const SyncByte: bv8 := 0xFA
  /** The sync search reads at most this many single bytes. */
  const SyncAttempts: nat := 6
  /** `update()` does nothing unless more than this many bytes are buffered. */
  const AvailableThreshold: nat := 4
  /** Bytes read after the sync byte. */
  const FrameLength: nat := 41
  /** Bytes of the frame covered by the checksum; the two after them are
      the checksum itself. */
  const CrcLength: nat := 39
  /** Size of the decoder's receive buffer `in`. */
  const BufferLength: nat := 100

  // ---------------------------------------------------------------------
  // Sync search

  /** Index of the first sync byte of `s`, or `|s|` when there is none. */
  function FirstSync(s: seq<bv8>): (k: nat)
    ensures k <= |s|
    ensures k < |s| ==> s[k] == SyncByte
    ensures forall j :: 0 <= j < k ==> s[j] != SyncByte
  {
    if s == [] || s[0] == SyncByte then 0 else 1 + FirstSync(s[1..])
  }

  /** The bytes the sync search may look at. */
  function SyncWindow(s: seq<bv8>): seq<bv8>
  {
    if |s| <= SyncAttempts then s else s[..SyncAttempts]
  }

  /** The sync search meets a sync byte within its attempts. */
  predicate SyncFound(s: seq<bv8>)
  {
    FirstSync(SyncWindow(s)) < |SyncWindow(s)|
  }

  /** The number of single bytes the sync search reads: up to and
      including the first sync byte, or all its attempts. */
  function SyncReads(s: seq<bv8>): (n: nat)
    ensures 1 <= n <= SyncAttempts
  {
    if SyncFound(s) then FirstSync(SyncWindow(s)) + 1 else SyncAttempts
  }

  /** The search stops right after the first sync byte, and it finds one
      exactly when one is among the bytes it read. */
  lemma SyncSearchStops(s: seq<bv8>)
    requires SyncReads(s) <= |s|
    ensures SyncFound(s) <==> SyncByte in s[..SyncReads(s)]
    ensures SyncFound(s) ==> s[SyncReads(s) - 1] == SyncByte && SyncByte !in s[..SyncReads(s) - 1]
    ensures !SyncFound(s) ==> SyncReads(s) == SyncAttempts
  {
    var w := SyncWindow(s);
    var n := SyncReads(s);
    if SyncFound(s) {
      assert s[..n][n - 1] == s[n - 1] == w[n - 1];
      var before := s[..n - 1];
      forall j | 0 <= j < |before|
        ensures before[j] != SyncByte
      {
        assert before[j] == w[j];
      }
    } else {
      assert w == s[..n];
      forall j | 0 <= j < n
        ensures s[..n][j] != SyncByte
      {
        assert s[..n][j] == w[j];
      }
    }
  }

  /** Behind fewer than `SyncAttempts` bytes that are not sync bytes, the
      search finds the sync byte that follows them and stops there. */
  lemma SyncAt(g: seq<bv8>, rest: seq<bv8>)
    requires |g| < SyncAttempts && SyncByte !in g
    ensures SyncFound(g + [SyncByte] + rest)
    ensures SyncReads(g + [SyncByte] + rest) == |g| + 1
  {
    var s := g + [SyncByte] + rest;
    var w := SyncWindow(s);
    assert w[|g|] == SyncByte;
  }

  // ---------------------------------------------------------------------
  // One poll

  /** The guard passed and the sync search found the marker: the value
      `update()` returns. */
  predicate Synced(avail: nat, s: seq<bv8>)
  {
    avail > AvailableThreshold && SyncFound(s)
  }

  /** The number of bytes one `update()` takes from the stream. */
  function Consumed(avail: nat, s: seq<bv8>): nat
  {
    if avail <= AvailableThreshold then 0
    else if SyncFound(s) then SyncReads(s) + FrameLength
    else SyncAttempts
  }

  /** The stream holds every byte `update()` asks for: reads never time
      out. */
  predicate Serves(avail: nat, s: seq<bv8>)
  {
    Consumed(avail, s) <= |s|
  }

  /** The 41 bytes read after the sync byte. */
  function Frame(avail: nat, s: seq<bv8>): (f: seq<bv8>)
    requires Synced(avail, s) && Serves(avail, s)
    ensures |f| == FrameLength
  {
    s[SyncReads(s)..SyncReads(s) + FrameLength]
  }

  /** The checksum union filled with `b[0] = in[40]`, `b[1] = in[39]`. */
  function Checksum(f: seq<bv8>): (c: bv16)
    requires |f| == FrameLength
    ensures c as int == f[39] as int * 256 + f[40] as int
  {
    LeShortValue(f[40], f[39]);
    LeShort(f[40], f[39])
  }

  /** The frame passes the checksum test of `readImuData()`. */
  predicate FrameAccepted(f: seq<bv8>)
    requires |f| == FrameLength
  {
    Crc(f[..CrcLength]) == Checksum(f)
  }

  /** This `update()` copies the frame into the sensor fields. */
  predicate Accepted(avail: nat, s: seq<bv8>)
    requires Serves(avail, s)
  {
    Synced(avail, s) && FrameAccepted(Frame(avail, s))
  }

  /** The receive buffer `in` after one `update()`: untouched when the
      guard fails; the last byte read in slot 0 when the search fails; the
      frame over the first 41 slots otherwise. */
  function BufferAfter(avail: nat, s: seq<bv8>, buf: seq<bv8>): (r: seq<bv8>)
    requires |buf| == BufferLength && Serves(avail, s)
    ensures |r| == BufferLength
  {
    if avail <= AvailableThreshold then buf
    else if !SyncFound(s) then buf[0 := s[SyncAttempts - 1]]
    else Frame(avail, s) + buf[FrameLength..]
  }

  /** A poll that finds the marker is the sync search followed by one
      frame read: this splits the effect of `update()` at the call to
      `readImuData()`. */
  lemma SyncedPoll(avail: nat, s: seq<bv8>, buf: seq<bv8>)
    requires Synced(avail, s) && Serves(avail, s) && |buf| == BufferLength
    ensures var n := SyncReads(s);
      && FrameLength <= |s[n..]|
      && Frame(avail, s) == s[n..][..FrameLength]
      && s[Consumed(avail, s)..] == s[n..][FrameLength..]
      && BufferAfter(avail, s, buf) == Frame(avail, s) + buf[0 := s[n - 1]][FrameLength..]
  {
    var n := SyncReads(s);
    assert buf[0 := s[n - 1]][FrameLength..] == buf[FrameLength..];
  }

  /** `in[41..99]` is never written. */
  lemma BufferTailUntouched(avail: nat, s: seq<bv8>, buf: seq<bv8>)
    requires |buf| == BufferLength && Serves(avail, s)
    ensures BufferAfter(avail, s, buf)[FrameLength..] == buf[FrameLength..]
  {
    if avail > AvailableThreshold && SyncFound(s) {
      var f := Frame(avail, s);
      assert (f + buf[FrameLength..])[FrameLength..] == buf[FrameLength..];
    }
  }

  // ---------------------------------------------------------------------
  // Field layout

  /** The nine sensor values of a full frame. */
  datatype Quantity = Yaw | Pitch | Roll | AngX | AngY | AngZ | AccX | AccY | AccZ

  /** The quantities in frame order. */
  const Quantities: seq<Quantity> := [Yaw, Pitch, Roll, AngX, AngY, AngZ, AccX, AccY, AccZ]

  /** Position of `q` in frame order. */
  function Index(q: Quantity): (k: nat)
    ensures k < |Quantities| && Quantities[k] == q
  {
    match q
    case Yaw => 0
    case Pitch => 1
    case Roll => 2
    case AngX => 3
    case AngY => 4
    case AngZ => 5
    case AccX => 6
    case AccY => 7
    case AccZ => 8
  }

  /** Offset in the frame of the four bytes of `q`: consecutive 4-byte
      groups after a 3-byte header, all inside the checksummed bytes. */
  function Offset(q: Quantity): (off: nat)
    ensures off == 3 + 4 * Index(q)
    ensures off + 4 <= CrcLength
  {
    match q
    case Yaw => 3
    case Pitch => 7
    case Roll => 11
    case AngX => 15
    case AngY => 19
    case AngZ => 23
    case AccX => 27
    case AccY => 31
    case AccZ => 35
  }

  /** The bytes of `q` in frame `f`. */
  function FieldOf(f: seq<bv8>, q: Quantity): (b: seq<bv8>)
    requires |f| == FrameLength
    ensures |b| == 4
  {
    f[Offset(q)..Offset(q) + 4]
  }

  /** The bytes of the field `q` after one `update()`, given its bytes
      before. */
  function FieldAfter(avail: nat, s: seq<bv8>, q: Quantity, before: seq<bv8>): seq<bv8>
    requires Serves(avail, s)
  {
    if Accepted(avail, s) then FieldOf(Frame(avail, s), q) else before
  }

  /** The nine fields, in order, are exactly the checksummed bytes after
      the header: no byte is read twice and none is skipped. */
  lemma FieldsTileBody(f: seq<bv8>)
    requires |f| == FrameLength
    ensures FieldOf(f, Yaw) + FieldOf(f, Pitch) + FieldOf(f, Roll)
          + FieldOf(f, AngX) + FieldOf(f, AngY) + FieldOf(f, AngZ)
          + FieldOf(f, AccX) + FieldOf(f, AccY) + FieldOf(f, AccZ)
         == f[3..CrcLength]
  {
    forall q | q in Quantities {
      FieldInBody(f, q);
    }
  }

  /** Field `q` is word `Index(q)` of the checksummed bytes after the
      header. */
  lemma FieldInBody(f: seq<bv8>, q: Quantity)
    requires |f| == FrameLength
    ensures FieldOf(f, q) == f[3..CrcLength][4 * Index(q)..4 * Index(q) + 4]
  {
    var body, k := f[3..CrcLength], 4 * Index(q);
    forall j | 0 <= j < 4
      ensures body[k..k + 4][j] == FieldOf(f, q)[j]
    {
      assert body[k..k + 4][j] == f[3 + k + j];
    }
  }

  // ---------------------------------------------------------------------
  // Frames as a sender builds them

  /** The little-endian bytes of `ws`, one word after another. */
  function Payload(ws: seq<bv32>): (p: seq<bv8>)
    ensures |p| == 4 * |ws|
  {
    if ws == [] then [] else Payload(ws[..|ws| - 1]) + LeBytes(ws[|ws| - 1])
  }

  /** Word `k` of `ws` sits at bytes `4k..4k+4` of the payload. */
  lemma {:induction false} PayloadWord(ws: seq<bv32>, k: nat)
    requires k < |ws|
    ensures Payload(ws)[4 * k..4 * k + 4] == LeBytes(ws[k])
  {
    var init := ws[..|ws| - 1];
    if k < |ws| - 1 {
      PayloadWord(init, k);
      assert Payload(ws)[4 * k..4 * k + 4] == Payload(init)[4 * k..4 * k + 4];
    }
  }

  /** The 41 bytes a sender puts after the sync byte: a 3-byte header, the
      nine values, then the checksum of those 39 bytes, high byte first. */
  function EncodeFrame(header: seq<bv8>, ws: seq<bv32>): (f: seq<bv8>)
    requires |header| == 3 && |ws| == |Quantities|
    ensures |f| == FrameLength
  {
    var body := header + Payload(ws);
    var c := Crc(body);
    body + [HighOf(c), LowOf(c)]
  }

  /** The values of a frame, in frame order. */
  function Words(f: seq<bv8>): (ws: seq<bv32>)
    requires |f| == FrameLength
    ensures |ws| == |Quantities|
    ensures forall q :: ws[Index(q)] == LeWord(FieldOf(f, q))
  {
    seq(|Quantities|, k requires 0 <= k < |Quantities| => LeWord(FieldOf(f, Quantities[k])))
  }

  /** Bytes that hold the little-endian words of `ws`, in order, are the
      payload of `ws`. */
  lemma {:induction false} PayloadOfBytes(ws: seq<bv32>, b: seq<bv8>)
    requires |b| == 4 * |ws|
    requires forall k :: 0 <= k < |ws| ==> b[4 * k..4 * k + 4] == LeBytes(ws[k])
    ensures Payload(ws) == b
  {
    if ws != [] {
      var n := |ws| - 1;
      var init, front := ws[..n], b[..4 * n];
      forall k | 0 <= k < |init|
        ensures front[4 * k..4 * k + 4] == LeBytes(init[k])
      {
        assert front[4 * k..4 * k + 4] == b[4 * k..4 * k + 4];
      }
      PayloadOfBytes(init, front);
      assert b == front + b[4 * n..4 * n + 4];
    }
  }

  /** A frame built by a sender passes the checksum test, and every field
      read from it is the value that was sent. */
  lemma DecodeEncode(header: seq<bv8>, ws: seq<bv32>, q: Quantity)
    requires |header| == 3 && |ws| == |Quantities|
    ensures FrameAccepted(EncodeFrame(header, ws))
    ensures FieldOf(EncodeFrame(header, ws), q) == LeBytes(ws[Index(q)])
    ensures LeWord(FieldOf(EncodeFrame(header, ws), q)) == ws[Index(q)]
  {
    var body := header + Payload(ws);
    var f := EncodeFrame(header, ws);
    var c := Crc(body);
    assert f[..CrcLength] == body;
    BytesOfLeShort(LowOf(c), HighOf(c));
    LeShortOfBytes(c);
    PayloadWord(ws, Index(q));
    FieldInBody(f, q);
    assert f[3..CrcLength] == Payload(ws);
    LeWordOfBytes(ws[Index(q)]);
  }

  /** The payload of a frame's values is the frame's bytes between the
      header and the checksum. */
  lemma PayloadOfWords(f: seq<bv8>)
    requires |f| == FrameLength
    ensures Payload(Words(f)) == f[3..CrcLength]
  {
    var ws := Words(f);
    var body := f[3..CrcLength];
    forall k | 0 <= k < |ws|
      ensures body[4 * k..4 * k + 4] == LeBytes(ws[k])
    {
      var q := Quantities[k];
      FieldInBody(f, q);
      LeBytesOfWord(FieldOf(f, q));
    }
    PayloadOfBytes(ws, body);
  }

  /** Every frame that passes the checksum test is the one a sender builds
      from its header and its values. */
  lemma EncodeDecode(f: seq<bv8>)
    requires |f| == FrameLength && FrameAccepted(f)
    ensures EncodeFrame(f[..3], Words(f)) == f
  {
    PayloadOfWords(f);
    assert f[..3] + f[3..CrcLength] == f[..CrcLength];
    BytesOfLeShort(f[40], f[39]);
    assert f == f[..CrcLength] + [f[39], f[40]];
  }

  // ---------------------------------------------------------------------
  // Whole polls

  /** A poll that finds up to five noise bytes, the sync byte and a frame
      built by a sender reads exactly through that frame, accepts it and
      delivers the values that were sent. */
  lemma PollDecodes(avail: nat, noise: seq<bv8>, header: seq<bv8>, ws: seq<bv32>, rest: seq<bv8>,
                    q: Quantity, before: seq<bv8>)
    requires avail > AvailableThreshold
    requires |noise| < SyncAttempts && SyncByte !in noise
    requires |header| == 3 && |ws| == |Quantities|
    ensures var s := noise + [SyncByte] + EncodeFrame(header, ws) + rest;
      && Serves(avail, s)
      && Synced(avail, s)
      && Consumed(avail, s) == |noise| + 1 + FrameLength
      && Accepted(avail, s)
      && LeWord(FieldAfter(avail, s, q, before)) == ws[Index(q)]
  {
    var f := EncodeFrame(header, ws);
    var s := noise + [SyncByte] + f + rest;
    assert s == noise + [SyncByte] + (f + rest);
    SyncAt(noise, f + rest);
    assert Frame(avail, s) == f;
    DecodeEncode(header, ws, q);
  }

  /** Any change to one byte of an accepted frame, including either
      checksum byte, makes the frame fail the test. */
  lemma RejectsSingleByteError(f: seq<bv8>, i: nat, v: bv8)
    requires |f| == FrameLength && FrameAccepted(f)
    requires i < FrameLength && v != f[i]
    ensures !FrameAccepted(f[i := v])
  {
    var g := f[i := v];
    if i < CrcLength {
      assert g[..CrcLength] == f[..CrcLength][i := v];
      DetectsSingleByteError(f[..CrcLength], i, v);
    } else {
      assert g[..CrcLength] == f[..CrcLength];
      LeShortInjective(f[40], f[39], g[40], g[39]);
    }
  }

  /** `update()` reports success on a frame it then rejects: sync byte,
      39 zero bytes and a checksum of 1 instead of 0. */
  lemma SyncedButRejected()
    ensures var s := [SyncByte] + seq(39, _ => 0) + [0, 1];
      && Serves(5, s)
      && Synced(5, s)
      && !Accepted(5, s)
  {
    var zeros: seq<bv8> := seq(39, _ => 0);
    var s := [SyncByte] + zeros + [0, 1];
    SyncAt([], zeros + [0, 1]);
    assert s == [] + [SyncByte] + (zeros + [0, 1]);
    var f := Frame(5, s);
    assert f == zeros + [0, 1];
    assert f[..CrcLength] == zeros;
    CrcOfZeros(39);
  }
}
