/** The two decoders side by side: fed the same bytes, the pitch-and-roll
    decoder of `VectorNav.h` behaves as the nine-value decoder of
    `VectorNav/VectorNav.h` restricted to pitch and roll. */
module Variants {
  import Full = VectorNavFull
  import PitchRoll = VectorNavPitchRoll
  import opened Protocol
  import opened Serial

  /** One `update()` on each decoder, on two ports that will deliver the
      same bytes and report the same count. Both report the same result,
      take the same bytes, leave the same receive buffer and the same
      checksum union, and agree on pitch and roll after a frame is
      accepted or whenever they agreed before. */
  method UpdateBoth(full: Full.VectorNav, pr: PitchRoll.VectorNav) returns (fullSynced: bool, prSynced: bool)
    requires full.Valid() && full.imuSerial.Valid() && pr.Valid() && pr.imuSerial.Valid()
    requires full.imuSerial != pr.imuSerial && full.inBuffer != pr.inBuffer
    requires full.imuSerial.incoming == pr.imuSerial.incoming
    requires full.imuSerial.buffered == pr.imuSerial.buffered
    requires Serves(full.imuSerial.buffered, full.imuSerial.incoming)
    modifies full, full.imuSerial, full.inBuffer, pr, pr.imuSerial, pr.inBuffer
    ensures fullSynced == prSynced
    ensures full.imuSerial.incoming == pr.imuSerial.incoming
    ensures full.imuSerial.buffered == pr.imuSerial.buffered
    ensures old(full.inBuffer[..] == pr.inBuffer[..]) ==> full.inBuffer[..] == pr.inBuffer[..]
    ensures old(full.checksum == pr.checksum) ==> full.checksum == pr.checksum
    ensures Accepted(old(full.imuSerial.buffered), old(full.imuSerial.incoming))
      ==> full.pitch == pr.pitch && full.roll == pr.roll
    ensures old(full.pitch == pr.pitch && full.roll == pr.roll)
      ==> full.pitch == pr.pitch && full.roll == pr.roll
  {
    assert full.Field(Pitch) == full.pitch && full.Field(Roll) == full.roll;
    fullSynced := full.Update();
    assert full.Field(Pitch) == full.pitch && full.Field(Roll) == full.roll;
    prSynced := pr.Update();
  }
}
