/** The methods of the device that the serial path takes apart: their steps, one after the other, are the method. */
module SerialMethods {
  import opened Bytes
  import opened SpscQueues
  import opened Mc6850Spec
  import opened SerialPath

  /** `has_interrupt`: look at the flag and clear it, then derive everything; or the cached answer. */
  lemma PollIsHasInterrupt(s: Sys)
    requires s.WellFormed() && s.core1.Looping?
    ensures var p := Apply(s, PollInterrupt);
      if s.device.flags.irqDirty
      then p.core1.Recomputing? && Apply(p, Recompute) == s.(device := s.device.HasInterrupt())
      else p == s && s.device.HasInterrupt() == s.device
  {
  }

  /** `host_transmit`: the put, then the store of the flag. */
  lemma PutIsHostTransmit(s: Sys)
    requires s.WellFormed() && Enabled(s, PumpPut)
    ensures var p, b := Apply(s, PumpPut), s.pump.rxBuf[s.pump.rxIndex + s.pump.pc.done];
      && p.WellFormed() && Enabled(p, PumpPutFlag)
      && Apply(p, PumpPutFlag) == s.(device := s.device.HostTransmit(b),
                                     pump := s.pump.(pc := s.pump.pc.(done := s.pump.pc.done + 1)))
  {
    assert s.pump.pc == Bursting(s.pump.pc.amount, s.pump.pc.done, false);
  }

  /** `set_host_cts`: the store of the host's readiness, and on a change the store of the flag behind it. */
  lemma CtsIsSetHostCts(s: Sys)
    requires s.WellFormed() && Enabled(s, PumpCts)
    ensures var c := Apply(s, PumpCts);
      && c.WellFormed() && (c.pump.pc.PumpIdle? || Enabled(c, PumpCtsFlag))
      && (c.pump.pc.CtsFlagDue? <==> s.device.flags.hostCtsDeasserted != (s.pump.TxRest() != []))
      && (if c.pump.pc.CtsFlagDue? then Apply(c, PumpCtsFlag) else c)
         == s.(device := s.device.SetHostCts(s.pump.TxRest() != []), pump := s.pump.(pc := PumpIdle))
  {
    assert s.pump.TxRest() != [] <==> s.pump.txCount > 0 && s.pump.txIndex < s.pump.txCount;
  }
}
