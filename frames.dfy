/** Stack frames, function tokens and the trust gate.

    A frame is saved on the return stack as one 4-byte cell: bit 0 of the
    first byte is `in_full_trust`, its other seven bits are `pop`, then the
    module index and the 16-bit instruction offset (src/mango.c:113-118).
    A function token is a cell {reserved byte, module, ip} (src/mango.c:120-124). */
module Frames {
  import opened Words
  import opened Images
  import opened Results

  /** INVALID_MODULE: "no module"; as a token's module, "this module". */
  const INVALID_MODULE: u8 := 255

  type Pop = p: int | 0 <= p < 128

  datatype Frame = Frame(trusted: bool, pop: Pop, moduleIndex: u8, ip: u16)

  function EncodeFrame(f: Frame): (c: u32)
  {
    (if f.trusted then 1 else 0) + 2 * f.pop + 256 * f.moduleIndex + 65536 * f.ip
  }

  function DecodeFrame(c: u32): Frame {
    Frame(c % 2 == 1, (c / 2) % 128, (c / 256) % 256, c / 65536)
  }

  /** A saved frame reads back as the frame that was saved, trust included. */
  lemma FrameRoundTrip(f: Frame)
    ensures DecodeFrame(EncodeFrame(f)) == f
  {
    var t := if f.trusted then 1 else 0;
    var c := EncodeFrame(f);
    var low := t + 2 * f.pop;
    assert 0 <= low < 256;
    assert c == low + 256 * (f.moduleIndex + 256 * f.ip);
    DivModUnique(c, 256, f.moduleIndex + 256 * f.ip, low);
    DivModUnique(c / 256, 256, f.ip, f.moduleIndex);
    assert c / 65536 == (c / 256) / 256;
    DivModUnique(low, 2, f.pop, t);
    assert c % 2 == low % 2 by {
      DivModUnique(c, 2, f.pop + 128 * (f.moduleIndex + 256 * f.ip), t);
    }
    assert (c / 2) % 128 == f.pop by {
      DivModUnique(c, 2, f.pop + 128 * (f.moduleIndex + 256 * f.ip), t);
      DivModUnique(c / 2, 128, f.moduleIndex + 256 * f.ip, f.pop);
    }
  }

  /** LDFTN's cell: reserved byte 0, then the import slot and the offset. */
  function EncodeToken(slot: u8, ip: u16): u32 {
    256 * slot + 65536 * ip
  }

  /** CALLI reads the module slot and the offset back out of the cell. */
  function TokenSlot(c: u32): u8 {
    (c / 256) % 256
  }

  function TokenIp(c: u32): u16 {
    c / 65536
  }

  lemma {:induction false} TokenRoundTrip(slot: u8, ip: u16)
    ensures TokenSlot(EncodeToken(slot, ip)) == slot
    ensures TokenIp(EncodeToken(slot, ip)) == ip
  {
    var c := EncodeToken(slot, ip);
    assert c == 256 * (slot + 256 * ip) + 0;
    DivModUnique(c, 256, slot + 256 * ip, 0);
    DivModUnique(c / 256, 256, ip, slot);
    assert c / 65536 == (c / 256) / 256;
  }

  /** The trust check shared by `_mango_set_entry_point` (src/mango.c:696-708)
      and `call:` (src/mango.c:1266-1278): `None` is a security violation,
      `Some(t)` the trust of the callee's frame. A caller in full trust
      always passes and stays trusted; a sandboxed caller is refused exactly
      when the callee is critical but not a safe-critical function of a
      module imported as trusted, and is elevated exactly when it is. */
  function TrustGate(callerTrusted: bool, f: FuncDef, moduleFlags: ImportFlags): (r: Option<bool>)
    ensures callerTrusted ==> r == Some(true)
    ensures !callerTrusted ==>
              (r.None? <==> (f.securityCritical || f.safeCritical) &&
                            !(f.safeCritical && moduleFlags.trustedModule))
    ensures !callerTrusted ==> (r == Some(true) <==> f.safeCritical && moduleFlags.trustedModule)
  {
    if !callerTrusted && (f.securityCritical || f.safeCritical) then
      if !f.safeCritical || !moduleFlags.trustedModule then None
      else Some(true)
    else Some(callerTrusted)
  }
}
