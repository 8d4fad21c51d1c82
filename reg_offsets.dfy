/** The register layout of the HPS_LED_Patterns component: three 32-bit registers in a 16-byte span. */
module RegOffsets {

  import opened CTypes

  const REG0_HPS_LED_CONTROL_OFFSET: nat := 0x0
  const REG1_LED_REG_OFFSET: nat := 0x4
  const REG2_BASE_RATE_OFFSET: nat := 0x8

  /** Memory span of all registers, used or not. */
  const SPAN: nat := 0x10

  /** Width in bytes of every register access. */
  const WORD: nat := 4

  /** The logical registers an aligned in-range offset addresses. */
  datatype Register = Control | LedReg | BaseRate | Reserved

  /** The register at an offset, if the offset is an aligned slot inside the span. */
  function RegisterAt(offset: int): (r: Option<Register>)
    ensures r.Some? <==> 0 <= offset < SPAN && offset % WORD == 0
    ensures r == Some(Control) <==> offset == REG0_HPS_LED_CONTROL_OFFSET
    ensures r == Some(LedReg) <==> offset == REG1_LED_REG_OFFSET
    ensures r == Some(BaseRate) <==> offset == REG2_BASE_RATE_OFFSET
  {
    if offset == REG0_HPS_LED_CONTROL_OFFSET then Some(Control)
    else if offset == REG1_LED_REG_OFFSET then Some(LedReg)
    else if offset == REG2_BASE_RATE_OFFSET then Some(BaseRate)
    else if 0 <= offset < SPAN && offset % WORD == 0 then Some(Reserved)
    else None
  }

  /** The offset of a named register. */
  function OffsetOf(reg: Register): (offset: nat)
    ensures offset < SPAN && offset % WORD == 0
    ensures RegisterAt(offset) == Some(reg)
  {
    match reg
    case Control => REG0_HPS_LED_CONTROL_OFFSET
    case LedReg => REG1_LED_REG_OFFSET
    case BaseRate => REG2_BASE_RATE_OFFSET
    case Reserved => 0xC
  }

  /** Every register offset is a multiple of the word size. */
  lemma OffsetsAligned()
    ensures REG0_HPS_LED_CONTROL_OFFSET % WORD == 0
    ensures REG1_LED_REG_OFFSET % WORD == 0
    ensures REG2_BASE_RATE_OFFSET % WORD == 0
  {
  }

  /** Every register offset lies strictly inside the span. */
  lemma OffsetsInSpan()
    ensures REG0_HPS_LED_CONTROL_OFFSET < SPAN
    ensures REG1_LED_REG_OFFSET < SPAN
    ensures REG2_BASE_RATE_OFFSET < SPAN
  {
  }

  /** No two registers share an offset. */
  lemma OffsetsDistinct()
    ensures REG0_HPS_LED_CONTROL_OFFSET != REG1_LED_REG_OFFSET
    ensures REG1_LED_REG_OFFSET != REG2_BASE_RATE_OFFSET
    ensures REG0_HPS_LED_CONTROL_OFFSET != REG2_BASE_RATE_OFFSET
  {
  }

  /** The span holds exactly four aligned word slots, and 0xC is the one without a named register. */
  lemma SpanSlots()
    ensures forall o :: RegisterAt(o).Some? <==> o in {0x0, 0x4, 0x8, 0xC}
    ensures RegisterAt(0xC) == Some(Reserved)
    ensures SPAN / WORD == 4
  {
    forall o
      ensures RegisterAt(o).Some? <==> o in {0x0, 0x4, 0x8, 0xC}
    {
      if 0 <= o < SPAN && o % WORD == 0 {
        assert o == 0x0 || o == 0x4 || o == 0x8 || o == 0xC;
      }
    }
  }
}
