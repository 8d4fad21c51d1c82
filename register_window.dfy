/**
 * The HPS_LED_Patterns character device: the 16-byte register window behind `base_addr`, read and
 * written one aligned 32-bit word at a time at the file offset, with writes made under the device
 * mutex; and the value shaping of the three sysfs `show` attributes.
 */
module RegisterWindow {

  import opened CTypes
  import opened RegOffsets
  import opened Uq44
  import opened Uq44Laws

  const EINVAL: int := 22
  const EFAULT: int := 14

  // ---------------------------------------------------------------------------------------------
  // The checks both file operations begin with
  // ---------------------------------------------------------------------------------------------

  /** The verdict of the offset and count checks, made in this order before any access. */
  datatype Admission = NegativeOffset | PastEnd | Unaligned | NothingRequested | Admitted(slot: nat)

  /** The checks on the offset `pos` and the byte count `count`; an admitted access names its word. */
  function Admit(pos: int, count: nat): (a: Admission)
    ensures a.Admitted? <==> 0 <= pos < SPAN && pos % WORD == 0 && count > 0
    ensures a.Admitted? ==> a.slot < SPAN / WORD && a.slot * WORD == pos && RegisterAt(pos).Some?
  {
    if pos < 0 then NegativeOffset
    else if pos >= SPAN then PastEnd
    else if pos % WORD != 0 then Unaligned
    else if count == 0 then NothingRequested
    else Admitted(pos / WORD)
  }

  /**
   * What `read` and `write` return, given the offset, the count and the number of bytes the user
   * copy left uncopied: only a copy that moved nothing fails, and a partial copy counts as a
   * whole word moved.
   */
  function Outcome(pos: int, count: nat, notCopied: nat): (r: int)
    requires notCopied <= WORD
    ensures r == -EINVAL <==> pos < 0
    ensures pos >= SPAN ==> r == 0
    ensures r == -EFAULT <==> 0 <= pos < SPAN && (pos % WORD != 0 || (count > 0 && notCopied == WORD))
    ensures r == 0 <==> pos >= SPAN || (0 <= pos && pos % WORD == 0 && count == 0)
    ensures r == WORD <==> Admit(pos, count).Admitted? && notCopied < WORD
  {
    match Admit(pos, count)
    case NegativeOffset => -EINVAL
    case PastEnd => 0
    case Unaligned => -EFAULT
    case NothingRequested => 0
    case Admitted(_) => if notCopied == WORD then -EFAULT else WORD
  }

  // ---------------------------------------------------------------------------------------------
  // The sysfs show attributes: what each prints, before formatting
  // ---------------------------------------------------------------------------------------------

  /** `hps_led_control_show` prints the register converted to C's `bool`: 1 for any non-zero word. */
  function ControlShown(word: u32): (v: nat)
    ensures v <= 1 && (v == 1 <==> word != 0)
  {
    if word == 0 then 0 else 1
  }

  /** `led_reg_show` prints the register truncated to `u8`: its low eight bits. */
  function LedRegShown(word: u32): (v: byte)
    ensures (word - v) % 0x100 == 0
    ensures word <= U8_MAX ==> v == word
  {
    ToU8(word)
  }

  /** What `base_rate_show` prints: the "%u.%04u" rendering of the low byte, then that byte. */
  datatype RateShown = RateShown(text: seq<byte>, raw: byte)

  /** `base_rate_show`: truncate the register to `u8`, then decode it as UQ4.4. */
  function BaseRateShown(word: u32): (s: RateShown)
    ensures s.raw == LedRegShown(word)
  {
    var b := ToU8(word);
    RateShown(RateText(b), b)
  }

  /** What `base_rate_show` prints before the tab is text `str2UQ44` turns back into the register byte. */
  lemma BaseRateReadsBack(word: u32)
    ensures Encode(BaseRateShown(word).text) == BaseRateShown(word).raw
    ensures Encode(BaseRateShown(word).text + [NEWLINE]) == BaseRateShown(word).raw
  {
    RateTextRoundTrip(BaseRateShown(word).raw);
  }

  // ---------------------------------------------------------------------------------------------
  // The device, as one open file sees it
  // ---------------------------------------------------------------------------------------------

  class CharDevice {
    /** The four 32-bit words of the span, as `ioread32`/`iowrite32` see them. */
    var regs: array<u32>
    /** The file offset `*offset`. */
    var offset: int
    /** Whether `priv->lock` is held. */
    var locked: bool

    ghost predicate Valid()
      reads this
    {
      regs.Length == SPAN / WORD
    }

    /** A device whose registers hold `words`, opened at offset 0. */
    constructor (words: seq<u32>)
      requires |words| == SPAN / WORD
      ensures Valid() && regs[..] == words && offset == 0 && !locked && fresh(regs)
    {
      regs := new u32[SPAN / WORD](i requires 0 <= i < SPAN / WORD => words[i]);
      offset := 0;
      locked := false;
    }

    /** `mutex_lock(&priv->lock)`. With a single caller the lock is free whenever it is taken. */
    method Lock()
      requires !locked
      modifies this
      ensures locked && regs == old(regs) && offset == old(offset)
    {
      locked := true;
    }

    /** `mutex_unlock(&priv->lock)`. */
    method Unlock()
      requires locked
      modifies this
      ensures !locked && regs == old(regs) && offset == old(offset)
    {
      locked := false;
    }

    /** `copy_from_user` into `val`, made with the lock held: it fails only if no byte was copied. */
    method CopyFromUser(notCopied: nat) returns (failed: bool)
      requires locked && notCopied <= WORD
      ensures failed <==> notCopied == WORD
    {
      failed := notCopied == WORD;
    }

    /** `iowrite32(val, base_addr + pos)` for the word `slot`, made with the lock held. */
    method Store(slot: nat, val: u32)
      requires Valid() && locked && slot < regs.Length
      modifies regs
      ensures regs[..] == old(regs[..])[slot := val]
    {
      regs[slot] := val;
    }

    /**
     * `hps_led_patterns_read` for a request of `count` bytes, where `copy_to_user` leaves
     * `notCopied` of the word's four bytes uncopied; `word` is the register value it was handed.
     */
    method Read(count: nat, notCopied: nat) returns (r: int, word: u32)
      requires Valid() && notCopied <= WORD
      modifies this
      ensures Valid() && regs == old(regs) && locked == old(locked)
      ensures r == Outcome(old(offset), count, notCopied)
      ensures offset == if r == WORD then old(offset) + WORD else old(offset)
      ensures r == WORD ==> word == regs[old(offset) / WORD]
    {
      var pos := offset;
      if pos < 0 {
        return -EINVAL, 0;
      }
      if pos >= SPAN {
        return 0, 0;
      }
      if pos % WORD != 0 {
        return -EFAULT, 0;
      }
      if count == 0 {
        return 0, 0;
      }
      var val := regs[pos / WORD];
      if notCopied == WORD {
        return -EFAULT, 0;
      }
      offset := pos + WORD;
      return WORD, val;
    }

    /**
     * `hps_led_patterns_write` for a request of `count` bytes, where `copy_from_user` leaves
     * `notCopied` bytes uncopied and `val` is the word it leaves in the kernel's variable. The
     * lock is taken before the copy and released on every path after it.
     */
    method Write(count: nat, notCopied: nat, val: u32) returns (r: int)
      requires Valid() && !locked && notCopied <= WORD
      modifies this, regs
      ensures Valid() && regs == old(regs) && !locked
      ensures r == Outcome(old(offset), count, notCopied)
      ensures offset == if r == WORD then old(offset) + WORD else old(offset)
      ensures regs[..] == if r == WORD then old(regs[..])[old(offset) / WORD := val] else old(regs[..])
    {
      var pos := offset;
      if pos < 0 {
        return -EINVAL;
      }
      if pos >= SPAN {
        return 0;
      }
      if pos % WORD != 0 {
        return -EFAULT;
      }
      if count == 0 {
        return 0;
      }
      Lock();
      var failed := CopyFromUser(notCopied);
      if failed {
        r := -EFAULT;
      } else {
        Store(pos / WORD, val);
        offset := pos + WORD;
        r := WORD;
      }
      Unlock();
    }

    /** `fseek(file, pos, SEEK_SET)`, as the test program uses it, through `default_llseek`. */
    method Seek(pos: nat)
      modifies this
      ensures offset == pos && regs == old(regs) && locked == old(locked)
    {
      offset := pos;
    }

    /**
     * `base_rate_store` for the `size` bytes `buf`: parse them as UQ4.4 and write the byte to the
     * base-rate register, without the lock; all `size` bytes count as used.
     */
    method StoreBaseRate(buf: seq<byte>) returns (r: nat)
      requires Valid()
      modifies regs
      ensures r == |buf|
      ensures regs[..] == old(regs[..])[REG2_BASE_RATE_OFFSET / WORD := Encode(buf)]
    {
      var b := Str2UQ44(buf);
      regs[REG2_BASE_RATE_OFFSET / WORD] := b;
      r := |buf|;
    }

    /** `hps_led_control_show`. */
    method ShowControl() returns (v: nat)
      requires Valid()
      ensures v == ControlShown(regs[REG0_HPS_LED_CONTROL_OFFSET / WORD])
    {
      v := ControlShown(regs[REG0_HPS_LED_CONTROL_OFFSET / WORD]);
    }

    /** `led_reg_show`. */
    method ShowLedReg() returns (v: byte)
      requires Valid()
      ensures v == LedRegShown(regs[REG1_LED_REG_OFFSET / WORD])
    {
      v := LedRegShown(regs[REG1_LED_REG_OFFSET / WORD]);
    }

    /** `base_rate_show`. */
    method ShowBaseRate() returns (s: RateShown)
      requires Valid()
      ensures s == BaseRateShown(regs[REG2_BASE_RATE_OFFSET / WORD])
    {
      s := BaseRateShown(regs[REG2_BASE_RATE_OFFSET / WORD]);
    }
  }

  // ---------------------------------------------------------------------------------------------
  // What the test program relies on
  // ---------------------------------------------------------------------------------------------

  /**
   * Four reads of four bytes from offset 0 return the four words in order and leave the offset at
   * the end of the span, where a fifth read returns 0.
   */
  method ReadSweep(d: CharDevice) returns (words: seq<u32>, last: int)
    requires d.Valid() && d.offset == 0
    modifies d
    ensures d.Valid() && d.regs == old(d.regs) && d.locked == old(d.locked)
    ensures words == d.regs[..] && d.offset == SPAN && last == 0
  {
    words := [];
    for k := 0 to SPAN / WORD
      invariant d.Valid() && d.regs == old(d.regs) && d.locked == old(d.locked)
      invariant d.offset == k * WORD && words == d.regs[..k]
    {
      var r, w := d.Read(WORD, 0);
      words := words + [w];
    }
    var w;
    last, w := d.Read(WORD, 0);
  }

  /**
   * The rate `base_rate_show` prints, up to the tab, stored back through `base_rate_store`: the
   * base-rate register ends up holding its own low byte, and no other register changes.
   */
  method BaseRateRewrite(d: CharDevice) returns (s: RateShown)
    requires d.Valid()
    modifies d.regs
    ensures s == BaseRateShown(old(d.regs[REG2_BASE_RATE_OFFSET / WORD]))
    ensures d.regs[..] == old(d.regs[..])[REG2_BASE_RATE_OFFSET / WORD := ToU8(old(d.regs[REG2_BASE_RATE_OFFSET / WORD]))]
  {
    s := d.ShowBaseRate();
    BaseRateReadsBack(d.regs[REG2_BASE_RATE_OFFSET / WORD]);
    var used := d.StoreBaseRate(s.text);
  }

  /** A word written at an aligned in-range offset reads back from there, and no other word changes. */
  method WriteReadBack(d: CharDevice, pos: nat, val: u32) returns (word: u32)
    requires d.Valid() && !d.locked && pos < SPAN && pos % WORD == 0
    modifies d, d.regs
    ensures d.Valid() && d.regs == old(d.regs) && !d.locked
    ensures word == val && d.regs[..] == old(d.regs[..])[pos / WORD := val]
    ensures d.offset == pos + WORD
  {
    d.Seek(pos);
    var w := d.Write(WORD, 0, val);
    d.Seek(pos);
    var r;
    r, word := d.Read(WORD, 0);
  }
}
