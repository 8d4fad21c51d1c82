/**
 * The `main` of myLEDpatterns: load the pattern file if one was named, refuse to run without
 * steps or without the memory mapping, then turn the hardware override on, show the steps one
 * after another, each for its delay, until interrupted or, without looping, after one pass, and
 * turn the override off again.
 *
 * What the program does to the outside world is recorded as a trace of events: every
 * `write_mem` call and every `nanosleep` request. The outcome of `fopen`, `open` and `mmap` and
 * the moment SIGINT arrives are parameters.
 */
module Playback {

  import opened CTypes
  import opened PatternStore
  import opened Arith

  const BRIDGE_BASE_ADDR: int := 0xFF20_0000
  /** The length of the mapped interface, in bytes. */
  const IFACE_LEN: nat := 16
  const OVERRIDE_REG: int := 0x0
  const PATTERN_REG: int := 0x4

  const OVERRIDE_ADDR: int := BRIDGE_BASE_ADDR + OVERRIDE_REG
  const PATTERN_ADDR: int := BRIDGE_BASE_ADDR + PATTERN_REG

  const MS_PER_SEC: nat := 1000
  const NS_PER_MS: nat := 1_000_000
  const NS_PER_SEC: nat := 1_000_000_000

  /** `struct timespec`. */
  datatype Timespec = Timespec(sec: int, nsec: int)

  /** A delay in milliseconds as the `timespec` handed to `nanosleep`. */
  function DelayToTimespec(ms: u32): (t: Timespec)
    ensures 0 <= t.nsec < NS_PER_SEC && t.nsec % NS_PER_MS == 0 && t.sec >= 0
    ensures t.sec * MS_PER_SEC + t.nsec / NS_PER_MS == ms
  {
    Timespec(ms / MS_PER_SEC, (ms % MS_PER_SEC) * NS_PER_MS)
  }

  /** What the program does to the outside world. */
  datatype Event = MemWrite(addr: int, data: u32) | Sleep(duration: Timespec)

  /** The two events of showing one step: write its pattern, then sleep for its delay. */
  function Show(s: Step): (e: seq<Event>)
    ensures |e| == 2
  {
    [MemWrite(PATTERN_ADDR, s.pattern), Sleep(DelayToTimespec(s.delay))]
  }

  /** The events of the first `count` passes through the display loop over `stored`, cycling. */
  function Plays(stored: seq<Step>, count: nat): (t: seq<Event>)
    requires |stored| > 0
    ensures |t| == 2 * count
  {
    if count == 0 then [] else Plays(stored, count - 1) + Show(stored[(count - 1) % |stored|])
  }

  /**
   * How many steps are shown when the interrupt is first seen at the check after `interruptAt`
   * steps: a one-pass playback also ends after the last of `n` steps.
   */
  function Rounds(n: nat, loop: bool, interruptAt: nat): (r: nat)
    ensures r <= interruptAt && (!loop ==> r <= n)
    ensures r == interruptAt || (!loop && r == n)
  {
    if loop || interruptAt <= n then interruptAt else n
  }

  /** The whole trace of a playback that started: the override is set on, the steps, off. */
  function PlaybackTrace(stored: seq<Step>, loop: bool, interruptAt: nat): (t: seq<Event>)
    requires |stored| > 0
    ensures |t| == 2 * Rounds(|stored|, loop, interruptAt) + 2
  {
    [MemWrite(OVERRIDE_ADDR, 1)] + Plays(stored, Rounds(|stored|, loop, interruptAt)) + [MemWrite(OVERRIDE_ADDR, 0)]
  }

  // ---------------------------------------------------------------------------------------------
  // What a playback shows
  // ---------------------------------------------------------------------------------------------

  /** The values written to the pattern register, in the order they are written. */
  function PatternsWritten(t: seq<Event>): (w: seq<u32>)
    ensures |w| <= |t|
  {
    if |t| == 0 then []
    else PatternsWritten(t[..|t| - 1]) + (if t[|t| - 1].MemWrite? && t[|t| - 1].addr == PATTERN_ADDR then [t[|t| - 1].data] else [])
  }

  /** An event that does not touch the override register. */
  predicate LeavesOverride(e: Event)
  {
    !(e.MemWrite? && e.addr == OVERRIDE_ADDR)
  }

  lemma {:induction false} PatternsWrittenConcat(a: seq<Event>, b: seq<Event>)
    ensures PatternsWritten(a + b) == PatternsWritten(a) + PatternsWritten(b)
    decreases |b|
  {
    if |b| == 0 {
      assert a + b == a;
    } else {
      var b' := b[..|b| - 1];
      assert (a + b)[..|a + b| - 1] == a + b';
      PatternsWrittenConcat(a, b');
    }
  }

  /** The `k`-th pass writes step `k mod n` and then sleeps for that step's delay. */
  lemma {:induction false} PlaysAt(stored: seq<Step>, count: nat, k: nat)
    requires |stored| > 0 && k < count
    ensures Plays(stored, count)[2 * k] == MemWrite(PATTERN_ADDR, stored[k % |stored|].pattern)
    ensures Plays(stored, count)[2 * k + 1] == Sleep(DelayToTimespec(stored[k % |stored|].delay))
  {
    if k < count - 1 {
      PlaysAt(stored, count - 1, k);
    }
  }

  /** The passes never touch the override register; in each, the pattern comes before the sleep. */
  lemma {:induction false} PlaysLeaveOverride(stored: seq<Step>, count: nat)
    requires |stored| > 0
    ensures forall j :: 0 <= j < |Plays(stored, count)| ==> LeavesOverride(Plays(stored, count)[j])
  {
    if count > 0 {
      PlaysLeaveOverride(stored, count - 1);
    }
  }

  /** Pass `k` writes the pattern of step `k mod n` to the pattern register, and nothing else does. */
  lemma {:induction false} PlaysWrite(stored: seq<Step>, count: nat)
    requires |stored| > 0
    ensures |PatternsWritten(Plays(stored, count))| == count
    ensures forall k :: 0 <= k < count ==> PatternsWritten(Plays(stored, count))[k] == stored[k % |stored|].pattern
  {
    if count > 0 {
      var s := stored[(count - 1) % |stored|];
      PlaysWrite(stored, count - 1);
      PatternsWrittenConcat(Plays(stored, count - 1), Show(s));
      assert Show(s)[..1] == [MemWrite(PATTERN_ADDR, s.pattern)];
      assert PatternsWritten(Show(s)) == [s.pattern];
    }
  }

  /**
   * A playback sets the override first and clears it last, and touches it nowhere in between:
   * the hardware is under software control exactly while the steps are shown.
   */
  lemma OverrideBrackets(stored: seq<Step>, loop: bool, interruptAt: nat)
    requires |stored| > 0
    ensures var t := PlaybackTrace(stored, loop, interruptAt);
            t[0] == MemWrite(OVERRIDE_ADDR, 1) && t[|t| - 1] == MemWrite(OVERRIDE_ADDR, 0)
            && forall j :: 0 < j < |t| - 1 ==> LeavesOverride(t[j])
  {
    var r := Rounds(|stored|, loop, interruptAt);
    PlaysLeaveOverride(stored, r);
    var t := PlaybackTrace(stored, loop, interruptAt);
    forall j | 0 < j < |t| - 1
      ensures LeavesOverride(t[j])
    {
      assert t[j] == Plays(stored, r)[j - 1];
    }
  }

  /** The values a playback writes to the pattern register: the steps in order, cycling. */
  lemma PlaybackWrites(stored: seq<Step>, loop: bool, interruptAt: nat)
    requires |stored| > 0
    ensures var w := PatternsWritten(PlaybackTrace(stored, loop, interruptAt));
            |w| == Rounds(|stored|, loop, interruptAt)
            && forall k :: 0 <= k < |w| ==> w[k] == stored[k % |stored|].pattern
  {
    var r := Rounds(|stored|, loop, interruptAt);
    PlaysWrite(stored, r);
    PatternsWrittenConcat([MemWrite(OVERRIDE_ADDR, 1)], Plays(stored, r));
    PatternsWrittenConcat([MemWrite(OVERRIDE_ADDR, 1)] + Plays(stored, r), [MemWrite(OVERRIDE_ADDR, 0)]);
  }

  /**
   * Without looping, and with no interrupt before the pass ends, every step is shown exactly once,
   * in order.
   */
  lemma OnePassShowsEachStep(stored: seq<Step>, interruptAt: nat)
    requires |stored| > 0 && interruptAt >= |stored|
    ensures PatternsWritten(PlaybackTrace(stored, false, interruptAt))
         == seq(|stored|, k requires 0 <= k < |stored| => stored[k].pattern)
  {
    PlaybackWrites(stored, false, interruptAt);
    var w := PatternsWritten(PlaybackTrace(stored, false, interruptAt));
    forall k | 0 <= k < |w|
      ensures w[k] == stored[k].pattern
    {
      DivUnique(k, |stored|, 0, k);
    }
  }

  /** Looping, the steps are shown round after round until the interrupt is seen. */
  lemma LoopShowsUntilInterrupt(stored: seq<Step>, interruptAt: nat, k: nat)
    requires |stored| > 0 && k < interruptAt
    ensures |PatternsWritten(PlaybackTrace(stored, true, interruptAt))| == interruptAt
    ensures PatternsWritten(PlaybackTrace(stored, true, interruptAt))[k] == stored[k % |stored|].pattern
  {
    PlaybackWrites(stored, true, interruptAt);
  }

  /**
   * The display loop of `main` over the steps in `args`, until the `interruptAt`-th check of the
   * interrupt flag or, when not looping, the end of the first pass.
   */
  method DisplayLoop(args: Arguments, interruptAt: nat) returns (shown: seq<Event>)
    requires args.Valid() && args.numSteps > 0
    ensures shown == Plays(args.stored, Rounds(args.numSteps, args.loop, interruptAt))
  {
    var n := args.numSteps;
    var step := 0;
    shown := [];
    var iter := 0;
    while iter < interruptAt
      invariant step < n && step == iter % n && (!args.loop ==> step == iter) && iter <= interruptAt
      invariant shown == Plays(args.stored, iter)
      decreases interruptAt - iter
    {
      var ts := DelayToTimespec(args.delays[step]);
      shown := shown + [MemWrite(PATTERN_ADDR, args.steps[step]), Sleep(ts)];
      assert Show(args.stored[iter % n]) == [MemWrite(PATTERN_ADDR, args.steps[step]), Sleep(ts)];
      ModSucc(iter, n);
      iter := iter + 1;
      if step >= n - 1 {
        if args.loop {
          step := 0;
        } else {
          break;
        }
      } else {
        step := step + 1;
      }
    }
    assert iter == Rounds(n, args.loop, interruptAt);
  }

  /**
   * `main`, after `argp_parse` has filled `args`: `fileOpened` and `lines` are what opening and
   * reading the pattern file give, `memOpened` and `mapped` whether `/dev/mem` could be opened and
   * mapped, and `interruptAt` the number of loop checks that run before SIGINT is seen.
   */
  method Run(args: Arguments, fileOpened: bool, lines: seq<LineValues>, memOpened: bool, mapped: bool, interruptAt: nat)
    returns (status: int, trace: seq<Event>)
    requires args.Valid()
    modifies args, args.steps, args.delays
    ensures args.Valid() && args.steps == old(args.steps) && args.delays == old(args.delays)
    ensures args.stored == if old(args.file) != None && fileOpened
                           then old(args.stored) + FileSteps(lines, 0, MAX_STEPS - old(args.numSteps))
                           else old(args.stored)
    ensures status == if args.stored == [] || !memOpened || !mapped then 1 else 0
    ensures trace == if status == 0 then PlaybackTrace(args.stored, args.loop, interruptAt) else []
    ensures args.loop == old(args.loop) && args.loopOverride == old(args.loopOverride)
    ensures args.file == old(args.file) && args.verbose == old(args.verbose)
  {
    if args.file != None {
      var ignored := args.LoadPatternFile(fileOpened, lines);
    }
    if args.numSteps == 0 {
      return 1, [];
    }
    if !memOpened {
      return 1, [];
    }
    if !mapped {
      return 1, [];
    }
    var shown := DisplayLoop(args, interruptAt);
    trace := [MemWrite(OVERRIDE_ADDR, 1)] + shown + [MemWrite(OVERRIDE_ADDR, 0)];
    status := 0;
  }
}
