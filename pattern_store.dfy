/**
 * The pattern store of myLEDpatterns: at most MAX_STEPS (pattern, delay) steps, filled either from
 * argument pairs by the option parser's `-p` case or from the lines of a pattern file, together
 * with the loop flag, its override and the conflict rules between the two sources.
 *
 * `strtol` and `sscanf` are not modelled: arguments arrive as the integers `strtol` made of them,
 * and each line read as the two values `sscanf` left in `step` and `delay`.
 */
module PatternStore {

  import opened CTypes

  const MAX_STEPS: nat := 32

  /** glibc's `ARGP_ERR_UNKNOWN`, which is `E2BIG`. */
  const ARGP_ERR_UNKNOWN: int := 7

  const KEY_HELP: int := 0x68     // 'h'
  const KEY_VERSION: int := 0x56  // 'V'
  const KEY_USAGE: int := 0x75    // 'u'
  const KEY_VERBOSE: int := 0x76  // 'v'
  const KEY_LOOP: int := 0x6C     // 'l'
  const KEY_NO_LOOP: int := 0x6E  // 'n'
  const KEY_PATTERN: int := 0x70  // 'p'
  const KEY_FILE: int := 0x66     // 'f'

  /** The value of the label `case 'l'|'n'`: one case, labelled with the bitwise or of the two keys. */
  const LOOP_CASE: int := 0x6E

  /** 'l' | 'n' is 0x6C | 0x6E, which is 0x6E: the label is the key 'n' alone. */
  lemma LoopCaseIsNoLoop()
    ensures (KEY_LOOP as bv8) | (KEY_NO_LOOP as bv8) == LOOP_CASE as bv8
    ensures LOOP_CASE == KEY_NO_LOOP && LOOP_CASE != KEY_LOOP
  {
  }

  /** The branches of the parser's `switch`. */
  datatype Case = Informational | Verbose | LoopOverride | Pattern | File | Unknown

  /** Which branch of the `switch` a key reaches, with its labels as written. */
  function Dispatch(key: int): (c: Case)
    ensures c == LoopOverride <==> key == KEY_NO_LOOP
    ensures c == Unknown <==> key !in {KEY_HELP, KEY_VERSION, KEY_USAGE, KEY_VERBOSE, KEY_NO_LOOP, KEY_PATTERN, KEY_FILE}
  {
    if key == KEY_HELP || key == KEY_VERSION || key == KEY_USAGE then Informational
    else if key == KEY_VERBOSE then Verbose
    else if key == LOOP_CASE then LoopOverride
    else if key == KEY_PATTERN then Pattern
    else if key == KEY_FILE then File
    else Unknown
  }

  /** One stored step: the pattern byte and its delay in milliseconds. */
  datatype Step = Step(pattern: byte, delay: u32)

  // ---------------------------------------------------------------------------------------------
  // What the two sources contribute
  // ---------------------------------------------------------------------------------------------

  /**
   * The steps the `-p` loop takes from index `i` of `argv` with room for `room` more: one per
   * complete (pattern, delay) pair, converted as `(uint8_t)` and `(unsigned int)` convert, in
   * argument order, never pairing the last argument with nothing.
   */
  function PairsFrom(argv: seq<int>, i: nat, room: nat): (r: seq<Step>)
    ensures |r| <= room
    ensures |r| > 0 ==> i + 2 * |r| <= |argv|
    ensures |r| == room || i + 2 * |r| + 1 >= |argv|
    ensures forall k :: 0 <= k < |r| ==> r[k] == Step(ToU8(argv[i + 2 * k]), ToU32(argv[i + 2 * k + 1]))
    decreases |argv| - i
  {
    if i + 1 >= |argv| || room == 0 then []
    else [Step(ToU8(argv[i]), ToU32(argv[i + 1]))] + PairsFrom(argv, i + 2, room - 1)
  }

  /** The two values `sscanf(line, "%X %d", &step, &delay)` leaves for one line read. */
  datatype LineValues = LineValues(step: u32, delay: u32)

  /**
   * The steps the file loop takes from line `i` on with room for `room` more: one per line, in
   * file order, until the room or the lines run out.
   */
  function FileSteps(lines: seq<LineValues>, i: nat, room: nat): (r: seq<Step>)
    requires i <= |lines|
    ensures |r| == if |lines| - i < room then |lines| - i else room
    ensures forall k :: 0 <= k < |r| ==> r[k] == Step(ToU8(lines[i + k].step), lines[i + k].delay)
    decreases |lines| - i
  {
    if i == |lines| || room == 0 then []
    else [Step(ToU8(lines[i].step), lines[i].delay)] + FileSteps(lines, i + 1, room - 1)
  }

  /** Moving one step from the front of what is still to come to the end of what is stored. */
  lemma Shift(before: seq<Step>, s: Step, rest: seq<Step>, expected: seq<Step>)
    requires before + ([s] + rest) == expected
    ensures (before + [s]) + rest == expected
  {
    assert (before + [s]) + rest == before + ([s] + rest);
  }

  // ---------------------------------------------------------------------------------------------
  // The loop flag
  // ---------------------------------------------------------------------------------------------

  /** `pattern.loop` and `loop_override`. */
  datatype LoopFlags = LoopFlags(loop: bool, overridden: bool)

  /**
   * The flags after a call the parser did not refuse: the loop options set the flag and the
   * override; `-p` defaults to looping and `-f` to one pass, unless overridden.
   */
  function FlagsAfter(f: LoopFlags, c: Case, key: int): (g: LoopFlags)
    ensures c == LoopOverride ==> g.overridden
    ensures f.overridden ==> g.overridden && (c != LoopOverride ==> g.loop == f.loop)
    ensures !f.overridden && c == Pattern ==> g.loop
    ensures !f.overridden && c == File ==> !g.loop
  {
    match c
    case LoopOverride => LoopFlags(key == KEY_LOOP, true)
    case Pattern => if f.overridden then f else LoopFlags(true, false)
    case File => if f.overridden then f else LoopFlags(false, false)
    case _ => f
  }

  /** The status `parse_opt` returns for a branch, given whether a file or any steps are set. */
  function Status(c: Case, fileSet: bool, hasSteps: bool): (s: int)
    ensures s == 1 <==> (c == Pattern && fileSet) || (c == File && hasSteps)
    ensures s == ARGP_ERR_UNKNOWN <==> c == Unknown
    ensures s == 0 <==> !((c == Pattern && fileSet) || (c == File && hasSteps)) && c != Unknown
  {
    match c
    case Pattern => if fileSet then 1 else 0
    case File => if hasSteps then 1 else 0
    case Unknown => ARGP_ERR_UNKNOWN
    case _ => 0
  }

  /**
   * As written, `-n` wins over the defaults of `-p` and `-f` in either option order: once it is
   * seen the flag is off and stays off.
   */
  lemma NoLoopWins(f: LoopFlags, c: Case, key: int)
    requires c == Pattern || c == File
    ensures !FlagsAfter(FlagsAfter(f, Dispatch(KEY_NO_LOOP), KEY_NO_LOOP), c, key).loop
    ensures !FlagsAfter(FlagsAfter(f, c, key), Dispatch(KEY_NO_LOOP), KEY_NO_LOOP).loop
  {
  }

  /** As written, the key 'l' reaches no case: `-l` is refused with `ARGP_ERR_UNKNOWN`. */
  lemma LoopOptionRefused(fileSet: bool, hasSteps: bool)
    ensures Dispatch(KEY_LOOP) == Unknown
    ensures Status(Dispatch(KEY_LOOP), fileSet, hasSteps) == ARGP_ERR_UNKNOWN
  {
  }

  /** The dispatch the option table describes: `case 'l': case 'n':` share the loop branch. */
  function IntendedDispatch(key: int): (c: Case)
    ensures c == LoopOverride <==> key == KEY_LOOP || key == KEY_NO_LOOP
    ensures key != KEY_LOOP ==> c == Dispatch(key)
  {
    if key == KEY_LOOP || key == KEY_NO_LOOP then LoopOverride else Dispatch(key)
  }

  /**
   * With the intended dispatch, `-l` turns looping on and `-n` turns it off, each overriding the
   * default of `-p` and `-f` whichever order they come in.
   */
  lemma IntendedLoopOptions(f: LoopFlags, c: Case, key: int)
    requires c == Pattern || c == File
    ensures FlagsAfter(f, IntendedDispatch(KEY_LOOP), KEY_LOOP) == LoopFlags(true, true)
    ensures FlagsAfter(f, IntendedDispatch(KEY_NO_LOOP), KEY_NO_LOOP) == LoopFlags(false, true)
    ensures FlagsAfter(FlagsAfter(f, IntendedDispatch(KEY_LOOP), KEY_LOOP), c, key).loop
    ensures FlagsAfter(FlagsAfter(f, c, key), IntendedDispatch(KEY_LOOP), KEY_LOOP).loop
    ensures !FlagsAfter(FlagsAfter(f, IntendedDispatch(KEY_NO_LOOP), KEY_NO_LOOP), c, key).loop
    ensures !FlagsAfter(FlagsAfter(f, c, key), IntendedDispatch(KEY_NO_LOOP), KEY_NO_LOOP).loop
  {
  }

  // ---------------------------------------------------------------------------------------------
  // The arguments structure
  // ---------------------------------------------------------------------------------------------

  /** `struct arguments`, with the fields of its `pattern` member flattened into it. */
  class Arguments {
    var numSteps: nat
    var steps: array<byte>
    var delays: array<u32>
    var loop: bool
    /** `file`: the name given with `-f`, or NULL. */
    var file: Option<seq<char>>
    var verbose: bool
    var loopOverride: bool
    /** The first `numSteps` entries of `steps` and `delays`, as steps in order. */
    ghost var stored: seq<Step>

    ghost predicate Valid()
      reads this, steps, delays
    {
      steps.Length == MAX_STEPS && delays.Length == MAX_STEPS && numSteps <= MAX_STEPS
      && |stored| == numSteps
      && forall k :: 0 <= k < numSteps ==> stored[k] == Step(steps[k], delays[k])
    }

    /** `{ {0}, NULL, false }`: no steps, no file, every flag clear. */
    constructor ()
      ensures Valid() && stored == [] && fresh(steps) && fresh(delays)
      ensures !loop && file == None && !verbose && !loopOverride
    {
      numSteps := 0;
      steps := new byte[MAX_STEPS](_ => 0);
      delays := new u32[MAX_STEPS](_ => 0);
      loop := false;
      file := None;
      verbose := false;
      loopOverride := false;
      stored := [];
    }

    /** Store one more step at index `numSteps`. */
    method Append(s: Step)
      requires Valid() && numSteps < MAX_STEPS
      modifies this, steps, delays
      ensures Valid() && steps == old(steps) && delays == old(delays)
      ensures stored == old(stored) + [s]
      ensures loop == old(loop) && file == old(file) && verbose == old(verbose) && loopOverride == old(loopOverride)
    {
      steps[numSteps] := s.pattern;
      delays[numSteps] := s.delay;
      numSteps := numSteps + 1;
      stored := stored + [s];
    }

    /**
     * The loop of the `-p` case: from argument index `start`, store one step per complete pair of
     * arguments until the store is full; returns the index after the last pair taken.
     */
    method TakePairs(argv: seq<int>, start: nat) returns (argIndex: nat)
      requires Valid()
      modifies this, steps, delays
      ensures Valid() && steps == old(steps) && delays == old(delays)
      ensures stored == old(stored) + PairsFrom(argv, start, MAX_STEPS - old(numSteps))
      ensures argIndex == start + 2 * |PairsFrom(argv, start, MAX_STEPS - old(numSteps))|
      ensures loop == old(loop) && file == old(file) && verbose == old(verbose) && loopOverride == old(loopOverride)
    {
      ghost var room := MAX_STEPS - numSteps;
      argIndex := start;
      while argIndex + 1 < |argv|
        invariant Valid() && steps == old(steps) && delays == old(delays) && start <= argIndex
        invariant stored + PairsFrom(argv, argIndex, MAX_STEPS - numSteps) == old(stored) + PairsFrom(argv, start, room)
        invariant argIndex + 2 * |PairsFrom(argv, argIndex, MAX_STEPS - numSteps)| == start + 2 * |PairsFrom(argv, start, room)|
        invariant loop == old(loop) && file == old(file) && verbose == old(verbose) && loopOverride == old(loopOverride)
        decreases |argv| - argIndex
      {
        if numSteps >= MAX_STEPS {
          break;
        }
        ghost var before := stored;
        ghost var rest := PairsFrom(argv, argIndex + 2, MAX_STEPS - numSteps - 1);
        var s := Step(ToU8(argv[argIndex]), ToU32(argv[argIndex + 1]));
        assert PairsFrom(argv, argIndex, MAX_STEPS - numSteps) == [s] + rest;
        Append(s);
        Shift(before, s, rest, old(stored) + PairsFrom(argv, start, room));
        argIndex := argIndex + 2;
      }
      assert PairsFrom(argv, argIndex, MAX_STEPS - numSteps) == [];
      assert stored + [] == stored;
    }

    /**
     * `parse_opt(key, arg, state)` for every key but the three informational ones, with `argv`
     * the arguments as `strtol` reads them and `next` the parser's `state->next`. Returns the
     * status and the new `state->next`.
     */
    method ParseOpt(key: int, arg: Option<seq<char>>, argv: seq<int>, next: nat) returns (status: int, newNext: nat)
      requires Valid() && Dispatch(key) != Informational && 1 <= next <= |argv|
      modifies this, steps, delays
      ensures Valid() && steps == old(steps) && delays == old(delays)
      ensures status == Status(Dispatch(key), old(file) != None, old(numSteps) > 0)
      ensures Dispatch(key) == Pattern && status == 0 ==>
                var taken := PairsFrom(argv, next - 1, MAX_STEPS - old(numSteps));
                stored == old(stored) + taken && newNext == next - 1 + 2 * |taken|
      ensures Dispatch(key) != Pattern || status != 0 ==> stored == old(stored) && newNext == next
      ensures LoopFlags(loop, loopOverride)
           == if status == 0 then FlagsAfter(old(LoopFlags(loop, loopOverride)), Dispatch(key), key) else old(LoopFlags(loop, loopOverride))
      ensures verbose == (old(verbose) || Dispatch(key) == Verbose)
      ensures file == if Dispatch(key) == File && status == 0 then arg else old(file)
      ensures old(file != None ==> numSteps == 0) ==> (file != None ==> numSteps == 0)
    {
      newNext := next;
      var c := Dispatch(key);
      if c == Verbose {
        verbose := true;
        status := 0;
      } else if c == LoopOverride {
        loopOverride := true;
        loop := key == KEY_LOOP;
        status := 0;
      } else if c == Pattern {
        if file != None {
          return 1, next;
        }
        if !loopOverride {
          loop := true;
        }
        newNext := TakePairs(argv, next - 1);
        status := 0;
      } else if c == File {
        if numSteps != 0 {
          return 1, next;
        }
        if !loopOverride {
          loop := false;
        }
        file := arg;
        status := 0;
      } else {
        status := ARGP_ERR_UNKNOWN;
      }
    }

    /**
     * `load_pattern_file`: `fileOpened` says whether `fopen` succeeded, and `lines` holds what each
     * `fgets` read gave `sscanf`. One step per line until the store is full or the file ends; a
     * failed open adds nothing and returns 1.
     */
    method LoadPatternFile(fileOpened: bool, lines: seq<LineValues>) returns (status: int)
      requires Valid()
      modifies this, steps, delays
      ensures Valid() && steps == old(steps) && delays == old(delays)
      ensures status == if fileOpened then 0 else 1
      ensures stored == if fileOpened then old(stored) + FileSteps(lines, 0, MAX_STEPS - old(numSteps)) else old(stored)
      ensures loop == old(loop) && file == old(file) && verbose == old(verbose) && loopOverride == old(loopOverride)
    {
      if !fileOpened {
        return 1;
      }
      ghost var room := MAX_STEPS - numSteps;
      var i := 0;
      while numSteps < MAX_STEPS && i < |lines|
        invariant Valid() && steps == old(steps) && delays == old(delays) && i <= |lines|
        invariant stored + FileSteps(lines, i, MAX_STEPS - numSteps) == old(stored) + FileSteps(lines, 0, room)
        invariant loop == old(loop) && file == old(file) && verbose == old(verbose) && loopOverride == old(loopOverride)
        decreases |lines| - i
      {
        ghost var before := stored;
        ghost var rest := FileSteps(lines, i + 1, MAX_STEPS - numSteps - 1);
        var s := Step(ToU8(lines[i].step), lines[i].delay);
        assert FileSteps(lines, i, MAX_STEPS - numSteps) == [s] + rest;
        Append(s);
        Shift(before, s, rest, old(stored) + FileSteps(lines, 0, room));
        i := i + 1;
      }
      assert FileSteps(lines, i, MAX_STEPS - numSteps) == [];
      assert stored + [] == stored;
      return 0;
    }
  }
}
