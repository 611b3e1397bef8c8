/** The automatic gain control of firmware/agc.c (and the earlier agc.c,
    which has the same cursor, reset and set-level but no controller). The
    gain is the resistance of an AD5220 digital potentiometer, moved by
    relative up/down steps that a PIO program clocks out. The PIO program is
    not part of this model: each step command is appended to a ghost log, and
    a ghost wiper position records what the command does to the part, which
    stops at either end of its 128 positions. */
module Agc {
  import opened Optional
  import opened Samples
  import opened AgcModel
  import opened Rounding

  /** The peak level the controller aims for. */
  const AGC_TARGET: nat := 2800
  /** Above this the phototransistor is resistor-limited, not linear. */
  const AGC_CEILING: nat := 3600
  /** Below this the ADC's offsets dominate. */
  const AGC_FLOOR: nat := 500
  /** The highest wiper level (highest resistance). */
  const MAX_LEVEL: nat := 127

  /** The clamp to the AD5220's range; also what the part does when asked
      to move past an end. */
  function Clamp(l: int): (c: nat)
    ensures c <= MAX_LEVEL
    ensures 0 <= l <= MAX_LEVEL ==> c == l
    ensures l < 0 ==> c == 0
    ensures l > MAX_LEVEL ==> c == MAX_LEVEL
  {
    if l < 0 then 0 else if l > MAX_LEVEL then MAX_LEVEL else l
  }

  /** Sum of a log of relative steps. */
  function Sum(steps: seq<int>): int
  {
    if steps == [] then 0 else Sum(steps[..|steps| - 1]) + steps[|steps| - 1]
  }

  /* ---------------------------------------------------------------------
     measure_peak
     --------------------------------------------------------------------- */

  /** The largest reading without the error flag, or 0 when there is none.
      Being either 0 or an unflagged reading, it never carries the flag. */
  function CleanMax(s: seq<uint16>): (m: uint16)
    ensures !Flagged(m)
    ensures forall i :: 0 <= i < |s| && !Flagged(s[i]) ==> s[i] <= m
    ensures m == 0 || exists i :: 0 <= i < |s| && s[i] == m
  {
    if s == [] then FlaggedIffHigh(0); 0
    else
      var m := CleanMax(s[..|s| - 1]);
      var x := s[|s| - 1];
      if !Flagged(x) && x > m then x else m
  }

  /** measure_peak: takes an AGC burst into the buffer, then scans it for the
      largest unflagged reading. */
  method MeasurePeak(buffer: array<uint16>, burst: seq<uint16>) returns (max: uint16)
    requires |burst| == AGC_SAMPLE_COUNT <= buffer.Length
    modifies buffer
    ensures buffer[..AGC_SAMPLE_COUNT] == burst
    ensures forall i :: AGC_SAMPLE_COUNT <= i < buffer.Length ==> buffer[i] == old(buffer[i])
    ensures max == CleanMax(burst)
  {
    Sample(AGC_SAMPLE_COUNT, burst, buffer);
    max := 0;
    var i := 0;
    while i < AGC_SAMPLE_COUNT
      invariant i <= AGC_SAMPLE_COUNT
      invariant max == CleanMax(buffer[..i])
    {
      assert buffer[..i + 1][..i] == buffer[..i];
      if !Flagged(buffer[i]) && buffer[i] > max {
        max := buffer[i];
      }
      i := i + 1;
    }
    assert buffer[..AGC_SAMPLE_COUNT] == burst;
  }

  /* ---------------------------------------------------------------------
     The control rule of agc_run
     --------------------------------------------------------------------- */

  /** The linear estimate: scale the current resistance by target/peak and
      round the matching level. */
  function LinearLevel(cursor: nat, peak: uint16): int
    requires peak > 0
  {
    Round(Level(Ohms(cursor as real) * AGC_TARGET as real / peak as real))
  }

  /** The level one round of agc_run moves to. A zero peak makes the linear
      estimate divide by zero and convert an infinity to int, which C leaves
      undefined: None. Above the ceiling the level drops to a tenth of the
      cursor instead; the result is always clamped to the part's range. */
  function NewLevel(cursor: nat, peak: uint16): (r: Option<nat>)
    ensures r.Some? ==> r.value <= MAX_LEVEL
    ensures r.None? <==> peak == 0
  {
    if peak == 0 then None
    else if peak as nat > AGC_CEILING then Some(Clamp(cursor / 10))
    else Some(Clamp(LinearLevel(cursor, peak)))
  }

  /** The estimate, override and clamp of one round of agc_run, as the
      firmware computes them: the level NewLevel predicts. The statements
      follow the C order (linear estimate, ceiling override, clamp below,
      clamp above); the promises about the level are proved on NewLevel. */
  method NextLevel(cursor: nat, peak: uint16) returns (newLevel: nat)
    requires peak > 0
    ensures NewLevel(cursor, peak) == Some(newLevel)
  {
    var level := LinearLevel(cursor, peak);
    if peak as nat > AGC_CEILING {
      level := cursor / 10;
    }
    if level < 0 {
      level := 0;
    }
    if level > MAX_LEVEL {
      level := MAX_LEVEL;
    }
    newLevel := level;
  }

  /** Above the ceiling the new level is cursor / 10 exactly (integer
      division), never the linear estimate. */
  lemma CeilingRule(cursor: nat, peak: uint16)
    requires cursor <= MAX_LEVEL && peak as nat > AGC_CEILING
    ensures NewLevel(cursor, peak) == Some(cursor / 10)
  {
  }

  /** A peak on target leaves the level where it is. */
  lemma OnTargetStays(cursor: nat)
    requires cursor <= MAX_LEVEL
    ensures NewLevel(cursor, AGC_TARGET as uint16) == Some(cursor)
  {
    var ohms := Ohms(cursor as real);
    assert ohms * AGC_TARGET as real / AGC_TARGET as real == ohms;
    LevelOfOhms(cursor as real);
    RoundOfInteger(cursor);
  }

  /** In the linear range a brighter peak never asks for more resistance. */
  lemma BrighterNotHigher(cursor: nat, p: uint16, q: uint16)
    requires 0 < p <= q && q as nat <= AGC_CEILING
    ensures NewLevel(cursor, q).value <= NewLevel(cursor, p).value
  {
    var ohms := Ohms(cursor as real);
    var t := AGC_TARGET as real;
    ScaleDown(ohms * t, p as real, q as real);
    if ohms * t / q as real < ohms * t / p as real {
      OhmsIncreasing(ohms * t / q as real, ohms * t / p as real);
    }
    RoundMonotone(Level(ohms * t / q as real), Level(ohms * t / p as real));
  }

  lemma ScaleDown(x: real, p: real, q: real)
    requires x > 0.0 && 0.0 < p <= q
    ensures x / q <= x / p
  {
    var a, b := x / q, x / p;
    assert a * q == x && b * p == x;
    assert a > 0.0;
    assert a * q >= a * p;
    assert b * p >= a * p;
  }

  /** The rule always moves towards the target: a dim peak never lowers the
      level, a bright one in the linear range never raises it. */
  lemma TowardsTarget(cursor: nat, peak: uint16)
    requires cursor <= MAX_LEVEL && 0 < peak as nat <= AGC_CEILING
    ensures peak as nat <= AGC_TARGET ==> NewLevel(cursor, peak).value >= cursor
    ensures peak as nat >= AGC_TARGET ==> NewLevel(cursor, peak).value <= cursor
  {
    OnTargetStays(cursor);
    if peak as nat <= AGC_TARGET {
      BrighterNotHigher(cursor, peak, AGC_TARGET as uint16);
    } else {
      BrighterNotHigher(cursor, AGC_TARGET as uint16, peak);
    }
  }

  /** The rounds of agc_run from a starting cursor, one peak per round: the
      final level, or None when some round hits the undefined zero peak. */
  function Settle(cursor: nat, peaks: seq<uint16>): (r: Option<nat>)
    requires cursor <= MAX_LEVEL
    ensures r.Some? ==> r.value <= MAX_LEVEL
    ensures r.None? <==> exists k :: 0 <= k < |peaks| && peaks[k] == 0
    decreases |peaks|
  {
    if peaks == [] then Some(cursor)
    else match NewLevel(cursor, peaks[0])
      case None => None
      case Some(level) =>
        var r := Settle(level, peaks[1..]);
        assert forall k :: 1 <= k < |peaks| ==> peaks[k] == peaks[1..][k - 1];
        r
  }

  /** One round of Settle: the level after round i starts the rest. */
  lemma SettleStep(cursor: nat, peaks: seq<uint16>, i: nat, level: nat)
    requires cursor <= MAX_LEVEL && i < |peaks| && NewLevel(cursor, peaks[i]) == Some(level)
    ensures Settle(cursor, peaks[i..]) == Settle(level, peaks[i + 1..])
  {
    assert peaks[i..][1..] == peaks[i + 1..];
  }

  /** On-target peaks in every round keep the level. */
  lemma {:induction false} SettleOnTarget(cursor: nat, peaks: seq<uint16>)
    requires cursor <= MAX_LEVEL
    requires forall k :: 0 <= k < |peaks| ==> peaks[k] == AGC_TARGET as uint16
    ensures Settle(cursor, peaks) == Some(cursor)
    decreases |peaks|
  {
    if peaks != [] {
      OnTargetStays(cursor);
      SettleOnTarget(cursor, peaks[1..]);
    }
  }

  /** The relative step commands agc_run sends from a starting cursor, one
      per round, each the new level minus the cursor before it; the
      commands stop at the first round whose peak is zero. */
  function Commands(cursor: nat, peaks: seq<uint16>): (c: seq<int>)
    requires cursor <= MAX_LEVEL
    ensures |c| <= |peaks|
    decreases |peaks|
  {
    if peaks == [] then []
    else match NewLevel(cursor, peaks[0])
      case None => []
      case Some(level) => [level - cursor] + Commands(level, peaks[1..])
  }

  /** Every round sends its command exactly when the run is defined;
      otherwise the commands stop just before the first zero peak. */
  lemma {:induction false} CommandsLength(cursor: nat, peaks: seq<uint16>)
    requires cursor <= MAX_LEVEL
    ensures |Commands(cursor, peaks)| == |peaks| <==> Settle(cursor, peaks).Some?
    ensures var n := |Commands(cursor, peaks)|;
      n < |peaks| ==> peaks[n] == 0 && forall k :: 0 <= k < n ==> peaks[k] != 0
    decreases |peaks|
  {
    if peaks != [] && NewLevel(cursor, peaks[0]).Some? {
      var level := NewLevel(cursor, peaks[0]).value;
      CommandsLength(level, peaks[1..]);
      var n := |Commands(level, peaks[1..])|;
      if n < |peaks| - 1 {
        assert peaks[1..][n] == peaks[n + 1];
        assert forall k :: 1 <= k < n + 1 ==> peaks[k] == peaks[1..][k - 1];
      }
    }
  }

  /** One round of Commands: round i sends the new level minus the cursor. */
  lemma CommandsStep(cursor: nat, peaks: seq<uint16>, i: nat, level: nat)
    requires cursor <= MAX_LEVEL && i < |peaks| && NewLevel(cursor, peaks[i]) == Some(level)
    ensures Commands(cursor, peaks[i..]) == [level - cursor] + Commands(level, peaks[i + 1..])
  {
    assert peaks[i..][1..] == peaks[i + 1..];
  }

  lemma {:induction false} SumPrepend(d: int, steps: seq<int>)
    ensures Sum([d] + steps) == d + Sum(steps)
    decreases |steps|
  {
    if steps == [] {
      assert [d] + steps == [d];
      assert [d][..0] == [];
    } else {
      var init := steps[..|steps| - 1];
      assert ([d] + steps)[..|steps|] == [d] + init;
      SumPrepend(d, init);
    }
  }

  /** The commands of a completed run add up to the net change of level. */
  lemma {:induction false} CommandsSum(cursor: nat, peaks: seq<uint16>)
    requires cursor <= MAX_LEVEL && Settle(cursor, peaks).Some?
    ensures Sum(Commands(cursor, peaks)) == Settle(cursor, peaks).value - cursor
    decreases |peaks|
  {
    if peaks != [] {
      var level := NewLevel(cursor, peaks[0]).value;
      CommandsSum(level, peaks[1..]);
      SumPrepend(level - cursor, Commands(level, peaks[1..]));
    }
  }

  /** The closing report of agc_run, decided by the last peak. */
  datatype Label = TooBright | TooDark | InRange

  function Classify(peak: uint16): Label
  {
    if peak as nat > AGC_CEILING then TooBright
    else if (peak as nat) < AGC_FLOOR then TooDark
    else InRange
  }

  datatype RunOutcome = UndefinedRound | Completed(level: nat, report: Label)

  /** What agc_run does from a starting cursor over four bursts. */
  function RunSpec(cursor: nat, peaks: seq<uint16>): RunOutcome
    requires cursor <= MAX_LEVEL && |peaks| >= 1
  {
    match Settle(cursor, peaks)
    case None => UndefinedRound
    case Some(level) => Completed(level, Classify(peaks[|peaks| - 1]))
  }

  function Peaks(bursts: seq<seq<uint16>>): (peaks: seq<uint16>)
    ensures |peaks| == |bursts|
  {
    seq(|bursts|, k requires 0 <= k < |bursts| => CleanMax(bursts[k]))
  }

  /** The net motion of two stretches of the log is the sum of theirs. */
  lemma {:induction false} SumConcat(a: seq<int>, b: seq<int>)
    ensures Sum(a + b) == Sum(a) + Sum(b)
    decreases |b|
  {
    if b == [] {
      assert a + b == a;
    } else {
      var c := b[..|b| - 1];
      assert (a + b)[..|a + b| - 1] == a + c;
      SumConcat(a, c);
    }
  }

  /** When a tracked cursor is the origin plus the log since the mark both
      before and after commands are appended, the commands add up to the
      cursor's net change. */
  lemma NetMotion(before: seq<int>, after: seq<int>, commands: seq<int>, mark: nat, origin: int, was: int, now: int)
    requires mark <= |before| && after == before + commands
    requires was == origin + Sum(before[mark..]) && now == origin + Sum(after[mark..])
    ensures after[|before|..] == commands && Sum(commands) == now - was
  {
    assert after[mark..] == before[mark..] + commands;
    SumConcat(before[mark..], commands);
  }

  /** A log that kept its first entries and then followed the plan up to
      an empty remainder is the old log followed by the plan. */
  lemma LogComplete(before: seq<int>, after: seq<int>, plan: seq<int>, rest: seq<int>)
    requires |before| <= |after| && after[..|before|] == before
    requires plan == after[|before|..] + rest && rest == []
    ensures after == before + plan
  {
    assert after == after[..|before|] + after[|before|..];
  }

  lemma {:induction false} SumAppend(steps: seq<int>, d: int)
    ensures Sum(steps + [d]) == Sum(steps) + d
  {
    assert (steps + [d])[..|steps|] == steps;
  }

  /** Appending one step to the log adds it to the net motion since any mark. */
  lemma TrackStep(steps: seq<int>, after: seq<int>, mark: nat, d: int)
    requires mark <= |steps| && after == steps + [d]
    ensures Sum(after[mark..]) == Sum(steps[mark..]) + d
    ensures after[..mark] == steps[..mark]
  {
    assert after[mark..] == steps[mark..] + [d];
    SumAppend(steps[mark..], d);
  }

  /** One more command in the log: it moves from the planned commands
      still to come onto the log, and adds itself to the net motion. */
  lemma LogAdvance(plan: seq<int>, steps: seq<int>, after: seq<int>, start: nat, d: int, rest: seq<int>)
    requires start <= |steps| && after == steps + [d]
    requires plan == steps[start..] + ([d] + rest)
    ensures plan == after[start..] + rest
    ensures after[..start] == steps[..start]
    ensures Sum(after[start..]) == Sum(steps[start..]) + d
  {
    TrackStep(steps, after, start, d);
    assert after[start..] == steps[start..] + [d];
  }

  /* ---------------------------------------------------------------------
     The controller state
     --------------------------------------------------------------------- */

  class Agc {
    /** Where the firmware believes the wiper is. */
    var cursor: nat
    /** Where the wiper actually is. */
    ghost var wiper: int
    /** Whether a reset has made cursor and wiper agree. */
    ghost var synced: bool
    /** Every relative step command sent to the PIO program, in order. */
    ghost var steps: seq<int>
    /** The log position and cursor of the last reset (or of start-up). */
    ghost var mark: nat
    ghost var origin: int

    ghost predicate Valid()
      reads this
    {
      cursor <= MAX_LEVEL && 0 <= wiper <= MAX_LEVEL && (synced ==> wiper == cursor)
      && mark <= |steps| && cursor == origin + Sum(steps[mark..])
    }

    /** agc_init of agc.c: sets up the PIO only, so the cursor keeps its
        static initial value 0 while the wiper may be anywhere. */
    constructor Init(ghost position: int)
      requires 0 <= position <= MAX_LEVEL
      ensures Valid() && cursor == 0 && wiper == position && steps == []
      ensures synced <==> position == 0
    {
      cursor := 0;
      wiper := position;
      synced := position == 0;
      steps := [];
      mark := 0;
      origin := 0;
    }

    /** agc_init of firmware/agc.c: sets up the PIO, then resets. */
    constructor InitAndReset(ghost position: int)
      requires 0 <= position <= MAX_LEVEL
      ensures Valid() && cursor == MAX_LEVEL && wiper == MAX_LEVEL && synced && steps == [MAX_LEVEL as int]
    {
      cursor := 0;
      wiper := position;
      synced := false;
      steps := [];
      mark := 0;
      origin := 0;
      new;
      Reset();
    }

    /** agc_reset: 127 up-steps drive the wiper to the top whatever its
        position, after which the cursor is 127 and agrees with it. */
    method Reset()
      requires Valid()
      modifies this
      ensures Valid() && synced
      ensures cursor == MAX_LEVEL && wiper == MAX_LEVEL
      ensures steps == old(steps) + [MAX_LEVEL as int]
      ensures mark == |steps| && origin == MAX_LEVEL
    {
      steps := steps + [MAX_LEVEL as int];
      wiper := Clamp(wiper + MAX_LEVEL);
      cursor := MAX_LEVEL;
      synced := true;
      mark := |steps|;
      origin := MAX_LEVEL;
    }

    /** agc_set_level: ASSERT(level < 128), one relative command of
        level - cursor steps, then the cursor records the level. A synced
        wiper follows exactly; the tracking invariant (cursor is the origin
        plus every step since the last reset) is kept either way. */
    method SetLevel(level: nat)
      requires Valid() && level <= MAX_LEVEL
      modifies this
      ensures Valid() && cursor == level
      ensures steps == old(steps) + [level - old(cursor)]
      ensures wiper == Clamp(old(wiper) + level - old(cursor))
      ensures synced == old(synced) && mark == old(mark) && origin == old(origin)
    {
      TrackStep(steps, steps + [level - cursor], mark, level - cursor);
      steps := steps + [level - cursor];
      wiper := Clamp(wiper + level - cursor);
      cursor := level;
    }

    /** The body of agc_run's loop: measure one burst and, unless its peak
        is zero (where the estimate is undefined), move to the level
        NewLevel predicts with one step command. */
    method Round(buffer: array<uint16>, burst: seq<uint16>) returns (peak: uint16)
      requires Valid() && |burst| == AGC_SAMPLE_COUNT <= buffer.Length
      modifies this, buffer
      ensures peak == CleanMax(burst)
      ensures buffer[..AGC_SAMPLE_COUNT] == burst
      ensures forall i :: AGC_SAMPLE_COUNT <= i < buffer.Length ==> buffer[i] == old(buffer[i])
      ensures Valid() && synced == old(synced) && mark == old(mark) && origin == old(origin)
      ensures peak == 0 ==> cursor == old(cursor) && steps == old(steps)
      ensures peak != 0 ==> NewLevel(old(cursor), peak) == Some(cursor) && steps == old(steps) + [cursor - old(cursor)]
    {
      peak := MeasurePeak(buffer, burst);
      if peak == 0 {
        return;
      }
      var newLevel := NextLevel(cursor, peak);
      SetLevel(newLevel);
    }

    /** Round k of agc_run as its loop sees it. The commands planned from
        the start mark on are those already logged followed by the ones
        still due for rounds k onwards; the round either logs the first of
        the due commands, or, at a zero peak, finds that none is due. */
    method Step(buffer: array<uint16>, burst: seq<uint16>, ghost peaks: seq<uint16>, ghost k: nat,
                ghost plan: seq<int>, ghost start: nat)
      returns (peak: uint16)
      requires Valid() && |burst| == AGC_SAMPLE_COUNT <= buffer.Length
      requires k < |peaks| && peaks[k] == CleanMax(burst)
      requires start <= |steps| && plan == steps[start..] + Commands(cursor, peaks[k..])
      modifies this, buffer
      ensures peak == peaks[k]
      ensures buffer[..AGC_SAMPLE_COUNT] == burst
      ensures forall i :: AGC_SAMPLE_COUNT <= i < buffer.Length ==> buffer[i] == old(buffer[i])
      ensures Valid() && synced == old(synced) && mark == old(mark) && origin == old(origin)
      ensures peak == 0 ==> cursor == old(cursor) && steps == old(steps) && plan == steps[start..]
      ensures peak != 0 ==> |steps| == |old(steps)| + 1 && steps[..start] == old(steps[..start])
      ensures peak != 0 ==> plan == steps[start..] + Commands(cursor, peaks[k + 1..])
    {
      ghost var before, level := steps, cursor;
      peak := Round(buffer, burst);
      if peak == 0 {
        // ohms * AGC_TARGET / 0 is infinite, and converting it to int is undefined
        assert Commands(cursor, peaks[k..]) == [];
        assert plan == steps[start..] + [];
      } else {
        CommandsStep(level, peaks, k, cursor);
        LogAdvance(plan, before, steps, start, cursor - level, Commands(cursor, peaks[k + 1..]));
      }
    }

    /** The loop of agc_run: up to four rounds, stopping early (stopped)
        at a zero peak, where the estimate is undefined. The log gains
        exactly the commands of the rounds run (Commands), and the buffer
        keeps the last burst measured. */
    method Rounds(buffer: array<uint16>, bursts: seq<seq<uint16>>) returns (peak: uint16, rounds: nat, stopped: bool)
      requires Valid()
      requires |bursts| == 4 && forall k :: 0 <= k < 4 ==> |bursts[k]| == AGC_SAMPLE_COUNT
      requires AGC_SAMPLE_COUNT <= buffer.Length
      modifies this, buffer
      ensures Valid() && synced == old(synced) && mark == old(mark) && origin == old(origin)
      ensures steps == old(steps) + Commands(old(cursor), Peaks(bursts)) && |steps| == |old(steps)| + rounds
      ensures forall j :: AGC_SAMPLE_COUNT <= j < buffer.Length ==> buffer[j] == old(buffer[j])
      ensures !stopped ==>
                rounds == 4 && peak == Peaks(bursts)[3] && buffer[..AGC_SAMPLE_COUNT] == bursts[3]
      ensures stopped ==> rounds < 4 && buffer[..AGC_SAMPLE_COUNT] == bursts[rounds]
    {
      ghost var peaks := Peaks(bursts);
      ghost var start := |steps|;
      ghost var plan := Commands(cursor, peaks);
      assert steps[start..] == [];
      peak := 0;
      rounds := 0;
      stopped := false;
      while rounds < 4
        invariant rounds <= 4 && Valid()
        invariant synced == old(synced) && mark == old(mark) && origin == old(origin)
        invariant |steps| == start + rounds && steps[..start] == old(steps)
        invariant plan == steps[start..] + Commands(cursor, peaks[rounds..])
        invariant rounds > 0 ==> peak == peaks[rounds - 1] && buffer[..AGC_SAMPLE_COUNT] == bursts[rounds - 1]
        invariant forall j :: AGC_SAMPLE_COUNT <= j < buffer.Length ==> buffer[j] == old(buffer[j])
      {
        peak := Step(buffer, bursts[rounds], peaks, rounds, plan, start);
        if peak == 0 {
          stopped := true;
          break;
        }
        rounds := rounds + 1;
      }
      if !stopped {
        assert peaks[rounds..] == [];
      }
      LogComplete(old(steps), steps, plan, if stopped then [] else Commands(cursor, peaks[rounds..]));
    }

    /** agc_run: four rounds of measure, estimate, override above the
        ceiling, clamp and set; then the label from the last peak. The
        buffer is overwritten with the bursts, the last one measured staying
        in it. Each round sends its own command (Commands); a completed run
        leaves the cursor at the level RunSpec predicts, and the commands
        sum to the net change of the cursor. */
    method Run(buffer: array<uint16>, bursts: seq<seq<uint16>>) returns (outcome: RunOutcome)
      requires Valid()
      requires |bursts| == 4 && forall k :: 0 <= k < 4 ==> |bursts[k]| == AGC_SAMPLE_COUNT
      requires AGC_SAMPLE_COUNT <= buffer.Length
      modifies this, buffer
      ensures Valid() && outcome == RunSpec(old(cursor), Peaks(bursts))
      ensures synced == old(synced) && mark == old(mark) && origin == old(origin)
      ensures steps == old(steps) + Commands(old(cursor), Peaks(bursts))
      ensures forall i :: AGC_SAMPLE_COUNT <= i < buffer.Length ==> buffer[i] == old(buffer[i])
      ensures outcome.Completed? ==>
        cursor == outcome.level && |steps| == |old(steps)| + 4 && steps[..|old(steps)|] == old(steps)
        && Sum(steps[|old(steps)|..]) == cursor - old(cursor)
        && buffer[..AGC_SAMPLE_COUNT] == bursts[3]
      ensures outcome.UndefinedRound? ==>
        |Commands(old(cursor), Peaks(bursts))| < 4
        && buffer[..AGC_SAMPLE_COUNT] == bursts[|Commands(old(cursor), Peaks(bursts))|]
    {
      var peak, rounds, stopped := Rounds(buffer, bursts);
      ghost var peaks := Peaks(bursts);
      ghost var commands := Commands(old(cursor), peaks);
      NetMotion(old(steps), steps, commands, mark, origin, old(cursor), cursor);
      assert steps[..|old(steps)|] == old(steps);
      CommandsLength(old(cursor), peaks);
      if stopped {
        outcome := UndefinedRound;
      } else {
        CommandsSum(old(cursor), peaks);
        outcome := Completed(cursor, Classify(peak));
      }
    }
  }
}
