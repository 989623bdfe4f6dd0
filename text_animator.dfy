/**
  The character-scramble component. A text is split into characters at mount;
  a run resets every character to what was captured at mount and then, per
  character, plays a staggered series of random frames before putting the
  character back. One flag guards against overlapping runs.

  Time is integer milliseconds. The animation library's timers are not
  modelled as timers: each thing a timer would do is a method (Frame,
  Complete, Restore) that the caller invokes when its time has come, and
  EventTime says when that is.
*/
module TextAnimator {
  import opened Wrappers

  /** The alphabet a scrambling character draws from: a-z, 17 marks, 0-9. */
  const LettersAndSymbols: string := "abcdefghijklmnopqrstuvwxyz!@#$%^&*-_+=;:<>,0123456789"

  /** The palette used when no `colors` prop is given. */
  const DefaultColors: seq<string> := ["#667eea", "#764ba2", "#f093fb", "#4facfe", "#00f2fe"]

  /** The timeline parameters, in milliseconds. */
  const StaggerMs: nat := 80          // stagger unit: position p starts after p + 1 units
  const FrameMs: nat := 30            // length of one frame of the tween
  const RepeatDelayMs: nat := 100     // pause between two frames
  const Repeat: nat := 3              // repeats after the first frame
  const FramesPerUnit: nat := Repeat + 1
  const RestoreDelayMs: nat := 30     // wait between a tween's completion and its character's restore

  datatype Trigger = Hover | Auto | Click

  lemma AlphabetHas53Symbols()
    ensures |LettersAndSymbols| == 53
  {
  }

  // ---------------------------------------------------------------------
  // The schedule of one run
  // ---------------------------------------------------------------------

  /** When the character at `position` starts scrambling, after the run starts. */
  function StartDelay(position: nat): (ms: nat)
    ensures ms >= StaggerMs > 0
  {
    (position + 1) * StaggerMs
  }

  /** Something the timeline does to one character during a run. */
  datatype Event =
    | FrameShown(position: nat, frame: nat)   // the frame-th random frame begins
    | Completed(position: nat)                // the tween's onComplete runs
    | Restored(position: nat)                 // the delayed restore takes effect

  /** The events of a run over `n` characters. */
  predicate InRun(e: Event, n: nat)
  {
    match e
    case FrameShown(p, k) => p < n && k < FramesPerUnit
    case Completed(p) => p < n
    case Restored(p) => p < n
  }

  /** The span of one character's work: its frames, its completion and its restore. */
  const UnitSpanMs: nat := FramesPerUnit * FrameMs + Repeat * RepeatDelayMs + RestoreDelayMs

  /** When `e` happens, in milliseconds after the run starts: within its character's span, the restore last. */
  function EventTime(e: Event): (ms: nat)
    ensures StartDelay(e.position) <= ms
    ensures (e.FrameShown? ==> e.frame < FramesPerUnit) ==> ms <= StartDelay(e.position) + UnitSpanMs
    ensures e.Restored? <==> ms == StartDelay(e.position) + UnitSpanMs
  {
    match e
    case FrameShown(p, k) => StartDelay(p) + k * (FrameMs + RepeatDelayMs)
    case Completed(p) => StartDelay(p) + FramesPerUnit * FrameMs + Repeat * RepeatDelayMs
    case Restored(p) => StartDelay(p) + FramesPerUnit * FrameMs + Repeat * RepeatDelayMs + RestoreDelayMs
  }

  /** The wavefront: the first character starts after one stagger unit and each later one strictly later. */
  lemma StartDelayIncreasing(p: nat, q: nat)
    requires p < q
    ensures StartDelay(0) == StaggerMs
    ensures StartDelay(p) < StartDelay(q)
  {
  }

  /** Three characters start at 80, 160 and 240 ms. */
  lemma ThreeCharacterDelays()
    ensures seq(3, p requires 0 <= p => StartDelay(p)) == [80, 160, 240]
  {
  }

  /** A character's frames last FrameMs each, are separated by RepeatDelayMs, and the last one ends at its completion. */
  lemma FramesOfOneCharacter(p: nat, k: nat)
    requires k < FramesPerUnit
    ensures EventTime(FrameShown(p, 0)) == StartDelay(p)
    ensures k + 1 < FramesPerUnit ==>
      EventTime(FrameShown(p, k + 1)) == EventTime(FrameShown(p, k)) + FrameMs + RepeatDelayMs
    ensures EventTime(FrameShown(p, k)) + FrameMs <= EventTime(Completed(p))
    ensures EventTime(FrameShown(p, FramesPerUnit - 1)) + FrameMs == EventTime(Completed(p))
    ensures EventTime(Restored(p)) == EventTime(Completed(p)) + RestoreDelayMs
  {
  }

  /** Nothing happens in a run before the first stagger unit has elapsed. */
  lemma NothingBeforeFirstStagger(e: Event, n: nat)
    requires InRun(e, n)
    ensures EventTime(e) >= StaggerMs
  {
  }

  /**
    The completion of the last character is the last thing that happens in a
    run, except for that character's own delayed restore: every other
    character has already played all its frames and been put back, and the
    last character is put back RestoreDelayMs after the callback.
  */
  lemma RunEndsAtLastCompletion(e: Event, n: nat)
    requires n > 0 && InRun(e, n)
    ensures EventTime(e) < EventTime(Completed(n - 1)) <==> e != Completed(n - 1) && e != Restored(n - 1)
    ensures e == Restored(n - 1) ==> EventTime(e) > EventTime(Completed(n - 1))
  {
  }

  // ---------------------------------------------------------------------
  // The component
  // ---------------------------------------------------------------------

  /** One character as the splitter hands it over: its markup and its computed colour. */
  datatype CharElement = CharElement(html: string, color: string)

  /** The splitter's output: one element per character, showing its markup in its colour, nothing pending. */
  method Materialize(chars: seq<CharElement>) returns (contents: array<string>, shades: array<string>, pending: array<Stage>)
    ensures fresh(contents) && fresh(shades) && fresh(pending) && contents != shades
    ensures contents.Length == shades.Length == pending.Length == |chars|
    ensures forall k :: 0 <= k < |chars| ==>
      contents[k] == chars[k].html && shades[k] == chars[k].color && pending[k] == Idle
  {
    var n := |chars|;
    contents, shades, pending := new string[n], new string[n], new Stage[n];
    var i := 0;
    while i < n
      invariant 0 <= i <= n
      invariant forall k :: 0 <= k < i ==>
        contents[k] == chars[k].html && shades[k] == chars[k].color && pending[k] == Idle
    {
      contents[i], shades[i], pending[i] := chars[i].html, chars[i].color, Idle;
      i := i + 1;
    }
  }

  /** The timeline work pending for one character. */
  datatype Stage =
    | Idle                                                        // nothing pending
    | Scrambling(shown: nat, back: string, backColor: string)     // tween scheduled, `shown` frames played
    | Restoring(back: string, backColor: string)                  // tween complete, restore pending

  /** A one-symbol string drawn from the scramble alphabet. */
  predicate IsSymbol(content: string)
  {
    |content| == 1 && content[0] in LettersAndSymbols
  }

  /**
    What a character may look like: its original or an alphabet symbol, in its
    original colour or a palette colour; with nothing pending it shows its
    original, and the values a pending restore will put back are the originals.
  */
  predicate Consistent(content: string, color: string, st: Stage, original: string, originalColor: string, palette: seq<string>)
  {
    && (content == original || IsSymbol(content))
    && (color == originalColor || color in palette)
    && match st
       case Idle => content == original && color == originalColor
       case Scrambling(shown, back, backColor) =>
         && shown <= FramesPerUnit
         && back == original && backColor == originalColor
         && (shown == 0 ==> content == original && color == originalColor)
       case Restoring(back, backColor) => back == original && backColor == originalColor
  }

  /**
    The delay setTimeout waits: the argument is converted to a signed 32-bit
    integer (taken modulo 2^32, values from 2^31 up becoming negative), and a
    negative delay counts as zero.
  */
  function TimeoutMs(delay: int): (ms: nat)
    ensures ms < 0x8000_0000
    ensures 0 <= delay < 0x8000_0000 ==> ms == delay
    ensures -0x8000_0000 <= delay < 0 ==> ms == 0
  {
    var wrapped := delay % 0x1_0000_0000;
    if wrapped >= 0x8000_0000 then 0 else wrapped
  }

  /** The conversion only sees the delay modulo 2^32: 2^31 ms fires at once, 2^32 + 5 ms after 5 ms. */
  lemma TimeoutWraps(delay: int)
    ensures TimeoutMs(delay + 0x1_0000_0000) == TimeoutMs(delay)
    ensures TimeoutMs(0x8000_0000) == 0 && TimeoutMs(0x1_0000_0005) == 5
  {
  }

  class Animator {
    const trigger: Trigger
    const delay: int
    const palette: seq<string>

    var split: bool                  // the splitter has run
    var orig: seq<string>            // markup of each character, captured at mount
    var origColor: seq<string>       // computed colour of each character, captured at mount
    var cur: array<string>           // current markup of each character
    var curColor: array<string>      // current colour of each character
    var stage: array<Stage>          // timeline work pending per character
    var animating: bool              // a run is in progress
    var autoTimer: Option<nat>       // the pending auto-start timeout, with its delay

    ghost var runs: nat              // accepted runs so far
    ghost var completions: nat       // completion callbacks so far

    ghost predicate Valid()
      reads this, cur, curColor, stage
    {
      && cur != curColor
      && cur.Length == curColor.Length == stage.Length == |orig| == |origColor|
      && (!split ==> |orig| == 0 && !animating && runs == 0 && completions == 0)
      && (forall i :: 0 <= i < |orig| ==>
            Consistent(cur[i], curColor[i], stage[i], orig[i], origColor[i], palette))
      && (!animating ==> forall i :: 0 <= i < |orig| - 1 ==> stage[i].Idle?)
      // a run ends exactly when the last character's tween completes ...
      && (|orig| > 0 ==> (animating <==> stage[|orig| - 1].Scrambling?))
      // ... so every accepted run has fired its callback once, or is the one in progress
      && (|orig| > 0 ==> runs == completions + if animating then 1 else 0)
      // with no characters, the first accepted run never ends
      && (|orig| == 0 ==> completions == 0 && runs == if animating then 1 else 0)
      && (autoTimer.Some? ==> trigger == Auto)
    }

    /** Nothing observable changed. */
    twostate predicate Untouched()
      reads this, cur, curColor, stage
    {
      && animating == old(animating) && runs == old(runs)
      && cur[..] == old(cur[..]) && curColor[..] == old(curColor[..]) && stage[..] == old(stage[..])
    }

    /** The effect of `animate`, accepted or not. */
    twostate predicate Animated(accepted: bool)
      requires Valid()
      reads this, cur, curColor, stage
    {
      && (accepted <==> old(split) && !old(animating))
      && (!accepted ==> Untouched())
      && (accepted ==>
            && animating && runs == old(runs) + 1
            && cur[..] == orig && curColor[..] == origColor
            && forall i :: 0 <= i < stage.Length ==> stage[i] == Scrambling(0, orig[i], origColor[i]))
      && completions == old(completions)
    }

    /**
      The component before its effects run. Absent props take their defaults:
      hover mode, no delay, the default palette; an empty `colors` list is kept as it is.
    */
    constructor (trigger: Option<Trigger>, delay: Option<int>, colors: Option<seq<string>>)
      ensures Valid()
      ensures this.trigger == if trigger.Some? then trigger.value else Hover
      ensures this.delay == if delay.Some? then delay.value else 0
      ensures palette == if colors.Some? then colors.value else DefaultColors
      ensures !split && !animating && autoTimer == None && runs == 0 && completions == 0
    {
      this.trigger := match trigger
        case Some(given) => given
        case None => Hover;
      this.delay := match delay
        case Some(given) => given
        case None => 0;
      palette := match colors
        case Some(given) => given
        case None => DefaultColors;
      split := false;
      orig, origColor := [], [];
      cur := new string[0];
      curColor := new string[0];
      stage := new Stage[0];
      animating := false;
      autoTimer := None;
      runs, completions := 0, 0;
    }

    /** The mount effect: split the text and capture each character's markup and colour, index by index. */
    method Split(chars: seq<CharElement>)
      requires !split && !animating && runs == 0 && completions == 0
      requires autoTimer.Some? ==> trigger == Auto
      modifies this`split, this`orig, this`origColor, this`cur, this`curColor, this`stage
      ensures Valid() && split
      ensures |orig| == |origColor| == |chars|
      ensures forall i :: 0 <= i < |chars| ==> orig[i] == chars[i].html && origColor[i] == chars[i].color
      ensures fresh(cur) && fresh(curColor) && fresh(stage)
      ensures cur[..] == orig && curColor[..] == origColor
      ensures forall i :: 0 <= i < stage.Length ==> stage[i] == Idle
    {
      var contents, shades, pending := Materialize(chars);
      split, orig, origColor, cur, curColor, stage := true, contents[..], shades[..], contents, shades, pending;
    }

    /**
      `animate`: rejected, changing nothing, before the split or while a run is
      in progress; otherwise sets the flag, cancels pending work and resets
      every character to its captured original, then schedules every
      character's scramble with the values it now shows as restore target.
    */
    method Animate() returns (accepted: bool)
      requires Valid()
      modifies this`animating, this`runs, cur, curColor, stage
      ensures Valid()
      ensures Animated(accepted)
    {
      if !split || animating {
        return false;
      }
      animating := true;
      runs := runs + 1;
      var n := cur.Length;

      var index := 0;
      while index < n
        invariant 0 <= index <= n
        invariant animating && runs == old(runs) + 1
        invariant forall k :: 0 <= k < index ==>
          cur[k] == orig[k] && curColor[k] == origColor[k] && stage[k] == Idle
      {
        stage[index] := Idle;                  // kill the character's tweens
        cur[index] := orig[index];
        curColor[index] := origColor[index];
        index := index + 1;
      }

      var position := 0;
      while position < n
        invariant 0 <= position <= n
        invariant animating && runs == old(runs) + 1
        invariant cur[..] == orig && curColor[..] == origColor
        invariant forall k :: 0 <= k < n ==>
          stage[k] == if k < position then Scrambling(0, orig[k], origColor[k]) else Idle
      {
        var initialHtml := cur[position];
        // the computed colour of a colour that was itself computed at mount
        var initialColor := curColor[position];
        stage[position] := Scrambling(0, initialHtml, initialColor);
        position := position + 1;
      }
      accepted := true;
    }

    /**
      One scramble frame of the character at `position`: the caller's draws
      `symbol` and `color` stand for the two random indices. With an empty
      palette the colour draw is undefined and the colour stays as it is.
    */
    method Frame(position: nat, symbol: nat, color: nat)
      requires Valid()
      requires position < stage.Length && stage[position].Scrambling? && stage[position].shown < FramesPerUnit
      requires symbol < |LettersAndSymbols|
      requires palette != [] ==> color < |palette|
      modifies cur, curColor, stage
      ensures Valid()
      ensures cur[position] == [LettersAndSymbols[symbol]]
      ensures curColor[position] == if palette == [] then old(curColor[position]) else palette[color]
      ensures stage[position] == old(stage[position]).(shown := old(stage[position]).shown + 1)
      ensures forall i :: 0 <= i < stage.Length && i != position ==>
        cur[i] == old(cur[i]) && curColor[i] == old(curColor[i]) && stage[i] == old(stage[i])
    {
      var st := stage[position];
      if palette != [] {
        curColor[position] := palette[color];
      }
      cur[position] := [LettersAndSymbols[symbol]];
      stage[position] := st.(shown := st.shown + 1);
      assert IsSymbol(cur[position]);
      assert Consistent(cur[position], curColor[position], stage[position], orig[position], origColor[position], palette);
    }

    /**
      The tween's onComplete after all its frames: schedules the restore; for
      the last position only, clears the flag and then fires the callback.
      The timeline reaches the last position's completion only after every
      other character is restored (RunEndsAtLastCompletion).
    */
    method Complete(position: nat) returns (callback: bool)
      requires Valid()
      requires position < stage.Length && stage[position].Scrambling? && stage[position].shown == FramesPerUnit
      requires position == stage.Length - 1 ==> forall i :: 0 <= i < position ==> stage[i].Idle?
      modifies this`animating, this`completions, stage
      ensures Valid()
      ensures callback <==> position == stage.Length - 1
      ensures stage[position] == Restoring(old(stage[position]).back, old(stage[position]).backColor)
      ensures forall i :: 0 <= i < stage.Length && i != position ==> stage[i] == old(stage[i])
      ensures animating == (old(animating) && !callback)
      ensures completions == old(completions) + if callback then 1 else 0
    {
      var st := stage[position];
      stage[position] := Restoring(st.back, st.backColor);
      callback := position == stage.Length - 1;
      if callback {
        animating := false;
        completions := completions + 1;   // the callback runs with the flag already clear
      }
    }

    /** The delayed restore: the character shows again what it showed right after the reset. */
    method Restore(position: nat)
      requires Valid()
      requires position < stage.Length && stage[position].Restoring?
      modifies cur, curColor, stage
      ensures Valid()
      ensures cur[position] == orig[position] && curColor[position] == origColor[position]
      ensures stage[position] == Idle
      ensures forall i :: 0 <= i < stage.Length && i != position ==>
        cur[i] == old(cur[i]) && curColor[i] == old(curColor[i]) && stage[i] == old(stage[i])
    {
      var st := stage[position];
      cur[position] := st.back;
      curColor[position] := st.backColor;
      stage[position] := Idle;
    }

    /** `handleMouseEnter`: animates in hover mode only. */
    method MouseEnter() returns (accepted: bool)
      requires Valid()
      modifies this`animating, this`runs, cur, curColor, stage
      ensures Valid()
      ensures trigger == Hover ==> Animated(accepted)
      ensures trigger != Hover ==> !accepted && Untouched()
    {
      accepted := false;
      if trigger == Hover {
        accepted := Animate();
      }
    }

    /** `handleClick`: animates in click mode only. */
    method Click() returns (accepted: bool)
      requires Valid()
      modifies this`animating, this`runs, cur, curColor, stage
      ensures Valid()
      ensures trigger == Trigger.Click ==> Animated(accepted)
      ensures trigger != Trigger.Click ==> !accepted && Untouched()
    {
      accepted := false;
      if trigger == Trigger.Click {
        accepted := Animate();
      }
    }

    /** The auto-trigger effect: in auto mode, one timeout of `delay` ms is set. */
    method ScheduleAuto()
      requires Valid()
      modifies this`autoTimer
      ensures Valid()
      ensures autoTimer == if trigger == Auto then Some(TimeoutMs(delay)) else old(autoTimer)
    {
      if trigger == Auto {
        autoTimer := Some(TimeoutMs(delay));
      }
    }

    /** The effect's cleanup: the pending timeout is cleared. */
    method CancelAuto()
      requires Valid()
      modifies this`autoTimer
      ensures Valid() && autoTimer == None
    {
      autoTimer := None;
    }

    /** The timeout fires: it is used up and calls `animate` once. */
    method AutoFire() returns (accepted: bool)
      requires Valid() && autoTimer.Some?
      modifies this`autoTimer, this`animating, this`runs, cur, curColor, stage
      ensures Valid() && autoTimer == None
      ensures trigger == Auto
      ensures Animated(accepted)
    {
      autoTimer := None;
      accepted := Animate();
    }
  }
}
