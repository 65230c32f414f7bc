/**
 * Properties of the sequencer: what each of the four callback branches does,
 * that repeated callbacks produce exactly the character-by-character timeline,
 * the empty message, gap-only characters, the "sos" timeline, LED alternation.
 */
module TransmitterProofs {
  import opened McodeTable
  import opened Transmitter

  // ---------------------------------------------------------------------------
  // The four branches of one callback.

  /**
   * Completion: the timer is not re-armed and the cursors and lengths are
   * zeroed; the intercode flag, the LED and the buffer are left as they were.
   */
  lemma CompletionStep(st: State)
    requires Inv(st) && st.messageItr > st.mlength - 1
    ensures Next(st).0 == Done
    ensures Next(st).1 == State(st.msg, 0, 0, st.intercode, 0, 0, st.led, true)
  {
  }

  /**
   * Inter-letter gap: the LED is cleared for 2000 ms, the character cursor
   * moves on, the symbol cursor restarts and `mcodelength` becomes the length
   * of the next character's symbol.
   */
  lemma InterletterStep(st: State)
    requires Inv(st) && st.messageItr <= st.mlength - 1 && st.mcodeItr > st.mcodelength - 1
    ensures st.messageItr + 1 <= st.mlength
    ensures Next(st).0 == Rearm(false, InterletterTimeMs)
    ensures Next(st).1 == State(st.msg, st.messageItr + 1, 0, st.intercode, st.mlength,
                                |McodeString(st.msg[st.messageItr + 1] as int)|, false, st.heartbeat)
  {
  }

  /** Intra-symbol gap: the LED is cleared for 250 ms and the intercode flag dropped; the cursors stay. */
  lemma IntercodeStep(st: State)
    requires Inv(st) && st.messageItr <= st.mlength - 1 && st.mcodeItr <= st.mcodelength - 1 && st.intercode
    ensures Next(st).0 == Rearm(false, IntercodeTimeMs)
    ensures Next(st).1 == st.(intercode := false, led := false)
  {
  }

  /**
   * Pulse: the symbol character under the cursor is a dot or a dash; the LED
   * is set for 500 or 1500 ms accordingly, the intercode flag is raised and
   * the symbol cursor advances by one; nothing else changes.
   */
  lemma PulseStep(st: State)
    requires Inv(st) && st.messageItr <= st.mlength - 1 && st.mcodeItr <= st.mcodelength - 1 && !st.intercode
    ensures st.mcodeItr < |McodeString(st.msg[st.messageItr] as int)|
    ensures var c := McodeString(st.msg[st.messageItr] as int)[st.mcodeItr];
      (c == '.' && Next(st).0 == Rearm(true, DotTimeMs)) || (c == '-' && Next(st).0 == Rearm(true, DashTimeMs))
    ensures Next(st).1 == st.(intercode := true, led := true, mcodeItr := st.mcodeItr + 1)
  {
  }

  /** The LED output after a re-arming step is the level the action asks for. */
  lemma StepSetsLed(st: State)
    requires Inv(st) && Next(st).0.Rearm?
    ensures Next(st).1.led == Next(st).0.ledOn
  {
  }

  /**
   * A pulse is always followed by a step that re-arms the timer and clears the
   * LED, so two pulses are never adjacent.
   */
  lemma NoAdjacentPulses(st: State)
    requires Inv(st) && Next(st).0.Rearm? && Next(st).0.ledOn
    ensures Next(Next(st).1).0.Rearm? && !Next(Next(st).1).0.ledOn
  {
  }

  /** One callback is the first action of the trace, and does not change where the transmission settles. */
  lemma TraceStep(st: State)
    requires Inv(st)
    ensures var (a, st') := Next(st);
      if a == Done then Trace(st) == [Done] && Settle(st) == st'
      else Trace(st) == [a] + Trace(st') && Settle(st) == Settle(st')
  {
  }

  /**
   * A trace and settled state known for `start` up to `before` carry over to
   * the state one callback later: the action joins the trace, or completes it.
   */
  lemma TraceAdvance(start: State, before: State, after: State, a: Action, trace: seq<Action>)
    requires Inv(start) && Inv(before) && (a, after) == Next(before)
    requires Trace(start) == trace + Trace(before) && Settle(start) == Settle(before)
    ensures a != Done ==> Trace(start) == (trace + [a]) + Trace(after) && Settle(start) == Settle(after)
    ensures a == Done ==> Trace(start) == trace + [a] && after == Settle(start)
  {
    TraceStep(before);
  }

  // ---------------------------------------------------------------------------
  // Repeated callbacks against the character-by-character timeline.

  /** The current character's symbol from the symbol cursor on. */
  function RestOfSymbol(st: State): (s: string)
    requires Inv(st) && st.messageItr < st.mlength
    ensures IsSymbol(s)
  {
    SymbolAt(st, st.messageItr)[st.mcodeItr..]
  }

  /**
   * The steps for the rest `s` of a symbol (with intercode flag `ic`), its
   * inter-letter gap, and then the characters `m` that follow it.
   */
  function RestTimeline(s: string, ic: bool, m: seq<Byte>): seq<Action>
    requires IsSymbol(s)
  {
    SymbolPulses(s, ic) + ([Rearm(false, InterletterTimeMs)] + MessageTimeline(m, IntercodeAfter(s, ic)))
  }

  /**
   * The steps still to come before completion: the rest of the current
   * symbol, its inter-letter gap, then the remaining characters of the message.
   */
  function Remaining(st: State): seq<Action>
    requires Inv(st)
  {
    if st.messageItr >= st.mlength then []
    else RestTimeline(RestOfSymbol(st), st.intercode, st.msg[st.messageItr + 1..st.mlength])
  }

  /** The intercode flag the transmission from `st` on ends with. */
  function RemainingIntercode(st: State): bool
    requires Inv(st)
  {
    if st.messageItr >= st.mlength then st.intercode
    else FinalIntercode(st.msg[st.messageItr + 1..st.mlength], IntercodeAfter(RestOfSymbol(st), st.intercode))
  }

  /**
   * From any state the invariant admits, the callbacks produce exactly the
   * remaining character-by-character timeline and then complete.
   */
  lemma {:induction false} TraceFrom(st: State)
    requires Inv(st)
    ensures Trace(st) == Remaining(st) + [Done]
    decreases Rank(st).0, Rank(st).1, Rank(st).2
  {
    var (a, st') := Next(st);
    TraceStep(st);
    if st.messageItr < st.mlength {
      TraceFrom(st');
      RemainingAfterStep(st);
      assert Trace(st) == ([a] + Remaining(st')) + [Done];
    }
  }

  /**
   * Completion from any state the invariant admits leaves the cursors and
   * lengths zeroed, the buffer as it was, the LED off if any step re-armed
   * the timer, and the intercode flag as the rest of the message sets it.
   */
  lemma {:induction false} SettleFrom(st: State)
    requires Inv(st)
    ensures Settle(st) == State(st.msg, 0, 0, RemainingIntercode(st), 0, 0,
                                if st.messageItr < st.mlength then false else st.led, true)
    decreases Rank(st).0, Rank(st).1, Rank(st).2
  {
    var (a, st') := Next(st);
    TraceStep(st);
    if st.messageItr < st.mlength {
      SettleFrom(st');
      RemainingAfterStep(st);
      assert st'.msg == st.msg && (st'.messageItr >= st'.mlength ==> !st'.led);
    }
  }

  /** One re-arming step takes the first of the remaining steps and keeps the final intercode flag. */
  lemma RemainingAfterStep(st: State)
    requires Inv(st) && st.messageItr < st.mlength
    ensures Remaining(st) == [Next(st).0] + Remaining(Next(st).1)
    ensures RemainingIntercode(st) == RemainingIntercode(Next(st).1)
  {
    if st.mcodeItr > st.mcodelength - 1 {
      InterletterStep(st);
      RemainingAfterInterletter(st);
    } else if st.intercode {
      IntercodeStep(st);
      RemainingAfterIntercode(st);
    } else {
      PulseStep(st);
      RemainingAfterPulse(st, Next(st).0);
    }
  }

  lemma RemainingAfterInterletter(st: State)
    requires Inv(st) && st.messageItr < st.mlength && st.mcodeItr > st.mcodelength - 1
    ensures var st' := st.(messageItr := st.messageItr + 1, mcodeItr := 0,
                           mcodelength := |SymbolAt(st, st.messageItr + 1)|, led := false);
      Inv(st') &&
      Remaining(st) == [Rearm(false, InterletterTimeMs)] + Remaining(st') &&
      RemainingIntercode(st) == RemainingIntercode(st')
  {
    var k := st.messageItr;
    var m := st.msg[k + 1..st.mlength];
    var st' := st.(messageItr := k + 1, mcodeItr := 0, mcodelength := |SymbolAt(st, k + 1)|, led := false);
    assert st'.msg == st.msg && k + 1 <= st.mlength;
    assert k + 1 < st.mlength ==> SymbolAt(st', k + 1) == SymbolAt(st, k + 1);
    assert Inv(st');
    assert RestOfSymbol(st) == [];
    assert Remaining(st) == RestTimeline([], st.intercode, m);
    assert RemainingIntercode(st) == FinalIntercode(m, st.intercode);
    SymbolDone(st.intercode, m);
    if k + 1 < st.mlength {
      NextCharacter(st.msg, k + 1, st.mlength, st.intercode);
      var s := SymbolAt(st, k + 1);
      assert RestOfSymbol(st') == s;
      assert Remaining(st') == RestTimeline(s, st.intercode, st.msg[k + 2..st.mlength]);
      assert RemainingIntercode(st') == FinalIntercode(st.msg[k + 2..st.mlength], IntercodeAfter(s, st.intercode));
    } else {
      assert m == [];
    }
  }

  lemma RemainingAfterIntercode(st: State)
    requires Inv(st) && st.messageItr < st.mlength && st.mcodeItr <= st.mcodelength - 1 && st.intercode
    ensures var st' := st.(intercode := false, led := false);
      Inv(st') &&
      Remaining(st) == [Rearm(false, IntercodeTimeMs)] + Remaining(st') &&
      RemainingIntercode(st) == RemainingIntercode(st')
  {
    var st' := st.(intercode := false, led := false);
    var s := RestOfSymbol(st);
    var m := st.msg[st.messageItr + 1..st.mlength];
    assert Inv(st') && s == RestOfSymbol(st');
    assert Remaining(st) == RestTimeline(s, true, m);
    assert Remaining(st') == RestTimeline(s, false, m);
    GapBeforePulse(s, m);
  }

  lemma RemainingAfterPulse(st: State, a: Action)
    requires Inv(st) && st.messageItr < st.mlength && st.mcodeItr <= st.mcodelength - 1 && !st.intercode
    requires a == Rearm(true, PulseDelay(SymbolAt(st, st.messageItr)[st.mcodeItr]))
    ensures var st' := st.(intercode := true, led := true, mcodeItr := st.mcodeItr + 1);
      Inv(st') &&
      Remaining(st) == [a] + Remaining(st') &&
      RemainingIntercode(st) == RemainingIntercode(st')
  {
    var st' := st.(intercode := true, led := true, mcodeItr := st.mcodeItr + 1);
    var s := RestOfSymbol(st);
    assert s[0] == SymbolAt(st, st.messageItr)[st.mcodeItr];
    assert s[1..] == RestOfSymbol(st');
    PulseFirst(s, st.msg[st.messageItr + 1..st.mlength]);
  }

  /** A finished symbol leaves only its inter-letter gap before the next characters. */
  lemma SymbolDone(ic: bool, m: seq<Byte>)
    ensures RestTimeline([], ic, m) == [Rearm(false, InterletterTimeMs)] + MessageTimeline(m, ic)
  {
  }

  /** With the intercode flag set, the rest of a symbol starts with a 250 ms OFF step and the flag dropped. */
  lemma GapBeforePulse(s: string, m: seq<Byte>)
    requires IsSymbol(s) && s != []
    ensures RestTimeline(s, true, m) == [Rearm(false, IntercodeTimeMs)] + RestTimeline(s, false, m)
  {
  }

  /** With the intercode flag clear, the rest of a symbol starts with its next pulse and the flag raised. */
  lemma PulseFirst(s: string, m: seq<Byte>)
    requires IsSymbol(s) && s != []
    ensures RestTimeline(s, false, m) == [Rearm(true, PulseDelay(s[0]))] + RestTimeline(s[1..], true, m)
  {
  }

  /** Unrolling the character-by-character timeline of `msg[i..n]` by one character. */
  lemma NextCharacter(msg: seq<Byte>, i: int, n: int, ic: bool)
    requires 0 <= i < n <= |msg|
    ensures var s := McodeString(msg[i] as int);
      MessageTimeline(msg[i..n], ic) == RestTimeline(s, ic, msg[i + 1..n]) &&
      FinalIntercode(msg[i..n], ic) == FinalIntercode(msg[i + 1..n], IntercodeAfter(s, ic))
  {
    var m := msg[i..n];
    assert m[0] == msg[i];
    assert m[1..] == msg[i + 1..n];
  }

  /**
   * `dev_write` followed by callbacks until completion: the timeline is the
   * character-by-character timeline of the bytes before the first NUL,
   * starting from the intercode flag the previous transmission left, and the
   * driver ends idle, the LED off and under its heartbeat trigger, with that
   * flag set exactly when the previous one was set or some character of the
   * message has a symbol.
   */
  lemma WriteThenRun(st: State, buffer: seq<Byte>)
    requires Inv(st) && Idle(st)
    requires |buffer| <= BufferSize
    requires 0 in buffer + st.msg[|buffer|..]
    ensures var w := Written(st, buffer);
      Trace(w) == MessageTimeline(w.msg[..w.mlength], st.intercode) + [Done] &&
      Settle(w).intercode == FinalIntercode(w.msg[..w.mlength], st.intercode) &&
      Settle(w) == w.(mlength := 0, mcodelength := 0, heartbeat := true,
                      intercode := Settle(w).intercode)
  {
    var w := Written(st, buffer);
    TraceFrom(w);
    SettleFrom(w);
    var m := w.msg[..w.mlength];
    if w.mlength > 0 {
      NextCharacter(w.msg, 0, w.mlength, st.intercode);
      assert RestOfSymbol(w) == McodeString(w.msg[0] as int);
    } else {
      assert m == [];
    }
  }

  /**
   * An empty message (first byte NUL after the copy) sets the length to 0 and
   * the first callback completes without a pulse.
   */
  lemma EmptyMessage(st: State, buffer: seq<Byte>)
    requires Inv(st) && Idle(st)
    requires |buffer| <= BufferSize
    requires (buffer + st.msg[|buffer|..])[0] == 0
    ensures Written(st, buffer).mlength == 0
    ensures Trace(Written(st, buffer)) == [Done]
  {
    WriteThenRun(st, buffer);
  }

  /**
   * A write without a NUL of its own ends at the first NUL the older bytes
   * after it hold: the message is the new bytes followed by that stale tail.
   * Onto a zeroed buffer (and no earlier write), the message is exactly what
   * was written.
   */
  lemma UnterminatedWrite(st: State, buffer: seq<Byte>)
    requires Inv(st) && Idle(st)
    requires |buffer| < BufferSize && 0 !in buffer
    requires 0 in st.msg[|buffer|..]
    ensures var w := Written(st, buffer); var tail := st.msg[|buffer|..];
      w.mlength == |buffer| + StrLen(tail) &&
      w.msg[..w.mlength] == buffer + tail[..StrLen(tail)]
    ensures (forall i :: 0 <= i < |st.msg| ==> st.msg[i] == 0) ==>
      var w := Written(st, buffer); w.mlength == |buffer| && w.msg[..w.mlength] == buffer
  {
    var w := Written(st, buffer);
    var tail := st.msg[|buffer|..];
    var n := |buffer| + StrLen(tail);
    assert w.msg[n] == 0;
    assert 0 !in w.msg[..n] by {
      assert w.msg[..n] == buffer + tail[..StrLen(tail)];
    }
    assert w.msg[..n] == buffer + tail[..StrLen(tail)];
    FirstNulIsStrLen(w.msg, n);
    if forall i :: 0 <= i < |st.msg| ==> st.msg[i] == 0 {
      assert tail[0] == 0;
    }
  }

  /** An index holding a NUL with no NUL before it is the `strlen` of the buffer. */
  lemma {:induction false} FirstNulIsStrLen(s: seq<Byte>, n: nat)
    requires n < |s| && s[n] == 0 && 0 !in s[..n]
    ensures StrLen(s) == n
  {
    if n > 0 {
      assert s[0] in s[..n];
      assert s[1..][..n - 1] == s[1..n];
      assert forall x :: x in s[1..n] ==> x in s[..n];
      FirstNulIsStrLen(s[1..], n - 1);
    }
  }

  /**
   * A character without a symbol (a space, say) contributes one 2000 ms OFF
   * step and nothing else, and does not touch the intercode flag.
   */
  lemma UncodedCharIsGapOnly(c: Byte, ic: bool)
    requires !IsCoded(c as int)
    ensures CharTimeline(c, ic) == [Rearm(false, InterletterTimeMs)]
    ensures IntercodeAfter(McodeString(c as int), ic) == ic
  {
  }

  /** A character with a symbol ends with its last pulse then the 2000 ms gap, and raises the intercode flag. */
  lemma CodedCharEndsWithGap(c: Byte, ic: bool)
    requires IsCoded(c as int)
    ensures var t := CharTimeline(c, ic);
      |t| >= 2 && t[|t| - 1] == Rearm(false, InterletterTimeMs) && t[|t| - 2].ledOn
    ensures IntercodeAfter(McodeString(c as int), ic)
  {
    var s := McodeString(c as int);
    SymbolPulsesEndWithPulse(s, ic);
  }

  lemma {:induction false} SymbolPulsesEndWithPulse(s: string, ic: bool)
    requires IsSymbol(s) && s != []
    ensures var t := SymbolPulses(s, ic);
      t[|t| - 1] == Rearm(true, PulseDelay(s[|s| - 1]))
  {
    if |s| > 1 {
      SymbolPulsesEndWithPulse(s[1..], true);
      assert s[1..][|s| - 2] == s[|s| - 1];
    }
  }

  /**
   * A later transmission whose first character has a symbol starts with a
   * 250 ms OFF step when the intercode flag was left set, and with the first
   * pulse otherwise.
   */
  lemma FirstStepOfCodedStart(m: seq<Byte>, ic: bool)
    requires m != [] && IsCoded(m[0] as int)
    ensures MessageTimeline(m, ic)[0] ==
      if ic then Rearm(false, IntercodeTimeMs) else Rearm(true, PulseDelay(McodeString(m[0] as int)[0]))
  {
  }

  /**
   * The timeline of "sos" on a first transmission: three dots, the letter gap,
   * a 250 ms OFF step and three dashes, the letter gap, a 250 ms OFF step and
   * three dots, the letter gap.
   */
  lemma SosTimeline()
    ensures MessageTimeline(['s' as int as Byte, 'o' as int as Byte, 's' as int as Byte], false) == [
      Rearm(true, 500), Rearm(false, 250), Rearm(true, 500), Rearm(false, 250), Rearm(true, 500), Rearm(false, 2000),
      Rearm(false, 250), Rearm(true, 1500), Rearm(false, 250), Rearm(true, 1500), Rearm(false, 250), Rearm(true, 1500), Rearm(false, 2000),
      Rearm(false, 250), Rearm(true, 500), Rearm(false, 250), Rearm(true, 500), Rearm(false, 250), Rearm(true, 500), Rearm(false, 2000)]
  {
    var s, o := 's' as int as Byte, 'o' as int as Byte;
    var m := [s, o, s];
    SosCharacters();
    assert m[1..] == [o, s] && m[1..][1..] == [s];
    assert IntercodeAfter(McodeString(s as int), false) && IntercodeAfter(McodeString(o as int), true);
    assert MessageTimeline([s], true) == CharTimeline(s, true);
    assert MessageTimeline([o, s], true) == CharTimeline(o, true) + CharTimeline(s, true);
    assert MessageTimeline(m, false) == CharTimeline(s, false) + (CharTimeline(o, true) + CharTimeline(s, true));
  }

  /** The three character timelines of "sos": 's' without and with a pulse before it, and 'o' after one. */
  lemma SosCharacters()
    ensures var dot, dash, gap, letter := Rearm(true, 500), Rearm(true, 1500), Rearm(false, 250), Rearm(false, 2000);
      CharTimeline('s' as int as Byte, false) == [dot, gap, dot, gap, dot, letter] &&
      CharTimeline('o' as int as Byte, true) == [gap, dash, gap, dash, gap, dash, letter] &&
      CharTimeline('s' as int as Byte, true) == [gap, dot, gap, dot, gap, dot, letter]
  {
    SampleSymbols();
    ThreePulses('.', false);
    ThreePulses('.', true);
    ThreePulses('-', true);
  }

  /** A symbol of three equal pulses: the pulses with their 250 ms gaps, and one more gap in front when a pulse came before. */
  lemma ThreePulses(c: char, ic: bool)
    requires c == '.' || c == '-'
    ensures var p := Rearm(true, PulseDelay(c));
      SymbolPulses([c, c, c], ic) ==
        (if ic then [Rearm(false, IntercodeTimeMs)] else []) + [p, Rearm(false, IntercodeTimeMs), p, Rearm(false, IntercodeTimeMs), p]
  {
    var p, gap := Rearm(true, PulseDelay(c)), Rearm(false, IntercodeTimeMs);
    assert [c, c, c][1..] == [c, c] && [c, c][1..] == [c] && [c][1..] == [];
    assert SymbolPulses([c], true) == [gap, p];
    assert SymbolPulses([c, c], true) == [gap, p, gap, p];
  }

}
