/**
 * The transmission sequencer of the Morse LED driver (mc.c): the module state
 * that `dev_write` initialises and that every run of the timer callback
 * `mc_tx_timer_callback` advances by exactly one step.
 *
 * `State` is the value of that module state, `Next` is one callback run as a
 * function of it, and `Trace`/`Settle` are what repeated callbacks produce.
 * `MessageTimeline` is an independent, character-by-character description of
 * the same timeline. The class `McDriver.Driver` holds the state in fields,
 * as the driver's globals do, and its methods are proved against these
 * functions.
 */
module Transmitter {
  import opened McodeTable

  /** One byte of the message buffer. */
  newtype Byte = x: int | 0 <= x < 256

  /** Size of the static message buffer. */
  const BufferSize: nat := 256

  /**
   * What one callback does with the timer: `Done` leaves it disarmed (the
   * transmission is over); `Rearm` sets the LED to `ledOn` and schedules the
   * next callback after `delayMs` milliseconds.
   */
  datatype Action = Done | Rearm(ledOn: bool, delayMs: nat)

  /**
   * The driver's module state: the message buffer, the character cursor
   * `messageItr`, the symbol cursor `mcodeItr`, the `intercode` flag (a pulse
   * was just emitted), the message length `mlength`, the current symbol's
   * length `mcodelength`, the LED output, and whether the LED is handed back
   * to its heartbeat trigger.
   */
  datatype State = State(
    msg: seq<Byte>,
    messageItr: int,
    mcodeItr: int,
    intercode: bool,
    mlength: int,
    mcodelength: int,
    led: bool,
    heartbeat: bool)

  /** `strlen`: the index of the first NUL byte. */
  function StrLen(s: seq<Byte>): (n: nat)
    requires 0 in s
    ensures n < |s| && s[n] == 0 && 0 !in s[..n]
  {
    if s[0] == 0 then 0
    else
      var n := StrLen(s[1..]);
      assert s[..n + 1] == [s[0]] + s[1..][..n];
      n + 1
  }

  /** The symbol of the character at buffer position `i`. */
  function SymbolAt(st: State, i: int): string
    requires 0 <= i < |st.msg|
  {
    McodeString(st.msg[i] as int)
  }

  /**
   * The state invariant the callbacks keep: both cursors within bounds, the
   * length inside the buffer, and, while characters remain, `mcodelength`
   * equal to the length of the current character's symbol.
   */
  predicate Inv(st: State) {
    |st.msg| == BufferSize &&
    0 <= st.messageItr <= st.mlength < BufferSize &&
    0 <= st.mcodeItr <= st.mcodelength &&
    (st.messageItr < st.mlength ==> st.mcodelength == |SymbolAt(st, st.messageItr)|)
  }

  /** No transmission in progress: the cursors are where loading or a completion leaves them. */
  predicate Idle(st: State) {
    st.messageItr == 0 && st.mcodeItr == 0
  }

  /** The progress measure, compared lexicographically. */
  function Rank(st: State): (int, int, int) {
    (st.mlength - st.messageItr, st.mcodelength - st.mcodeItr, if st.intercode then 1 else 0)
  }

  predicate RankBelow(a: (int, int, int), b: (int, int, int)) {
    0 <= a.0 && 0 <= a.1 && 0 <= a.2 &&
    (a.0 < b.0 || (a.0 == b.0 && (a.1 < b.1 || (a.1 == b.1 && a.2 < b.2))))
  }

  /**
   * How long the LED stays on for a pulse of the given symbol character: the
   * dot length exactly for a dot, the dash length exactly for a dash, and in
   * either case longer than the gap after a pulse and shorter than the gap
   * after a character.
   */
  function PulseDelay(c: char): (d: nat)
    requires c == '.' || c == '-'
    ensures d == DotTimeMs <==> c == '.'
    ensures d == DashTimeMs <==> c == '-'
    ensures IntercodeTimeMs < d < InterletterTimeMs
  {
    if c == '.' then DotTimeMs else DashTimeMs
  }

  /**
   * One run of the timer callback. The four branches are tested in the
   * driver's order: completion, inter-letter gap, intra-symbol gap, pulse.
   * The invariant is kept, completion happens exactly when the character
   * cursor has passed the message, and every other step lowers the rank.
   */
  function Next(st: State): (r: (Action, State))
    requires Inv(st)
    ensures Inv(r.1)
    ensures r.0 == Done <==> st.messageItr >= st.mlength
    ensures r.0 != Done ==> RankBelow(Rank(r.1), Rank(st))
  {
    if st.messageItr > st.mlength - 1 then
      (Done, st.(messageItr := 0, mcodeItr := 0, mlength := 0, mcodelength := 0, heartbeat := true))
    else if st.mcodeItr > st.mcodelength - 1 then
      var itr := st.messageItr + 1;
      (Rearm(false, InterletterTimeMs),
       st.(mcodeItr := 0, messageItr := itr, mcodelength := |SymbolAt(st, itr)|, led := false))
    else if st.intercode then
      (Rearm(false, IntercodeTimeMs), st.(intercode := false, led := false))
    else
      var c := SymbolAt(st, st.messageItr)[st.mcodeItr];
      (Rearm(true, PulseDelay(c)), st.(intercode := true, led := true, mcodeItr := st.mcodeItr + 1))
  }

  /** The actions of the callbacks from `st` on, up to and including the completing one. */
  function Trace(st: State): (t: seq<Action>)
    requires Inv(st)
    ensures |t| > 0 && t[|t| - 1] == Done
    ensures forall k :: 0 <= k < |t| - 1 ==> t[k].Rearm?
    decreases Rank(st).0, Rank(st).1, Rank(st).2
  {
    var (a, st') := Next(st);
    if a == Done then [Done] else [a] + Trace(st')
  }

  /** The state the completing callback leaves behind. */
  function Settle(st: State): (s: State)
    requires Inv(st)
    ensures Inv(s) && Idle(s) && s.mlength == 0 && s.heartbeat && s.msg == st.msg
    decreases Rank(st).0, Rank(st).1, Rank(st).2
  {
    var (a, st') := Next(st);
    if a == Done then st' else Settle(st')
  }

  /**
   * The module state after `dev_write` has copied `buffer` in, measured the
   * message and its first symbol, and switched the LED trigger off (which
   * turns the LED off).
   */
  function Written(st: State, buffer: seq<Byte>): (s: State)
    requires Inv(st) && Idle(st)
    requires |buffer| <= BufferSize
    requires 0 in buffer + st.msg[|buffer|..]
    ensures Inv(s) && Idle(s)
    ensures s.msg == buffer + st.msg[|buffer|..] && s.msg[s.mlength] == 0 && 0 !in s.msg[..s.mlength]
  {
    var m := buffer + st.msg[|buffer|..];
    st.(msg := m, mlength := StrLen(m), mcodelength := |McodeString(m[0] as int)|, led := false, heartbeat := false)
  }

  // ---------------------------------------------------------------------------
  // Reference description of the timeline, one character at a time.

  /**
   * The steps that send a symbol: each pulse is an ON step of the dot or dash
   * length, and is preceded by a 250 ms OFF step when a pulse came before it
   * (`ic`, the intercode flag at that point).
   */
  function SymbolPulses(s: string, ic: bool): (t: seq<Action>)
    requires IsSymbol(s)
    ensures |t| == if s == [] then 0 else 2 * |s| - (if ic then 0 else 1)
    ensures forall k :: 0 <= k < |t| ==> t[k].Rearm?
  {
    if s == [] then []
    else (if ic then [Rearm(false, IntercodeTimeMs)] else []) + [Rearm(true, PulseDelay(s[0]))] + SymbolPulses(s[1..], true)
  }

  /** The intercode flag after sending symbol `s`: set once any pulse was emitted. */
  function IntercodeAfter(s: string, ic: bool): bool {
    ic || s != []
  }

  /** One character: its pulses, then the 2000 ms OFF step. */
  function CharTimeline(c: Byte, ic: bool): seq<Action> {
    SymbolPulses(McodeString(c as int), ic) + [Rearm(false, InterletterTimeMs)]
  }

  /** The steps before completion for message `m`, starting with the intercode flag `ic`. */
  function MessageTimeline(m: seq<Byte>, ic: bool): (t: seq<Action>)
    ensures |t| >= |m|
    ensures forall k :: 0 <= k < |t| ==> t[k].Rearm?
  {
    if m == [] then []
    else
      var head := CharTimeline(m[0], ic);
      var tail := MessageTimeline(m[1..], IntercodeAfter(McodeString(m[0] as int), ic));
      assert forall k :: 0 <= k < |head| ==> head[k].Rearm?;
      head + tail
  }

  /**
   * The intercode flag once message `m` is sent: still `ic` unless some
   * character of `m` has a symbol.
   */
  function FinalIntercode(m: seq<Byte>, ic: bool): (r: bool)
    ensures r <==> ic || exists k :: 0 <= k < |m| && IsCoded(m[k] as int)
  {
    if m == [] then ic
    else
      var r := FinalIntercode(m[1..], IntercodeAfter(McodeString(m[0] as int), ic));
      assert forall k :: 1 <= k < |m| ==> m[k] == m[1..][k - 1];
      r
  }
}
