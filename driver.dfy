/**
 * The driver's module globals (mc.c) as one object: the static message
 * buffer, the cursors and lengths, the LED output and its trigger. `Write` is
 * `dev_write`, `Step` is `mc_tx_timer_callback`, and `Run` stands for the
 * kernel timer that calls the callback again after each delay it asks for.
 */
module McDriver {
  import opened McodeTable
  import opened Transmitter
  import opened TransmitterProofs

  class Driver {
    var message: array<Byte>
    var messageItr: int
    var mcodeItr: int
    var intercode: bool
    var mlength: int
    var mcodelength: int
    var led: bool
    var heartbeat: bool

    /** The module state the fields hold. */
    ghost function Snapshot(): State
      reads this, message
    {
      State(message[..], messageItr, mcodeItr, intercode, mlength, mcodelength, led, heartbeat)
    }

    ghost predicate Valid()
      reads this, message
    {
      message.Length == BufferSize && Inv(Snapshot())
    }

    /** Module load: a zeroed buffer, zeroed counters, the LED off and under its heartbeat trigger. */
    constructor ()
      ensures Valid() && Idle(Snapshot()) && fresh(message)
      ensures Snapshot() == State(seq(BufferSize, _ => 0), 0, 0, false, 0, 0, false, true)
    {
      message := new Byte[BufferSize](_ => 0);
      messageItr, mcodeItr, intercode := 0, 0, false;
      mlength, mcodelength := 0, 0;
      led, heartbeat := false, true;
    }

    /**
     * `dev_write`: copy `buffer` over the start of the message buffer (the
     * bytes after it keep their old contents), take the length up to the
     * first NUL, measure the first character's symbol, and switch the LED
     * trigger off. Arming the timer is the caller's next `Run`.
     */
    method Write(buffer: seq<Byte>) returns (written: int)
      requires Valid() && Idle(Snapshot())
      requires |buffer| <= BufferSize
      requires 0 in buffer + message[|buffer|..]
      modifies this, message
      ensures Valid() && message == old(message)
      ensures written == |buffer|
      ensures message[..] == buffer + old(message[..])[|buffer|..]
      ensures Snapshot() == Written(old(Snapshot()), buffer)
    {
      forall i | 0 <= i < |buffer| {
        message[i] := buffer[i];
      }
      assert message[..] == buffer + old(message[..])[|buffer|..];
      mlength := StrLen(message[..]);
      mcodelength := |McodeString(message[0] as int)|;
      led, heartbeat := false, false;
      written := |buffer|;
    }

    /**
     * `mc_tx_timer_callback`: one step of the sequencer. Each of the four
     * branches, tested in the driver's order, is a method of its own below.
     */
    method Step() returns (a: Action)
      requires Valid()
      modifies this
      ensures Valid() && message == old(message)
      ensures (a, Snapshot()) == Next(old(Snapshot()))
    {
      if messageItr > mlength - 1 {
        a := Complete();
      } else if mcodeItr > mcodelength - 1 {
        a := NextCharacter();
      } else if intercode {
        a := EndPulse();
      } else {
        a := Pulse();
      }
    }

    /** Transmission completed: the LED goes back to its heartbeat trigger and the counters are zeroed. */
    method Complete() returns (a: Action)
      requires Valid() && messageItr > mlength - 1
      modifies this
      ensures Valid() && message == old(message)
      ensures (a, Snapshot()) == Next(old(Snapshot()))
    {
      heartbeat := true;
      messageItr, mcodeItr, mlength, mcodelength := 0, 0, 0, 0;
      a := Done;
    }

    /** Character sent (or it had no symbol): clear the LED for the inter-letter gap and move to the next character. */
    method NextCharacter() returns (a: Action)
      requires Valid() && messageItr <= mlength - 1 && mcodeItr > mcodelength - 1
      modifies this
      ensures Valid() && message == old(message)
      ensures (a, Snapshot()) == Next(old(Snapshot()))
    {
      a := Rearm(false, InterletterTimeMs);
      mcodeItr := 0;
      messageItr := messageItr + 1;
      mcodelength := |McodeString(message[messageItr] as int)|;
      led := false;
    }

    /** A pulse was just sent: clear the LED for the gap inside the symbol. */
    method EndPulse() returns (a: Action)
      requires Valid() && messageItr <= mlength - 1 && mcodeItr <= mcodelength - 1 && intercode
      modifies this
      ensures Valid() && message == old(message)
      ensures (a, Snapshot()) == Next(old(Snapshot()))
    {
      a := Rearm(false, IntercodeTimeMs);
      intercode := false;
      led := false;
    }

    /** Send the symbol character under the cursor: the LED on for a dot or a dash. */
    method Pulse() returns (a: Action)
      requires Valid() && messageItr <= mlength - 1 && mcodeItr <= mcodelength - 1 && !intercode
      modifies this
      ensures Valid() && message == old(message)
      ensures (a, Snapshot()) == Next(old(Snapshot()))
    {
      ghost var st := Snapshot();
      PulseStep(st);
      var c := McodeString(message[messageItr] as int)[mcodeItr];
      if c == '.' {
        a := Rearm(true, DotTimeMs);
      } else {
        // symbols hold only dots and dashes, so this is the '-' case
        a := Rearm(true, DashTimeMs);
      }
      intercode := true;
      led := true;
      mcodeItr := mcodeItr + 1;
      assert Snapshot() == st.(intercode := true, led := true, mcodeItr := st.mcodeItr + 1);
    }

    /** The timer driver: run callbacks until one completes, collecting their actions. */
    method Run() returns (trace: seq<Action>)
      requires Valid()
      modifies this
      ensures Valid() && message == old(message)
      ensures trace == Trace(old(Snapshot()))
      ensures Snapshot() == Settle(old(Snapshot()))
    {
      ghost var start := Snapshot();
      trace := [];
      var done := false;
      while !done
        invariant Valid() && message == old(message)
        invariant !done ==> Trace(start) == trace + Trace(Snapshot())
        invariant !done ==> Settle(start) == Settle(Snapshot())
        invariant done ==> Trace(start) == trace && Snapshot() == Settle(start)
        decreases if done then 0 else 1, Rank(Snapshot()).0, Rank(Snapshot()).1, Rank(Snapshot()).2
      {
        ghost var before := Snapshot();
        var a := Step();
        ghost var after := Snapshot();
        TraceAdvance(start, before, after, a, trace);
        trace := trace + [a];
        done := a == Done;
      }
    }

    /**
     * A whole transmission: `dev_write` and then the timer callbacks until one
     * completes. The actions are the character-by-character timeline of the
     * bytes before the first NUL, starting from the intercode flag the
     * previous transmission left, followed by completion; the driver ends idle
     * with the LED off and back under its heartbeat trigger.
     */
    method Send(buffer: seq<Byte>) returns (written: int, trace: seq<Action>)
      requires Valid() && Idle(Snapshot())
      requires |buffer| <= BufferSize
      requires 0 in buffer + message[|buffer|..]
      modifies this, message
      ensures Valid() && message == old(message)
      ensures written == |buffer|
      ensures message[..] == buffer + old(message[..])[|buffer|..]
      ensures var text := message[..StrLen(message[..])];
        trace == MessageTimeline(text, old(intercode)) + [Done] &&
        intercode == FinalIntercode(text, old(intercode))
      ensures Idle(Snapshot()) && mlength == 0 && mcodelength == 0 && !led && heartbeat
    {
      ghost var st := Snapshot();
      WriteThenRun(st, buffer);
      written := Write(buffer);
      trace := Run();
    }
  }
}
