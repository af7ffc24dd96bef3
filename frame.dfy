/** What one frame of `Console::Update` does to the transcript, to the pending
    waits and to the line being typed, as functions of the state before the
    frame. The `Console` class runs these steps in place and is proved to
    compute exactly these functions. */
module Frame {

  /** `LogEntry`: a transcript line and the seconds it stays visible. */
  datatype LogEntry = LogEntry(text: string, timeAlive: real)

  /** `LogDuration`: the lifetime every new transcript line starts with. */
  const LogDuration: real := 5.0

  /** `PendingWait`: a command line that is queued once its time has run out. */
  datatype PendingWait = PendingWait(remainingTime: real, nextCommand: string)

  function Aged(e: LogEntry, dt: real): LogEntry {
    e.(timeAlive := e.timeAlive - dt)
  }

  /** The transcript after `dt` seconds: every lifetime drops by `dt` and the
      entries at or below zero are removed. */
  function Decay(log: seq<LogEntry>, dt: real): (r: seq<LogEntry>)
    ensures |r| <= |log|
    ensures forall i :: 0 <= i < |r| ==> r[i].timeAlive > 0.0
  {
    if log == [] then []
    else
      var e := Aged(log[|log| - 1], dt);
      Decay(log[..|log| - 1], dt) + (if e.timeAlive <= 0.0 then [] else [e])
  }

  /** Decay works entry by entry: the survivors keep their relative order. */
  lemma {:induction false} DecayAppend(a: seq<LogEntry>, b: seq<LogEntry>, dt: real)
    ensures Decay(a + b, dt) == Decay(a, dt) + Decay(b, dt)
    decreases |b|
  {
    if b == [] {
      assert a + b == a;
    } else {
      var c := a + b;
      var bl := b[..|b| - 1];
      assert c[..|c| - 1] == a + bl;
      assert c[|c| - 1] == b[|b| - 1];
      DecayAppend(a, bl, dt);
    }
  }

  /** An entry survives a tick exactly when it had more than `dt` seconds
      left, and then it has `dt` seconds less. */
  lemma {:induction false} DecaySurvivors(log: seq<LogEntry>, dt: real, e: LogEntry)
    ensures e in Decay(log, dt) <==> e.timeAlive > 0.0 && LogEntry(e.text, e.timeAlive + dt) in log
    decreases |log|
  {
    if log != [] {
      var front := log[..|log| - 1];
      var last := log[|log| - 1];
      DecaySurvivors(front, dt, e);
      assert log == front + [last];
      assert LogEntry(e.text, e.timeAlive + dt) in log <==>
             LogEntry(e.text, e.timeAlive + dt) in front || LogEntry(e.text, e.timeAlive + dt) == last;
    }
  }

  lemma DecayOne(e: LogEntry, dt: real)
    ensures Decay([e], dt) == if e.timeAlive - dt <= 0.0 then [] else [Aged(e, dt)]
  {
    assert [e][..0] == [];
  }

  /** The last entry after two ticks is the last entry after one tick of both lengths. */
  lemma LastAfterTwoTicks(e: LogEntry, a: real, b: real)
    requires b >= 0.0
    ensures var kept := if e.timeAlive - a <= 0.0 then [] else [Aged(e, a)];
            Decay(kept, b) == if e.timeAlive - (a + b) <= 0.0 then [] else [Aged(e, a + b)]
  {
    if e.timeAlive - a > 0.0 {
      DecayOne(Aged(e, a), b);
    }
  }

  /** Two ticks of `a` and then `b` seconds (time never runs backwards)
      leave the transcript one tick of `a + b` seconds leaves. */
  lemma {:induction false} DecayCompose(log: seq<LogEntry>, a: real, b: real)
    requires b >= 0.0
    ensures Decay(Decay(log, a), b) == Decay(log, a + b)
    decreases |log|
  {
    if log != [] {
      var front := log[..|log| - 1];
      var e := log[|log| - 1];
      var kept := if e.timeAlive - a <= 0.0 then [] else [Aged(e, a)];
      assert Decay(log, a) == Decay(front, a) + kept;
      DecayCompose(front, a, b);
      DecayAppend(Decay(front, a), kept, b);
      LastAfterTwoTicks(e, a, b);
    }
  }

  /** A line logged with the full `LogDuration` is still shown, with the time
      left, before five seconds have passed, and is gone once they have. */
  lemma LogLineLifetime(text: string, t: real)
    requires t >= 0.0
    ensures t < LogDuration ==> Decay([LogEntry(text, LogDuration)], t) == [LogEntry(text, LogDuration - t)]
    ensures t >= LogDuration ==> Decay([LogEntry(text, LogDuration)], t) == []
  {
    var log := [LogEntry(text, LogDuration)];
    assert log[..0] == [];
  }

  /** The commands of the waits that run out during a tick of `dt`, in list order. */
  function Matured(waits: seq<PendingWait>, dt: real): (r: seq<string>)
    ensures |r| <= |waits|
  {
    if waits == [] then []
    else
      var w := waits[|waits| - 1];
      Matured(waits[..|waits| - 1], dt) + (if w.remainingTime - dt <= 0.0 then [w.nextCommand] else [])
  }

  /** The waits left after a tick of `dt`, each `dt` seconds shorter. */
  function Pending(waits: seq<PendingWait>, dt: real): (r: seq<PendingWait>)
    ensures |r| <= |waits|
    ensures forall i :: 0 <= i < |r| ==> r[i].remainingTime > 0.0
  {
    if waits == [] then []
    else
      var w := waits[|waits| - 1];
      var t := w.remainingTime - dt;
      Pending(waits[..|waits| - 1], dt) + (if t <= 0.0 then [] else [PendingWait(t, w.nextCommand)])
  }

  function NextCommands(waits: seq<PendingWait>): (r: seq<string>)
    ensures |r| == |waits| && forall i :: 0 <= i < |waits| ==> r[i] == waits[i].nextCommand
  {
    seq(|waits|, i requires 0 <= i < |waits| => waits[i].nextCommand)
  }

  /** Every wait either fires or stays: none is lost and none is duplicated. */
  lemma {:induction false} WaitsPartition(waits: seq<PendingWait>, dt: real)
    ensures |Matured(waits, dt)| + |Pending(waits, dt)| == |waits|
    ensures multiset(Matured(waits, dt)) + multiset(NextCommands(Pending(waits, dt)))
            == multiset(NextCommands(waits))
    decreases |waits|
  {
    if waits != [] {
      var front := waits[..|waits| - 1];
      var w := waits[|waits| - 1];
      WaitsPartition(front, dt);
      assert NextCommands(waits) == NextCommands(front) + [w.nextCommand];
      var t := w.remainingTime - dt;
      if t > 0.0 {
        assert NextCommands(Pending(waits, dt)) == NextCommands(Pending(front, dt)) + [w.nextCommand];
      } else {
        assert Pending(waits, dt) == Pending(front, dt);
      }
    }
  }

  /** Waits fire in list order: those of an earlier part of the list are
      queued before those of a later part. */
  lemma {:induction false} MaturedAppend(a: seq<PendingWait>, b: seq<PendingWait>, dt: real)
    ensures Matured(a + b, dt) == Matured(a, dt) + Matured(b, dt)
    decreases |b|
  {
    if b == [] {
      assert a + b == a;
    } else {
      var bl, w := b[..|b| - 1], b[|b| - 1];
      assert b == bl + [w];
      assert a + b == (a + bl) + [w];
      MaturedAppend(a, bl, dt);
      MaturedSnoc(a + bl, w, dt);
      MaturedSnoc(bl, w, dt);
    }
  }

  /** The same holds for the waits left over, which keep their order. */
  lemma {:induction false} PendingAppend(a: seq<PendingWait>, b: seq<PendingWait>, dt: real)
    ensures Pending(a + b, dt) == Pending(a, dt) + Pending(b, dt)
    decreases |b|
  {
    if b == [] {
      assert a + b == a;
    } else {
      var bl, w := b[..|b| - 1], b[|b| - 1];
      assert b == bl + [w];
      assert a + b == (a + bl) + [w];
      PendingAppend(a, bl, dt);
      PendingSnoc(a + bl, w, dt);
      PendingSnoc(bl, w, dt);
    }
  }

  lemma MaturedSnoc(s: seq<PendingWait>, w: PendingWait, dt: real)
    ensures Matured(s + [w], dt) == Matured(s, dt) + (if w.remainingTime - dt <= 0.0 then [w.nextCommand] else [])
  {
    assert (s + [w])[..|s|] == s;
  }

  lemma PendingSnoc(s: seq<PendingWait>, w: PendingWait, dt: real)
    ensures var t := w.remainingTime - dt;
            Pending(s + [w], dt) == Pending(s, dt) + (if t <= 0.0 then [] else [PendingWait(t, w.nextCommand)])
  {
    assert (s + [w])[..|s|] == s;
  }

  /** A wait stays pending exactly when more than `dt` seconds were left, and
      keeps the time that remains. */
  lemma {:induction false} PendingSurvivors(waits: seq<PendingWait>, dt: real, p: PendingWait)
    ensures p in Pending(waits, dt) <==>
            p.remainingTime > 0.0 && PendingWait(p.remainingTime + dt, p.nextCommand) in waits
    decreases |waits|
  {
    if waits != [] {
      var front := waits[..|waits| - 1];
      var last := waits[|waits| - 1];
      PendingSurvivors(front, dt, p);
      assert waits == front + [last];
      assert PendingWait(p.remainingTime + dt, p.nextCommand) in waits <==>
             PendingWait(p.remainingTime + dt, p.nextCommand) in front
             || PendingWait(p.remainingTime + dt, p.nextCommand) == last;
    }
  }

  // ---- the input line ----

  /** `ImWchar`: a 16-bit character code from the input queue. */
  newtype WChar = c: int | 0 <= c < 0x1_0000

  /** The characters a frame appends to the input line: codes of at least 32
      other than 127, each cast to an 8-bit `char` (its low byte). */
  function Printable(chars: seq<WChar>): (r: string)
    ensures |r| <= |chars|
    ensures forall i :: 0 <= i < |r| ==> r[i] as int < 256
  {
    if chars == [] then []
    else
      var c := chars[|chars| - 1];
      Printable(chars[..|chars| - 1]) + (if c >= 32 && c != 127 then [((c as int) % 256) as char] else [])
  }

  /** Plain ASCII text is appended unchanged. */
  lemma {:induction false} PrintableAscii(chars: seq<WChar>)
    requires forall i :: 0 <= i < |chars| ==> 32 <= chars[i] < 127
    ensures |Printable(chars)| == |chars|
    ensures forall i :: 0 <= i < |chars| ==> Printable(chars)[i] == (chars[i] as int) as char
    decreases |chars|
  {
    if chars != [] {
      var front := chars[..|chars| - 1];
      PrintableAscii(front);
    }
  }

  /** Control codes below 32 and DEL are dropped. */
  lemma {:induction false} ControlsDropped(chars: seq<WChar>)
    requires forall i :: 0 <= i < |chars| ==> chars[i] < 32 || chars[i] == 127
    ensures Printable(chars) == []
    decreases |chars|
  {
    if chars != [] {
      ControlsDropped(chars[..|chars| - 1]);
    }
  }

  /** The filter looks at the 16-bit code but keeps only its low byte, so a
      wide character such as U+010A becomes a line feed in the input line. */
  lemma WideCharTruncates()
    ensures Printable([0x10A]) == "\n"
  {
    var chars: seq<WChar> := [0x10A];
    assert chars[..0] == [];
  }

  /** The keys of one frame: the slash toggle, the typed characters,
      backspace and enter. */
  datatype Keys = Keys(slash: bool, chars: seq<WChar>, backspace: bool, enter: bool)

  /** `IsActive`, `InputBuffer` and `QueuedCommands`. */
  datatype Input = Input(active: bool, buffer: string, queue: seq<string>)

  /** The line after typing and backspace, before enter is looked at. */
  function Edited(buffer: string, k: Keys): (r: (bool, string))
    ensures r.1 <= buffer + Printable(k.chars)
    ensures |buffer + Printable(k.chars)| - |r.1| == if k.backspace && buffer + Printable(k.chars) != [] then 1 else 0
    ensures !r.0 <==> k.backspace && buffer == [] && Printable(k.chars) == []
  {
    var typed := buffer + Printable(k.chars);
    if k.backspace && typed != [] then (true, typed[..|typed| - 1])
    else if typed == [] && k.backspace then (false, typed)
    else (true, typed)
  }

  /** The input session after one frame. */
  function InputStep(s: Input, k: Keys): (r: Input)
    ensures s.queue <= r.queue && |r.queue| <= |s.queue| + 1
    ensures r.active ==> !k.enter && r.queue == s.queue
  {
    var active := s.active != k.slash;
    if !active then s.(active := false)
    else
      var (stays, line) := Edited(s.buffer, k);
      if k.enter then Input(false, [], s.queue + [line]) else Input(stays, line, s.queue)
  }

  /** While the console is closed after the toggle, the line and the queue are untouched. */
  lemma ClosedKeepsLine(s: Input, k: Keys)
    requires s.active == k.slash
    ensures InputStep(s, k) == Input(false, s.buffer, s.queue)
  {
  }

  /** With neither backspace nor enter, slash alone decides whether the console is open. */
  lemma SlashToggles(s: Input, k: Keys)
    requires !k.backspace && !k.enter
    ensures InputStep(s, k).active == (s.active != k.slash)
  {
  }

  /** While open, the printable characters are appended to the line. */
  lemma TypingAppends(s: Input, k: Keys)
    requires s.active != k.slash && !k.backspace && !k.enter
    ensures InputStep(s, k) == Input(true, s.buffer + Printable(k.chars), s.queue)
  {
  }

  /** Backspace removes the last character, or closes the console when the line is empty. */
  lemma BackspacePops(s: Input, k: Keys)
    requires s.active != k.slash && k.backspace && !k.enter
    ensures var typed := s.buffer + Printable(k.chars);
            if typed == [] then InputStep(s, k) == Input(false, [], s.queue)
            else InputStep(s, k) == Input(true, typed[..|typed| - 1], s.queue)
  {
  }

  /** Enter queues the line, even an empty one, clears it and closes the console. */
  lemma EnterSubmits(s: Input, k: Keys)
    requires s.active != k.slash && k.enter
    ensures InputStep(s, k) == Input(false, [], s.queue + [InputStep(s, k.(enter := false)).buffer])
  {
  }
}
