/** The control loop of `main.py`: the dispatch of `[CMD] ...` strings taken
    from the command queue, the IR-state report that follows every pass, and
    the five-minute IR auto-off timer of the data logger. The queues are
    sequences, the subscriber CSV file is its list of rows, and the image
    grab is an outcome handed in. */
module ControlLoop {
  import opened Wrappers
  import PyText
  import Camera

  // ----------------------------------------------------------------- dispatch

  /** The substrings the dispatch tests, in the order it tests them. */
  const Patterns: seq<string> := ["[CMD] IR ON", "[CMD] IR OFF", "[CMD] GET IR STATE",
                                  "[CMD] add newsletter=", "[CMD] remove newsletter=", "[CMD] save image"]

  datatype Kind = IrOn | IrOff | GetIrState | AddNewsletter | RemoveNewsletter | SaveImage | NoMatch

  /** The branch each pattern selects, position by position. */
  const Kinds: seq<Kind> := [IrOn, IrOff, GetIrState, AddNewsletter, RemoveNewsletter, SaveImage]

  /** The position of the first pattern, from `from` on, that occurs in `cmd`;
      `|Patterns|` when none does. */
  function FirstPattern(cmd: string, from: nat): (r: nat)
    requires from <= |Patterns|
    ensures from <= r <= |Patterns|
    ensures r < |Patterns| ==> PyText.Contains(cmd, Patterns[r])
    ensures forall j :: from <= j < r ==> !PyText.Contains(cmd, Patterns[j])
    decreases |Patterns| - from
  {
    if from == |Patterns| then from
    else if PyText.Contains(cmd, Patterns[from]) then from
    else FirstPattern(cmd, from + 1)
  }

  /** The `if`/`elif` chain: the first pattern that occurs decides, and a
      command with none of them selects nothing. */
  function Classify(cmd: string): (k: Kind)
    ensures k == NoMatch <==> forall j :: 0 <= j < |Patterns| ==> !PyText.Contains(cmd, Patterns[j])
    ensures forall j :: 0 <= j < |Kinds| && k == Kinds[j] ==>
      PyText.Contains(cmd, Patterns[j]) && forall i :: 0 <= i < j ==> !PyText.Contains(cmd, Patterns[i])
  {
    var i := FirstPattern(cmd, 0);
    if i < |Kinds| then Kinds[i] else NoMatch
  }

  // --------------------------------------------------------------- newsletter

  /** The rows of `newsletter_subscribers.csv`; the first column holds the
      address. */
  type Rows = seq<seq<string>>

  /** Some non-empty row has `email` in its first column. */
  predicate Subscribed(rows: Rows, email: string)
  {
    exists i :: 0 <= i < |rows| && |rows[i]| > 0 && rows[i][0] == email
  }

  /** The address of a newsletter command: the text after the first `=` up
      to the next one, stripped. */
  function EmailOf(cmd: string): (e: string)
    requires '=' in cmd
    ensures '=' !in e
    ensures var i := PyText.FirstIndex(cmd, '=');
      var after := cmd[i + 1..];
      e == PyText.Strip(after[..PyText.FirstIndex(after, '=')])
  {
    PyText.SplitFirst(cmd, '=');
    PyText.SplitFirst(cmd[PyText.FirstIndex(cmd, '=') + 1..], '=');
    PyText.SplitJoin(cmd, '=');
    CountPositive(cmd, '=');
    var parts := PyText.Split(cmd, '=');
    var e := PyText.Strip(parts[1]);
    assert '=' !in parts[1];
    e
  }

  lemma {:induction false} CountPositive(s: string, c: char)
    requires c in s
    ensures PyText.Count(s, c) >= 1
  {
    if s[0] != c {
      CountPositive(s[1..], c);
    }
  }

  /** A text holding a pattern holds each of the pattern's characters. */
  lemma CharOfContained(s: string, pat: string, k: nat)
    requires PyText.Contains(s, pat) && k < |pat|
    ensures pat[k] in s
  {
    PyText.ContainsIff(s, pat);
    var i: nat :| PyText.OccursAt(s, pat, i);
    assert s[i + k] == pat[k];
  }

  /** "add newsletter": the address is appended, creating the file, unless
      some row already starts with it. */
  function AddSubscriber(file: Option<Rows>, email: string): (r: (Option<Rows>, string))
    ensures r.0.Some? && Subscribed(r.0.value, email)
    ensures file.Some? && Subscribed(file.value, email) ==>
      r == (file, "[ACK] Email " + email + " already in newsletter")
    ensures !(file.Some? && Subscribed(file.value, email)) ==>
      && r.1 == "[ACK] Email " + email + " added to newsletter"
      && r.0.value == (if file.Some? then file.value else []) + [[email]]
  {
    var rows := if file.Some? then file.value else [];
    if Subscribed(rows, email) then (file, "[ACK] Email " + email + " already in newsletter")
    else
      var rows' := rows + [[email]];
      assert rows'[|rows|][0] == email;
      (Some(rows'), "[ACK] Email " + email + " added to newsletter")
  }

  /** Adding an address twice leaves the list as adding it once. */
  lemma AddSubscriberIdempotent(file: Option<Rows>, email: string)
    ensures AddSubscriber(AddSubscriber(file, email).0, email).0 == AddSubscriber(file, email).0
  {
  }

  /** The rows written back by "remove newsletter": the first column of every
      non-empty row that does not hold the address, in order. */
  function Keep(rows: Rows, email: string): (r: Rows)
    ensures !Subscribed(r, email)
    ensures forall i :: 0 <= i < |r| ==> |r[i]| == 1
    ensures |r| <= |rows|
  {
    if |rows| == 0 then []
    else
      var rest := Keep(rows[1..], email);
      if |rows[0]| > 0 && rows[0][0] != email then [[rows[0][0]]] + rest else rest
  }

  /** Keep drops exactly the rows naming the address (and empty rows): every
      other row's first cell survives, and nothing else appears. */
  lemma {:induction false} KeepContents(rows: Rows, email: string)
    ensures var r := Keep(rows, email);
      forall i :: 0 <= i < |rows| && |rows[i]| > 0 && rows[i][0] != email ==> [rows[i][0]] in r
    ensures var r := Keep(rows, email);
      forall k :: 0 <= k < |r| ==> exists i :: 0 <= i < |rows| && |rows[i]| > 0 && r[k] == [rows[i][0]]
  {
    var r := Keep(rows, email);
    forall i | 0 <= i < |rows| && |rows[i]| > 0 && rows[i][0] != email
      ensures [rows[i][0]] in r
    {
      KeepHasRow(rows, email, i);
    }
    forall k | 0 <= k < |r|
      ensures exists i :: 0 <= i < |rows| && |rows[i]| > 0 && r[k] == [rows[i][0]]
    {
      var i := KeepSourceRow(rows, email, k);
    }
  }

  /** A non-empty row not naming the address survives as its first cell. */
  lemma {:induction false} KeepHasRow(rows: Rows, email: string, i: nat)
    requires i < |rows| && |rows[i]| > 0 && rows[i][0] != email
    ensures [rows[i][0]] in Keep(rows, email)
    decreases i
  {
    var tail := rows[1..];
    var rest := Keep(tail, email);
    if i > 0 {
      assert rows[i] == tail[i - 1];
      KeepHasRow(tail, email, i - 1);
    }
  }

  /** The row a kept entry came from: entry `k` of the rewritten list is the
      first cell of row `i`, a non-empty row not naming the address. */
  lemma {:induction false} KeepSourceRow(rows: Rows, email: string, k: nat) returns (i: nat)
    requires k < |Keep(rows, email)|
    ensures i < |rows| && |rows[i]| > 0 && rows[i][0] != email && Keep(rows, email)[k] == [rows[i][0]]
    decreases |rows|
  {
    var tail := rows[1..];
    var rest := Keep(tail, email);
    var head := |rows[0]| > 0 && rows[0][0] != email;
    assert Keep(rows, email) == if head then [[rows[0][0]]] + rest else rest;
    if head && k == 0 {
      i := 0;
    } else {
      var k' := if head then k - 1 else k;
      assert Keep(rows, email)[k] == rest[k'];
      var j := KeepSourceRow(tail, email, k');
      assert rows[j + 1] == tail[j];
      i := j + 1;
    }
  }

  /** On a one-column list without the address and without blank rows,
      nothing is removed. */
  lemma {:induction false} KeepOthers(rows: Rows, email: string)
    requires forall i :: 0 <= i < |rows| ==> |rows[i]| == 1 && rows[i][0] != email
    ensures Keep(rows, email) == rows
  {
    if |rows| > 0 {
      var rest := rows[1..];
      assert forall i :: 0 <= i < |rest| ==> rest[i] == rows[i + 1];
      KeepOthers(rest, email);
      assert rows[0] == [rows[0][0]];
      assert Keep(rows, email) == [rows[0]] + Keep(rest, email);
      assert rows == [rows[0]] + rest;
    }
  }

  /** "remove newsletter": a missing file is reported; otherwise the list is
      rewritten and the removal acknowledged, whether or not the address was
      on it. */
  function RemoveSubscriber(file: Option<Rows>, email: string): (r: (Option<Rows>, string))
    ensures file.None? <==> r == (None, "[ACK] Newsletter file not found")
    ensures file.Some? ==> r.0.Some? && !Subscribed(r.0.value, email)
    ensures file.Some? ==> r == (Some(Keep(file.value, email)), "[ACK] Email " + email + " removed from newsletter")
  {
    match file
    case None => (None, "[ACK] Newsletter file not found")
    case Some(rows) => (Some(Keep(rows, email)), "[ACK] Email " + email + " removed from newsletter")
  }

  /** Removing after adding leaves the address off the list, and the other
      one-column rows where they were. */
  lemma AddThenRemove(rows: Rows, email: string)
    requires forall i :: 0 <= i < |rows| ==> |rows[i]| == 1 && rows[i][0] != email
    ensures RemoveSubscriber(AddSubscriber(Some(rows), email).0, email).0 == Some(rows)
  {
    var added := AddSubscriber(Some(rows), email).0.value;
    assert added == rows + [[email]];
    KeepSplit(rows, [[email]], email);
    KeepOthers(rows, email);
    assert [[email]][1..] == [];
    assert Keep([[email]], email) == [];
    assert Keep(added, email) == rows;
  }

  lemma {:induction false} KeepSplit(a: Rows, b: Rows, email: string)
    ensures Keep(a + b, email) == Keep(a, email) + Keep(b, email)
  {
    if |a| == 0 {
      assert a + b == b;
    } else {
      assert (a + b)[1..] == a[1..] + b;
      KeepSplit(a[1..], b, email);
    }
  }

  // ------------------------------------------------------------- the loop

  /** The state the loop works on: the LED, the acknowledgement and report
      queues, the subscriber file (None when it does not exist) and the
      remembered LED state. */
  datatype Main = Main(camera: Camera.Camera, acks: seq<string>, reports: seq<string>,
                       subscribers: Option<Rows>, oldLed: bool)

  /** What a pass reads from outside: the clock, the clock as
      `%Y%m%d_%H%M%S`, and whether the frame grab succeeded. */
  datatype Env = Env(now: real, stamp: string, grabbed: bool)

  function OnOff(b: bool): string
  {
    if b then "ON" else "OFF"
  }

  /** The acknowledgement of "save image". */
  function ImageAck(env: Env): string
  {
    if env.grabbed then "[ACK] Image saved to gallery/" + env.stamp + ".jpg"
    else "[ACK] Failed to save image: MediaMTX server error"
  }

  /** One command taken from the queue (None: the 0.1 s `get` timed out), with
      the address of a newsletter command read as intended: the stripped text
      after `=`. Each recognised command pushes exactly one acknowledgement;
      an unrecognised one pushes none. Reports are untouched, the LED changes
      only for IR ON/OFF and the list only for the newsletter commands. */
  function Dispatch(m: Main, cmd: Option<string>, env: Env): (r: Main)
    ensures r.reports == m.reports && r.oldLed == m.oldLed
    ensures cmd.None? || Classify(cmd.value) == NoMatch ==> r == m
    ensures cmd.Some? && Classify(cmd.value) != NoMatch ==> |r.acks| == |m.acks| + 1 && r.acks[..|m.acks|] == m.acks
    ensures cmd.Some? && Classify(cmd.value) == IrOn ==> r.camera == Camera.TurnOn(m.camera) && r.acks[|m.acks|] == "[ACK] IR ON executed"
    ensures cmd.Some? && Classify(cmd.value) == IrOff ==> r.camera == Camera.TurnOff(m.camera, env.now) && r.acks[|m.acks|] == "[ACK] IR OFF executed"
    ensures cmd.Some? && Classify(cmd.value) == GetIrState ==> r.camera == m.camera && r.acks[|m.acks|] == "[ACK] IR STATE is " + OnOff(Camera.LedState(m.camera))
    ensures cmd.Some? && Classify(cmd.value) !in {IrOn, IrOff} ==> r.camera == m.camera
    ensures cmd.Some? && Classify(cmd.value) !in {AddNewsletter, RemoveNewsletter} ==> r.subscribers == m.subscribers
    ensures cmd.Some? && Classify(cmd.value) == AddNewsletter ==>
      '=' in cmd.value && (r.subscribers, r.acks[|m.acks|]) == AddSubscriber(m.subscribers, EmailOf(cmd.value))
    ensures cmd.Some? && Classify(cmd.value) == RemoveNewsletter ==>
      '=' in cmd.value && (r.subscribers, r.acks[|m.acks|]) == RemoveSubscriber(m.subscribers, EmailOf(cmd.value))
    ensures cmd.Some? && Classify(cmd.value) == SaveImage ==> r.acks[|m.acks|] == ImageAck(env)
  {
    match cmd
    case None => m
    case Some(c) =>
      match Classify(c)
      case IrOn => m.(camera := Camera.TurnOn(m.camera), acks := m.acks + ["[ACK] IR ON executed"])
      case IrOff => m.(camera := Camera.TurnOff(m.camera, env.now), acks := m.acks + ["[ACK] IR OFF executed"])
      case GetIrState => m.(acks := m.acks + ["[ACK] IR STATE is " + OnOff(Camera.LedState(m.camera))])
      case AddNewsletter =>
        CharOfContained(c, Patterns[3], 20);
        var (file, ack) := AddSubscriber(m.subscribers, EmailOf(c));
        m.(subscribers := file, acks := m.acks + [ack])
      case RemoveNewsletter =>
        CharOfContained(c, Patterns[4], 23);
        var (file, ack) := RemoveSubscriber(m.subscribers, EmailOf(c));
        m.(subscribers := file, acks := m.acks + [ack])
      case SaveImage => m.(acks := m.acks + [ImageAck(env)])
      case NoMatch => m
  }

  /** How the loop ends when a statement raises what `except queue.Empty`
      does not catch. */
  datatype Crash = TypeError

  /** The dispatch as written: for the newsletter commands `split(b'=')` is
      applied to a `str`, which raises `TypeError` and ends the loop; every
      other command behaves as in `Dispatch`. */
  function DispatchAsWritten(m: Main, cmd: Option<string>, env: Env): (r: Result<Main, Crash>)
    ensures r.Err? <==> cmd.Some? && Classify(cmd.value) in {AddNewsletter, RemoveNewsletter}
    ensures r.Ok? ==> r.value == Dispatch(m, cmd, env)
  {
    if cmd.Some? && Classify(cmd.value) in {AddNewsletter, RemoveNewsletter} then Err(TypeError)
    else Ok(Dispatch(m, cmd, env))
  }

  /** A newsletter command never reaches the list as written, while the
      intended dispatch subscribes the address it carries. */
  lemma NewsletterCommandCrashes(m: Main, c: string, env: Env)
    requires Classify(c) == AddNewsletter
    ensures DispatchAsWritten(m, Some(c), env) == Err(TypeError)
    ensures '=' in c
    ensures var r := Dispatch(m, Some(c), env);
      r.subscribers.Some? && Subscribed(r.subscribers.value, EmailOf(c))
  {
    assert Kinds[3] == AddNewsletter;
    CharOfContained(c, Patterns[3], 20);
  }

  /** A remove command never reaches the list as written, while the intended
      dispatch takes the address it carries off an existing list and reports
      a missing one. */
  lemma RemoveCommandUnsubscribes(m: Main, c: string, env: Env)
    requires Classify(c) == RemoveNewsletter
    ensures DispatchAsWritten(m, Some(c), env) == Err(TypeError)
    ensures '=' in c
    ensures var r := Dispatch(m, Some(c), env);
      && (m.subscribers.Some? ==> r.subscribers.Some? && !Subscribed(r.subscribers.value, EmailOf(c)))
      && (m.subscribers.None? ==> r.subscribers.None? && r.acks == m.acks + ["[ACK] Newsletter file not found"])
  {
    assert Kinds[4] == RemoveNewsletter;
    CharOfContained(c, Patterns[4], 23);
  }

  /** After every pass: when the LED differs from the remembered state, one
      `[REP] IR LED STATE: ...` report carrying the current state is pushed
      and the state remembered; otherwise nothing changes. */
  function ReportIr(m: Main): (r: Main)
    ensures r.oldLed == Camera.LedState(r.camera) && r.camera == m.camera
    ensures r.acks == m.acks && r.subscribers == m.subscribers
    ensures m.oldLed == Camera.LedState(m.camera) <==> r == m
    ensures m.oldLed != Camera.LedState(m.camera) ==>
      r.reports == m.reports + ["[REP] IR LED STATE: " + OnOff(Camera.LedState(m.camera))]
  {
    var led := Camera.LedState(m.camera);
    if m.oldLed != led then m.(reports := m.reports + ["[REP] IR LED STATE: " + OnOff(led)], oldLed := led)
    else m
  }

  /** A report is pushed at most once per change: a second pass without a
      change in between pushes nothing. */
  lemma ReportIrIdempotent(m: Main)
    ensures ReportIr(ReportIr(m)) == ReportIr(m)
  {
  }

  /** One pass of the `while True` loop. */
  function Pass(m: Main, cmd: Option<string>, env: Env): (r: Main)
    ensures r.oldLed == Camera.LedState(r.camera)
    ensures |m.reports| <= |r.reports| <= |m.reports| + 1 && r.reports[..|m.reports|] == m.reports
  {
    ReportIr(Dispatch(m, cmd, env))
  }

  /** Switching the LED on by command is reported in the same pass. */
  lemma IrOnReported(m: Main, env: Env)
    requires m.oldLed == Camera.LedState(m.camera) && !Camera.LedState(m.camera)
    ensures Pass(m, Some("[CMD] IR ON"), env).reports == m.reports + ["[REP] IR LED STATE: ON"]
  {
    var c := "[CMD] IR ON";
    assert c[..|c|] == c == Patterns[0];
    assert PyText.Contains(c, Patterns[0]);
    assert Classify(c) == IrOn;
    var d := Dispatch(m, Some(c), env);
    assert Camera.LedState(d.camera) && d.oldLed == m.oldLed;
    assert "[REP] IR LED STATE: " + OnOff(true) == "[REP] IR LED STATE: ON";
  }

  // ------------------------------------------------------------ IR auto-off

  /** Seconds the LED may stay on before the data logger switches it off. */
  const AutoOffDelay: real := 300.0

  datatype AutoOff = AutoOff(deadline: Option<real>, camera: Camera.Camera, reports: seq<string>)

  /** One pass of the data logger's timer at time `now`: arm when unarmed and
      the LED is on; fire when the deadline has passed and the LED is on,
      which disarms, reports OFF and switches the LED off. An LED switched
      off elsewhere leaves the deadline in place. */
  function AutoOffStep(t: AutoOff, now: real): (r: AutoOff)
    ensures t.deadline.None? && Camera.LedState(t.camera) ==> r == t.(deadline := Some(now + AutoOffDelay))
    ensures !Camera.LedState(t.camera) ==> r == t
    ensures t.deadline.Some? && Camera.LedState(t.camera) ==>
      if t.deadline.value < now then r == AutoOff(None, Camera.TurnOff(t.camera, now), t.reports + ["[REP] IR LED STATE: OFF"])
      else r == t
    ensures r.camera != t.camera ==> !Camera.LedState(r.camera) && r.deadline.None?
  {
    var d := if t.deadline.None? && Camera.LedState(t.camera) then Some(now + AutoOffDelay) else t.deadline;
    if d.Some? && d.value < now && Camera.LedState(t.camera) then
      AutoOff(None, Camera.TurnOff(t.camera, now), t.reports + ["[REP] IR LED STATE: OFF"])
    else t.(deadline := d)
  }

  /** Once armed, the timer does not fire within five minutes. */
  lemma NoEarlyAutoOff(t: AutoOff, armedAt: real, now: real)
    requires t.deadline.None? && Camera.LedState(t.camera)
    requires now <= armedAt + AutoOffDelay
    ensures AutoOffStep(AutoOffStep(t, armedAt), now).camera == t.camera
  {
  }

  /** The deadline survives the LED being switched off by command: when the
      LED is switched on again after it has passed, the next pass switches
      it off at once instead of five minutes later. */
  lemma StaleDeadlineFiresAtOnce(t: AutoOff, offAt: real, now: real)
    requires t.deadline.Some? && t.deadline.value < now
    ensures var back := t.(camera := Camera.TurnOn(Camera.TurnOff(t.camera, offAt)));
      AutoOffStep(t.(camera := Camera.TurnOff(t.camera, offAt)), offAt).deadline == t.deadline
      && !Camera.LedState(AutoOffStep(back, now).camera)
  {
  }
}
